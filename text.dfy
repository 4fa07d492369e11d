/**
 * The pieces of JavaScript's string library that the modelled code relies on:
 * `String.prototype.split` with a one-character separator, first and last
 * index of a character, ASCII character classes, and the trimming of HTTP
 * whitespace that header values undergo in transit. Strings are `seq<char>`.
 */
module Text {
  import opened Wrappers

  /** Number of occurrences of `c` in `s`. */
  function Count(s: string, c: char): (n: nat)
    ensures n <= |s|
    ensures n == 0 <==> c !in s
  {
    if s == [] then 0 else (if s[0] == c then 1 else 0) + Count(s[1..], c)
  }

  /** Index of the first `c` in `s` (`s.indexOf(c)`, with -1 as None). */
  function IndexOf(s: string, c: char): (r: Option<nat>)
    ensures r.None? <==> c !in s
    ensures r.Some? ==> r.value < |s| && s[r.value] == c && c !in s[..r.value]
    ensures forall t :: 0 <= t < |s| && s[t] == c ==> r.Some? && r.value <= t
  {
    if s == [] then None
    else if s[0] == c then Some(0)
    else match IndexOf(s[1..], c)
      case None => None
      case Some(i) => assert s[..i + 1] == [s[0]] + s[1..][..i]; Some(i + 1)
  }

  /** Index of the last `c` in `s` (`s.lastIndexOf(c)`, with -1 as None). */
  function LastIndexOf(s: string, c: char): (r: Option<nat>)
    ensures r.None? <==> c !in s
    ensures r.Some? ==> r.value < |s| && s[r.value] == c && c !in s[r.value + 1..]
    ensures forall t :: 0 <= t < |s| && s[t] == c ==> r.Some? && t <= r.value
  {
    if s == [] then None
    else if s[|s| - 1] == c then Some(|s| - 1)
    else
      var init := s[..|s| - 1];
      assert s == init + [s[|s| - 1]];
      match LastIndexOf(init, c)
      case None => None
      case Some(i) => assert s[i + 1..] == init[i + 1..] + [s[|s| - 1]]; Some(i)
  }

  /**
   * `s.split(sep)` for a one-character separator: the text between
   * consecutive separators, so `k` separators give `k + 1` pieces, and
   * the empty string gives one empty piece.
   */
  function Split(s: string, sep: char): (parts: seq<string>)
    ensures |parts| >= 1
    decreases |s|
  {
    if s == [] then [[]]
    else
      var rest := Split(s[1..], sep);
      if s[0] == sep then [[]] + rest
      else [[s[0]] + rest[0]] + rest[1..]
  }

  /** `parts.join(sep)`: the inverse of `Split`. */
  function Join(parts: seq<string>, sep: char): string
    requires |parts| >= 1
  {
    if |parts| == 1 then parts[0] else parts[0] + [sep] + Join(parts[1..], sep)
  }

  /** No piece of a split contains the separator. */
  lemma {:induction false} SplitPiecesFree(s: string, sep: char)
    ensures forall i :: 0 <= i < |Split(s, sep)| ==> sep !in Split(s, sep)[i]
  {
    if s != [] {
      SplitPiecesFree(s[1..], sep);
    }
  }

  /** Joining the pieces back with the separator gives the original string. */
  lemma {:induction false} JoinSplit(s: string, sep: char)
    ensures Join(Split(s, sep), sep) == s
  {
    if s != [] {
      var rest := Split(s[1..], sep);
      JoinSplit(s[1..], sep);
      if s[0] == sep {
        assert ([[]] + rest)[1..] == rest;
      } else if |rest| == 1 {
        assert Split(s, sep) == [[s[0]] + rest[0]];
      } else {
        var parts := Split(s, sep);
        assert parts[1..] == rest[1..];
        assert Join(rest, sep) == rest[0] + [sep] + Join(rest[1..], sep);
      }
    }
  }

  /** A string with `k` separators splits into `k + 1` pieces. */
  lemma {:induction false} SplitCount(s: string, sep: char)
    ensures |Split(s, sep)| == Count(s, sep) + 1
  {
    if s != [] {
      SplitCount(s[1..], sep);
    }
  }

  /** Splitting `w + r`, where `w` holds no separator, glues `w` onto the first piece of `r`. */
  lemma {:induction false} SplitFreePrefix(w: string, r: string, sep: char)
    requires sep !in w
    ensures Split(w + r, sep) == [w + Split(r, sep)[0]] + Split(r, sep)[1..]
    decreases |w|
  {
    if w != [] {
      assert (w + r)[0] == w[0];
      assert (w + r)[1..] == w[1..] + r;
      SplitFreePrefix(w[1..], r, sep);
      assert [w[0]] + (w[1..] + Split(r, sep)[0]) == w + Split(r, sep)[0];
    } else {
      var parts := Split(r, sep);
      assert w + r == r;
      assert w + parts[0] == parts[0];
      assert parts == [parts[0]] + parts[1..];
    }
  }

  /** A string without the separator is its own only piece. */
  lemma SplitWithoutSeparator(w: string, sep: char)
    requires sep !in w
    ensures Split(w, sep) == [w]
  {
    SplitFreePrefix(w, [], sep);
    assert w + [] == w;
  }

  /** The first piece ends at the first separator. */
  lemma SplitAtSeparator(w: string, r: string, sep: char)
    requires sep !in w
    ensures Split(w + [sep] + r, sep) == [w] + Split(r, sep)
  {
    SplitFreePrefix(w, [sep] + r, sep);
    assert w + [sep] + r == w + ([sep] + r);
    assert ([sep] + r)[1..] == r;
    assert w + [] == w;
  }

  /** Splitting a join of separator-free pieces gives the pieces back. */
  lemma {:induction false} SplitJoin(parts: seq<string>, sep: char)
    requires |parts| >= 1
    requires forall i :: 0 <= i < |parts| ==> sep !in parts[i]
    ensures Split(Join(parts, sep), sep) == parts
  {
    if |parts| == 1 {
      SplitFreePrefix(parts[0], [], sep);
      assert parts[0] + [] == parts[0];
    } else {
      var tail := Join(parts[1..], sep);
      SplitJoin(parts[1..], sep);
      SplitFreePrefix(parts[0], [sep] + tail, sep);
      assert ([sep] + tail)[1..] == tail;
      assert parts[0] + [sep] + tail == parts[0] + ([sep] + tail);
      assert Split([sep] + tail, sep) == [[]] + Split(tail, sep);
      assert parts[0] + [] == parts[0];
    }
  }

  predicate IsAsciiUpper(c: char) { 'A' <= c <= 'Z' }

  predicate IsAsciiLower(c: char) { 'a' <= c <= 'z' }

  predicate IsAsciiLetter(c: char) { IsAsciiUpper(c) || IsAsciiLower(c) }

  predicate IsAsciiDigit(c: char) { '0' <= c <= '9' }

  /** ASCII upper-casing of one character; every other character is left alone. */
  function AsciiUpper(c: char): (u: char)
    ensures IsAsciiLetter(c) <==> IsAsciiLetter(u)
    ensures IsAsciiLetter(c) ==> IsAsciiUpper(u)
    ensures !IsAsciiLower(c) ==> u == c
  {
    if IsAsciiLower(c) then (c as int - 32) as char else c
  }

  /** ASCII upper-casing of a string, position by position. */
  function AsciiUpperString(s: string): (u: string)
    ensures |u| == |s|
    ensures forall i :: 0 <= i < |s| ==> u[i] == AsciiUpper(s[i])
  {
    seq(|s|, i requires 0 <= i < |s| => AsciiUpper(s[i]))
  }

  /** HTTP whitespace: space, horizontal tab, line feed, carriage return. */
  predicate IsHttpWhitespace(c: char) { c == ' ' || c == '\t' || c == '\n' || c == '\r' }

  /** `s` without its trailing HTTP whitespace. */
  function TrimEnd(s: string): (r: string)
    ensures |r| <= |s| && r == s[..|r|]
    ensures r == [] || !IsHttpWhitespace(r[|r| - 1])
    ensures forall i :: |r| <= i < |s| ==> IsHttpWhitespace(s[i])
    decreases |s|
  {
    if s != [] && IsHttpWhitespace(s[|s| - 1]) then TrimEnd(s[..|s| - 1]) else s
  }

  /** `s` without its leading HTTP whitespace. */
  function TrimStart(s: string): (r: string)
    ensures |r| <= |s| && r == s[|s| - |r|..]
    ensures r == [] || !IsHttpWhitespace(r[0])
    ensures forall i :: 0 <= i < |s| - |r| ==> IsHttpWhitespace(s[i])
    decreases |s|
  {
    if s != [] && IsHttpWhitespace(s[0]) then TrimStart(s[1..]) else s
  }

  /**
   * `s` without HTTP whitespace at either end; a string already without
   * whitespace at its ends is unchanged (`TrimKeepsCharacters` says what is
   * kept).
   */
  function Trim(s: string): (r: string)
    ensures |r| <= |s|
    ensures r == [] || (!IsHttpWhitespace(r[0]) && !IsHttpWhitespace(r[|r| - 1]))
    ensures s != [] && !IsHttpWhitespace(s[0]) && !IsHttpWhitespace(s[|s| - 1]) ==> r == s
  {
    TrimStart(TrimEnd(s))
  }

  /** Trimming keeps every character that is not whitespace and adds none. */
  lemma TrimKeepsCharacters(s: string)
    ensures forall i :: 0 <= i < |s| && !IsHttpWhitespace(s[i]) ==> s[i] in Trim(s)
    ensures forall j :: 0 <= j < |Trim(s)| ==> Trim(s)[j] in s
  {
    var e := TrimEnd(s);
    var r := TrimStart(e);
    forall i | 0 <= i < |s| && !IsHttpWhitespace(s[i]) ensures s[i] in r {
      assert i < |e| && e[i] == s[i];
      assert |e| - |r| <= i;
      assert r[i - (|e| - |r|)] == e[i];
    }
    forall j | 0 <= j < |r| ensures r[j] in s {
      assert r[j] == e[|e| - |r| + j];
      assert e[|e| - |r| + j] == s[|e| - |r| + j];
    }
  }

  /**
   * Trimming removes only whitespace at the two ends: the result is the
   * contiguous part of `s` from `i` on, in order, and everything before and
   * after it is whitespace.
   */
  lemma TrimIsInfix(s: string) returns (i: nat)
    ensures i + |Trim(s)| <= |s| && Trim(s) == s[i..i + |Trim(s)|]
    ensures forall t :: 0 <= t < i ==> IsHttpWhitespace(s[t])
    ensures forall t :: i + |Trim(s)| <= t < |s| ==> IsHttpWhitespace(s[t])
  {
    var e := TrimEnd(s);
    var r := TrimStart(e);
    i := |e| - |r|;
    forall t | 0 <= t < i ensures IsHttpWhitespace(s[t]) {
      assert s[t] == e[t];
    }
    forall j | 0 <= j < |r| ensures r[j] == s[i + j] {
      assert r[j] == e[i + j];
    }
  }

  /** Trailing whitespace of `p + t` is that of `t`, unless `t` is all whitespace. */
  lemma {:induction false} TrimEndAppend(p: string, t: string)
    ensures TrimEnd(p + t) == if TrimEnd(t) == [] then TrimEnd(p) else p + TrimEnd(t)
    decreases |t|
  {
    if t == [] {
      assert p + t == p;
    } else if IsHttpWhitespace(t[|t| - 1]) {
      assert (p + t)[..|p + t| - 1] == p + t[..|t| - 1];
      TrimEndAppend(p, t[..|t| - 1]);
    }
  }
}
