/**
 * The e-mail rule of the registration form, the regular expression
 * `^[A-Z0-9._%+-]+@[A-Z0-9.-]+\.[A-Z]{2,}$` with the case-insensitive flag.
 * `IsEmail` recognises it deterministically, from the first `@` and the last
 * `.`; `MatchesPattern` says what a match is, any choice of the `@` and of
 * the literal `.` that lets the three repeated classes cover the rest; both
 * agree on every string. Under the flag without Unicode mode no non-ASCII
 * character folds onto an ASCII one, so the classes stay ASCII with both
 * letter cases.
 *
 * The input also has `type="email"` and its form no `novalidate`, so the
 * browser's own rule for a valid e-mail address (section 4.10.5.1.5 of the
 * HTML Living Standard) is checked before react-hook-form sees the submit;
 * `IsBrowserEmail` states that rule.
 */
module EmailPattern {
  import opened Wrappers
  import opened Text

  /** `[A-Z0-9._%+-]` under the case-insensitive flag. */
  predicate IsLocalChar(c: char) {
    IsAsciiLetter(c) || IsAsciiDigit(c) || c == '.' || c == '_' || c == '%' || c == '+' || c == '-'
  }

  /** `[A-Z0-9.-]` under the case-insensitive flag. */
  predicate IsDomainChar(c: char) {
    IsAsciiLetter(c) || IsAsciiDigit(c) || c == '.' || c == '-'
  }

  /** Every character of `s[lo..hi]` is in the local-part class. */
  predicate LocalRun(s: string, lo: int, hi: int) {
    forall t :: lo <= t < hi && 0 <= t < |s| ==> IsLocalChar(s[t])
  }

  /** Every character of `s[lo..hi]` is in the domain class. */
  predicate DomainRun(s: string, lo: int, hi: int) {
    forall t :: lo <= t < hi && 0 <= t < |s| ==> IsDomainChar(s[t])
  }

  /** Every character of `s[lo..hi]` is a letter. */
  predicate LetterRun(s: string, lo: int, hi: int) {
    forall t :: lo <= t < hi && 0 <= t < |s| ==> IsAsciiLetter(s[t])
  }

  /**
   * One way for the regular expression to match `s`: the `@` at `i`, the
   * literal `.` at `k`, one or more local characters before `i`, one or more
   * domain characters between, two or more letters after `k`.
   */
  predicate MatchesAt(s: string, i: int, k: int) {
    && 0 < i && i + 1 < k && k + 2 < |s|
    && s[i] == '@' && s[k] == '.'
    && LocalRun(s, 0, i) && DomainRun(s, i + 1, k) && LetterRun(s, k + 1, |s|)
  }

  /** The regular expression matches `s`. */
  ghost predicate MatchesPattern(s: string) {
    exists i, k :: MatchesAt(s, i, k)
  }

  /**
   * The recogniser for the pattern of frontend/src/components/Register.jsx:291:
   * the first `@` and the last `.` are the only candidates.
   */
  predicate IsEmail(s: string): (r: bool)
    ensures r ==> |s| >= 6 && '@' in s && '.' in s
  {
    match (IndexOf(s, '@'), LastIndexOf(s, '.'))
    case (Some(i), Some(k)) => MatchesAt(s, i, k)
    case _ => false
  }

  /** The recogniser accepts exactly the strings the pattern matches. */
  lemma IsEmailMatchesPattern(s: string)
    ensures IsEmail(s) <==> MatchesPattern(s)
  {
    if MatchesPattern(s) {
      var i, k :| MatchesAt(s, i, k);
      assert forall t :: 0 <= t < i ==> s[t] != '@' by {
        assert forall t :: 0 <= t < i ==> IsLocalChar(s[t]);
      }
      assert forall t :: k < t < |s| ==> s[t] != '.' by {
        assert forall t :: k < t < |s| ==> IsAsciiLetter(s[t]);
      }
      assert IndexOf(s, '@') == Some(i);
      assert LastIndexOf(s, '.') == Some(k);
    }
  }

  /** `@` is in none of the three classes and `.` is not a letter. */
  lemma SeparatorsOutsideClasses()
    ensures !IsLocalChar('@') && !IsDomainChar('@') && !IsAsciiLetter('.')
  {
  }

  /**
   * An accepted address has exactly one `@` (at `i`), a non-empty local part
   * of local characters, a domain of domain characters, and a last `.` (at
   * `k`) inside the domain with a non-empty text before it and two or more
   * letters after it.
   */
  lemma AcceptedEmailShape(s: string) returns (i: nat, k: nat)
    requires IsEmail(s)
    ensures IndexOf(s, '@') == Some(i) && LastIndexOf(s, '.') == Some(k)
    ensures forall t :: 0 <= t < |s| && s[t] == '@' ==> t == i
    ensures 0 < i && LocalRun(s, 0, i)
    ensures DomainRun(s, i + 1, |s|)
    ensures i + 1 < k && |s| - (k + 1) >= 2 && LetterRun(s, k + 1, |s|)
  {
    i, k := IndexOf(s, '@').value, LastIndexOf(s, '.').value;
    assert MatchesAt(s, i, k);
    SeparatorsOutsideClasses();
    forall t | i < t < |s| ensures IsDomainChar(s[t]) {
      assert t < k || t == k || IsAsciiLetter(s[t]);
    }
  }

  /** Upper-casing ASCII letters keeps every character class. */
  lemma UpperKeepsClasses(c: char)
    ensures IsLocalChar(AsciiUpper(c)) == IsLocalChar(c)
    ensures IsDomainChar(AsciiUpper(c)) == IsDomainChar(c)
    ensures IsAsciiLetter(AsciiUpper(c)) == IsAsciiLetter(c)
    ensures AsciiUpper(c) == '@' <==> c == '@'
    ensures AsciiUpper(c) == '.' <==> c == '.'
  {
  }

  /** Letter case does not matter: upper-casing ASCII letters keeps every decision. */
  lemma EmailIgnoresCase(s: string)
    ensures IsEmail(AsciiUpperString(s)) == IsEmail(s)
  {
    var u := AsciiUpperString(s);
    forall t | 0 <= t < |s| ensures
      && (IsLocalChar(u[t]) == IsLocalChar(s[t]))
      && (IsDomainChar(u[t]) == IsDomainChar(s[t]))
      && (IsAsciiLetter(u[t]) == IsAsciiLetter(s[t]))
      && (u[t] == '@' <==> s[t] == '@')
      && (u[t] == '.' <==> s[t] == '.')
    {
      UpperKeepsClasses(s[t]);
    }
    forall i, k ensures MatchesAt(s, i, k) <==> MatchesAt(u, i, k) {
    }
    IsEmailMatchesPattern(s);
    IsEmailMatchesPattern(u);
  }

  /** A letter or digit. */
  predicate IsAlnum(c: char) { IsAsciiLetter(c) || IsAsciiDigit(c) }

  /** The characters the HTML rule allows before the `@`. */
  predicate IsBrowserLocalChar(c: char) {
    IsAlnum(c) || c in ".!#$%&'*+/=?^_`{|}~-"
  }

  /** One label of a domain: 1 to 63 letters, digits and hyphens, starting and ending with a letter or digit. */
  predicate IsDomainLabel(l: string) {
    && 1 <= |l| <= 63
    && IsAlnum(l[0]) && IsAlnum(l[|l| - 1])
    && forall j :: 0 <= j < |l| ==> IsAlnum(l[j]) || l[j] == '-'
  }

  /**
   * The browser's check of a non-empty `type="email"` value: local
   * characters, one `@`, then dot-separated labels.
   */
  predicate IsBrowserEmail(s: string): (r: bool)
    ensures r ==> '@' in s
  {
    match IndexOf(s, '@')
    case None => false
    case Some(i) =>
      && 0 < i
      && (forall j :: 0 <= j < i ==> IsBrowserLocalChar(s[j]))
      && var labels := Split(s[i + 1..], '.');
         forall j :: 0 <= j < |labels| ==> IsDomainLabel(labels[j])
  }

  /** The pattern accepts an empty label, which the browser refuses. */
  lemma PatternAcceptsEmptyLabel()
    ensures MatchesPattern("a@b..cc") && !IsBrowserEmail("a@b..cc")
  {
    var s := "a@b..cc";
    assert MatchesAt(s, 1, 4);
    assert IndexOf(s, '@') == Some(1);
    assert s[2..] == "b" + "." + ("" + "." + "cc");
    SplitWithoutSeparator("cc", '.');
    SplitAtSeparator("", "cc", '.');
    SplitAtSeparator("b", "" + "." + "cc", '.');
    var labels := Split(s[2..], '.');
    assert labels[1] == [];
    assert !IsDomainLabel(labels[1]);
  }

  /** The pattern accepts a label that starts with a hyphen, which the browser refuses. */
  lemma PatternAcceptsHyphenLabel()
    ensures MatchesPattern("a@-b.cc") && !IsBrowserEmail("a@-b.cc")
  {
    var s := "a@-b.cc";
    assert MatchesAt(s, 1, 4);
    assert IndexOf(s, '@') == Some(1);
    assert s[2..] == "-b" + "." + "cc";
    SplitAtSeparator("-b", "cc", '.');
    var labels := Split(s[2..], '.');
    assert labels[0] == "-b";
    assert !IsDomainLabel(labels[0]);
  }

  /**
   * The browser rule reads an address as a local part, an `@` and a domain:
   * it is accepted iff the local part is non-empty and made of the allowed
   * characters and every dot-separated piece of the domain is a label.
   */
  lemma BrowserEmailParts(local: string, domain: string)
    requires '@' !in local
    ensures IsBrowserEmail(local + "@" + domain) <==>
      && |local| > 0
      && (forall j :: 0 <= j < |local| ==> IsBrowserLocalChar(local[j]))
      && (forall j :: 0 <= j < |Split(domain, '.')| ==> IsDomainLabel(Split(domain, '.')[j]))
  {
    var s := local + "@" + domain;
    assert s[|local|] == '@';
    assert forall t :: 0 <= t < |local| ==> s[t] == local[t];
    assert IndexOf(s, '@') == Some(|local|);
    assert s[|local| + 1..] == domain;
  }

  /**
   * A domain of one label, such as `a@localhost`, is accepted by the browser
   * and refused by the pattern, which needs a `.` after the `@`.
   */
  lemma BrowserAcceptsDotlessDomain(local: string, host: string)
    requires |local| > 0 && forall j :: 0 <= j < |local| ==> IsBrowserLocalChar(local[j])
    requires IsDomainLabel(host)
    ensures IsBrowserEmail(local + "@" + host) && !MatchesPattern(local + "@" + host)
  {
    var s := local + "@" + host;
    assert '@' !in local by {
      forall j | 0 <= j < |local| ensures local[j] != '@' {
        assert IsBrowserLocalChar(local[j]);
      }
    }
    SplitWithoutSeparator(host, '.');
    BrowserEmailParts(local, host);
    assert forall t :: 0 <= t < |local| ==> s[t] == local[t];
    assert forall t :: |local| < t < |s| ==> s[t] == host[t - |local| - 1];
    assert forall t :: |local| < t < |s| ==> s[t] != '.';
  }
}
