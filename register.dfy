/**
 * The registration form of frontend/src/components/Register.jsx: the
 * react-hook-form rules on its four fields, the size check on the chosen
 * profile picture, and the shaping of the body that is posted.
 * react-hook-form checks the rules of a field in the order required, minimum
 * length, pattern, custom `validate`, and reports the first one that fails.
 * Before any of that the browser checks the `type="email"` input, because the
 * form does not switch native validation off.
 */
module RegisterForm {
  import opened Wrappers
  import EmailPattern

  /** The outcome of one field's rules: valid, or the message shown under the field. */
  datatype Check = Pass | Fail(message: string)

  const NameMinLength := 2
  const PasswordMinLength := 6
  /** Largest accepted picture, in bytes (`file.size > 5000000` is refused). */
  const MaxImageBytes := 5000000

  /**
   * The name rule (Register.jsx:265-271): required, then at least two
   * characters.
   */
  function ValidateName(name: string): (r: Check)
    ensures r.Pass? <==> |name| >= NameMinLength
    ensures r == Fail("Name is required") <==> name == ""
    ensures r == Fail("Name should be at least 2 characters") <==> |name| == 1
  {
    if name == "" then Fail("Name is required")
    else if |name| < NameMinLength then Fail("Name should be at least 2 characters")
    else Pass
  }

  /**
   * The e-mail rule (Register.jsx:288-294): required, then matched by the
   * pattern.
   */
  function ValidateEmail(email: string): (r: Check)
    ensures r.Pass? <==> EmailPattern.MatchesPattern(email)
    ensures r == Fail("Email is required") <==> email == ""
    ensures r == Fail("Invalid email address") <==> email != "" && !EmailPattern.MatchesPattern(email)
  {
    EmailPattern.IsEmailMatchesPattern(email);
    if email == "" then Fail("Email is required")
    else if !EmailPattern.IsEmail(email) then Fail("Invalid email address")
    else Pass
  }

  /**
   * The password rule (Register.jsx:311-318): required, then at least six
   * characters, and nothing else.
   */
  function ValidatePassword(password: string): (r: Check)
    ensures r.Pass? <==> |password| >= PasswordMinLength
    ensures r == Fail("Password is required") <==> password == ""
    ensures r == Fail("Password should be at least 6 characters") <==> 0 < |password| < PasswordMinLength
  {
    if password == "" then Fail("Password is required")
    else if |password| < PasswordMinLength then Fail("Password should be at least 6 characters")
    else Pass
  }

  /**
   * The confirmation rule (Register.jsx:346-350): required, then equal to the
   * password currently typed.
   */
  function ValidateConfirm(confirm: string, password: string): (r: Check)
    ensures r.Pass? <==> confirm != "" && confirm == password
    ensures r == Fail("Please confirm your password") <==> confirm == ""
    ensures r == Fail("Passwords do not match") <==> confirm != "" && confirm != password
  {
    if confirm == "" then Fail("Please confirm your password")
    else if confirm != password then Fail("Passwords do not match")
    else Pass
  }

  /** The form's values; `profilePic` keeps its default "" since no input is registered for it. */
  datatype FormValues = FormValues(
    name: string, email: string, password: string, confirmPassword: string, profilePic: string)

  /** A JSON value of the posted body: a string or `null`. */
  datatype Value = Str(s: string) | Null

  /**
   * The `data` object react-hook-form hands to `onSubmit`: one string entry
   * for each registered field and for the `profilePic` default
   * (Register.jsx:129-135).
   */
  function FormData(v: FormValues): (data: map<string, Value>)
    ensures data.Keys == {"name", "email", "password", "confirmPassword", "profilePic"}
    ensures forall k :: k in data ==> data[k].Str?
    ensures data["name"].s == v.name && data["email"].s == v.email && data["password"].s == v.password
    ensures data["confirmPassword"].s == v.confirmPassword && data["profilePic"].s == v.profilePic
  {
    map["name" := Str(v.name), "email" := Str(v.email), "password" := Str(v.password),
        "confirmPassword" := Str(v.confirmPassword), "profilePic" := Str(v.profilePic)]
  }

  /** The preview image as a JSON value: `null` until a picture has been read. */
  function PreviewValue(preview: Option<string>): Value {
    match preview
    case None => Null
    case Some(url) => Str(url)
  }

  /**
   * The posted body (Register.jsx:160-164): the form data with `profilePic`
   * replaced by the preview image and `confirmPassword` deleted.
   */
  function RegistrationBody(data: map<string, Value>, preview: Option<string>): (body: map<string, Value>)
    ensures body.Keys == data.Keys - {"confirmPassword"} + {"profilePic"}
    ensures body["profilePic"] == PreviewValue(preview)
    ensures forall k :: k in data && k != "confirmPassword" && k != "profilePic" ==> body[k] == data[k]
  {
    data["profilePic" := PreviewValue(preview)] - {"confirmPassword"}
  }

  /** The messages of the fields whose rules fail, by field name. */
  function FieldErrors(v: FormValues): (errors: map<string, string>)
    ensures "name" in errors <==> ValidateName(v.name).Fail?
    ensures "email" in errors <==> ValidateEmail(v.email).Fail?
    ensures "password" in errors <==> ValidatePassword(v.password).Fail?
    ensures "confirmPassword" in errors <==> ValidateConfirm(v.confirmPassword, v.password).Fail?
    ensures errors.Keys <= {"name", "email", "password", "confirmPassword"}
    ensures "name" in errors ==> errors["name"] == ValidateName(v.name).message
    ensures "email" in errors ==> errors["email"] == ValidateEmail(v.email).message
    ensures "password" in errors ==> errors["password"] == ValidatePassword(v.password).message
    ensures "confirmPassword" in errors ==>
      errors["confirmPassword"] == ValidateConfirm(v.confirmPassword, v.password).message
  {
    var checks := map["name" := ValidateName(v.name), "email" := ValidateEmail(v.email),
                       "password" := ValidatePassword(v.password),
                       "confirmPassword" := ValidateConfirm(v.confirmPassword, v.password)];
    map f | f in checks && checks[f].Fail? :: checks[f].message
  }

  /**
   * What submitting does: the browser refuses the e-mail value and no submit
   * event fires, react-hook-form blocks with the field errors, or the body is
   * posted.
   */
  datatype SubmitOutcome = NotSubmitted | Blocked(errors: map<string, string>) | Posted(body: map<string, Value>)

  /**
   * The browser's check of the `type="email"` input (Register.jsx:287): the
   * input has no `required` attribute, so only a non-empty value that is not
   * a valid e-mail address stops the submit.
   */
  predicate BrowserAllowsSubmit(v: FormValues) {
    v.email == "" || EmailPattern.IsBrowserEmail(v.email)
  }

  /** All four field rules pass. */
  ghost predicate RulesPass(v: FormValues) {
    && |v.name| >= NameMinLength && EmailPattern.MatchesPattern(v.email)
    && |v.password| >= PasswordMinLength && v.confirmPassword == v.password
  }

  /** No field has an error exactly when all four rules pass. */
  lemma NoErrorsIffRulesPass(v: FormValues)
    ensures FieldErrors(v) == map[] <==> RulesPass(v)
  {
    var errors := FieldErrors(v);
    if errors != map[] {
      var f :| f in errors;
      assert f == "name" || f == "email" || f == "password" || f == "confirmPassword";
    }
  }

  /**
   * Submitting the form (Register.jsx:253): the browser's check comes first;
   * then `handleSubmit(onSubmit)` runs `onSubmit` only when no rule fails.
   */
  function HandleSubmit(v: FormValues, preview: Option<string>): (out: SubmitOutcome)
    ensures out.NotSubmitted? <==> v.email != "" && !EmailPattern.IsBrowserEmail(v.email)
    ensures out.Posted? <==> EmailPattern.IsBrowserEmail(v.email) && RulesPass(v)
    ensures out.Blocked? <==> BrowserAllowsSubmit(v) && !RulesPass(v)
    ensures out.Blocked? ==> out.errors == FieldErrors(v) && out.errors != map[]
    ensures out.Posted? ==> out.body == RegistrationBody(FormData(v), preview)
  {
    NoErrorsIffRulesPass(v);
    if !BrowserAllowsSubmit(v) then NotSubmitted
    else
      var errors := FieldErrors(v);
      if errors == map[] then Posted(RegistrationBody(FormData(v), preview))
      else Blocked(errors)
  }

  /**
   * Every posted body has exactly the fields name, email, password and
   * profilePic, no password confirmation, and values that passed the rules.
   */
  lemma PostedBodyIsValid(v: FormValues, preview: Option<string>)
    requires HandleSubmit(v, preview).Posted?
    ensures var body := HandleSubmit(v, preview).body;
      && body.Keys == {"name", "email", "password", "profilePic"}
      && body["name"] == Str(v.name) && |v.name| >= NameMinLength
      && body["email"] == Str(v.email) && EmailPattern.MatchesPattern(v.email)
      && EmailPattern.IsBrowserEmail(v.email)
      && body["password"] == Str(v.password) && |v.password| >= PasswordMinLength
      && body["profilePic"] == PreviewValue(preview)
  {
    var data := FormData(v);
    assert data.Keys == {"name", "email", "password", "confirmPassword", "profilePic"};
    assert data.Keys - {"confirmPassword"} + {"profilePic"} == {"name", "email", "password", "profilePic"};
  }

  /**
   * A chosen picture file: its size in bytes and what `reader.result` holds
   * once `readAsDataURL` ends, the data URL or `null` (None) when the read
   * failed; `onloadend` fires in both cases.
   */
  datatype ImageFile = ImageFile(size: nat, readResult: Option<string>)

  /** What `handleImageChange` decides about `e.target.files[0]`. */
  datatype ImageDecision = NoFile | TooLarge | Accepted

  /**
   * The size check of Register.jsx:141-146: nothing happens without a file,
   * and a file above the limit is refused.
   */
  function CheckImage(file: Option<ImageFile>): (d: ImageDecision)
    ensures d == NoFile <==> file.None?
    ensures d == TooLarge <==> file.Some? && file.value.size > MaxImageBytes
    ensures d == Accepted <==> file.Some? && file.value.size <= MaxImageBytes
  {
    match file
    case None => NoFile
    case Some(f) => if f.size > MaxImageBytes then TooLarge else Accepted
  }

  /** The state of the `Register` component that its handlers read and update. */
  class RegisterView {
    var previewImage: Option<string>

    /** No preview at first (Register.jsx:111). */
    constructor ()
      ensures previewImage == None
    {
      previewImage := None;
    }

    /**
     * `handleImageChange` (Register.jsx:140-155): once an accepted picture
     * has been read, what the reader yields becomes the preview; otherwise
     * the preview stays.
     */
    method HandleImageChange(file: Option<ImageFile>) returns (d: ImageDecision)
      modifies this
      ensures d == CheckImage(file)
      ensures previewImage == if d == Accepted then file.value.readResult else old(previewImage)
    {
      d := CheckImage(file);
      if d == Accepted {
        previewImage := file.value.readResult;
      }
    }

    /**
     * Submitting with the component's current preview (Register.jsx:157-164
     * behind the gate of line 253): the body is posted iff the browser and
     * every rule accept the values, and then it carries the typed values and
     * the preview, without the confirmation.
     */
    method Submit(v: FormValues) returns (out: SubmitOutcome)
      ensures out.NotSubmitted? <==> !BrowserAllowsSubmit(v)
      ensures out.Posted? <==> BrowserAllowsSubmit(v) && RulesPass(v)
      ensures out.Blocked? ==> out.errors == FieldErrors(v) && out.errors != map[]
      ensures out.Posted? ==>
        && out.body.Keys == {"name", "email", "password", "profilePic"}
        && "confirmPassword" !in out.body
        && out.body["name"] == Str(v.name) && out.body["email"] == Str(v.email)
        && out.body["password"] == Str(v.password)
        && out.body["profilePic"] == PreviewValue(previewImage)
    {
      out := HandleSubmit(v, previewImage);
      if out.Posted? {
        PostedBodyIsValid(v, previewImage);
      }
    }
  }

  /**
   * Submitting the form as it is rendered: no element of the page calls
   * `handleImageChange`, so the preview keeps its initial `null`
   * (Register.jsx:111) and every posted body carries `profilePic: null`.
   */
  method SubmitAsRendered(v: FormValues) returns (out: SubmitOutcome)
    ensures out.Posted? <==> BrowserAllowsSubmit(v) && RulesPass(v)
    ensures out.Posted? ==> "profilePic" in out.body && out.body["profilePic"] == Null
  {
    var view := new RegisterView();
    out := view.Submit(v);
  }

  /** A picture of exactly the limit is accepted; one byte more is refused and keeps the preview. */
  method ImageLimitScenario(v: RegisterView, url: string, other: string)
    modifies v
    ensures v.previewImage == Some(url)
  {
    var d := v.HandleImageChange(Some(ImageFile(MaxImageBytes, Some(url))));
    assert d == Accepted;
    d := v.HandleImageChange(Some(ImageFile(MaxImageBytes + 1, Some(other))));
    assert d == TooLarge;
  }

  /** A later picture of accepted size whose read fails clears the preview to `null`. */
  method FailedReadScenario(v: RegisterView, url: string)
    modifies v
    ensures v.previewImage == None
  {
    var d := v.HandleImageChange(Some(ImageFile(1, Some(url))));
    assert v.previewImage == Some(url);
    d := v.HandleImageChange(Some(ImageFile(1, None)));
  }
}
