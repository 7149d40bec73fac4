/**
 * The sign-in / sign-up / reset dialog: the form's own checks, run before
 * anything is sent to the authentication context, the per-field error map
 * they produce, the password-strength meter, and the form state that typing
 * updates. Rendering, animation and the submit handler's timers are not part
 * of this model.
 */
module AuthModal {
  import opened Wrappers
  import opened Text
  import opened Validation
  import opened Directory
  import AuthContext

  /** The three screens of the dialog. */
  datatype Mode = SignIn | SignUp | Reset

  /** The inputs, by their `name` attribute. */
  datatype Field = EmailField | PasswordField | NameField

  datatype FormData = FormData(email: string, password: string, name: string)

  const EmptyForm: FormData := FormData("", "", "")

  function FieldValue(f: FormData, k: Field): string {
    match k
    case EmailField => f.email
    case PasswordField => f.password
    case NameField => f.name
  }

  /** `{ ...prev, [name]: value }`: the named input takes the new value, the others keep theirs. */
  function WithField(f: FormData, k: Field, v: string): (r: FormData)
    ensures FieldValue(r, k) == v
    ensures forall j :: j != k ==> FieldValue(r, j) == FieldValue(f, j)
  {
    match k
    case EmailField => f.(email := v)
    case PasswordField => f.(password := v)
    case NameField => f.(name := v)
  }

  // ---------------------------------------------------------------------------
  // The form's checks, one per field
  // ---------------------------------------------------------------------------

  /** The e-mail check, run in every mode on the trimmed input. */
  function EmailFieldError(email: string): (r: Option<string>)
    ensures r.None? <==> IsValidEmail(email)
  {
    if Trim(email) == [] then Some("Email is required")
    else if !IsValidEmail(email) then Some("Please enter a valid email address")
    else None
  }

  /** The dialog's wording of each password rule (it differs from the context's). */
  function FormRuleMessage(r: PasswordRule): string {
    match r
    case MinLength => "Password must be at least 8 characters"
    case Uppercase => "Password must contain an uppercase letter"
    case Lowercase => "Password must contain a lowercase letter"
    case Digit => "Password must contain a number"
    case Special => "Password must contain a special character"
  }

  /**
   * The password check: none on the reset screen, presence on the sign-in
   * screen, and on the sign-up screen the rules one after another, the first
   * failing one reported.
   */
  function PasswordFieldError(mode: Mode, p: string): (r: Option<string>)
    ensures mode == Reset ==> r.None?
    ensures mode != Reset && p == [] ==> r == Some("Password is required")
    ensures mode == SignUp && r.None? ==> forall rule :: Satisfies(p, rule)
  {
    if mode == Reset then None
    else if p == [] then Some("Password is required")
    else if mode == SignUp then
      if !Satisfies(p, MinLength) then Some(FormRuleMessage(MinLength))
      else if !Satisfies(p, Uppercase) then Some(FormRuleMessage(Uppercase))
      else if !Satisfies(p, Lowercase) then Some(FormRuleMessage(Lowercase))
      else if !Satisfies(p, Digit) then Some(FormRuleMessage(Digit))
      else if !Satisfies(p, Special) then Some(FormRuleMessage(Special))
      else None
    else None
  }

  /** The name check, on the sign-up screen only, on the trimmed input. */
  function NameFieldError(mode: Mode, name: string): (r: Option<string>)
    ensures r.None? <==> mode != SignUp || |Trim(name)| >= 2
    ensures r == Some("Name is required") <==> mode == SignUp && AllWhitespace(name)
    ensures r == Some("Name must be at least 2 characters") <==> mode == SignUp && |Trim(name)| == 1
  {
    TrimEmptyIff(name);
    if mode != SignUp then None
    else if Trim(name) == [] then Some("Name is required")
    else if |Trim(name)| < 2 then Some("Name must be at least 2 characters")
    else None
  }

  /** Records a field's error when there is one. */
  function Record(errors: map<Field, string>, k: Field, e: Option<string>): (r: map<Field, string>)
    ensures k in r <==> k in errors || e.Some?
    ensures e.Some? ==> r[k] == e.value
    ensures forall j :: j != k ==> (j in r <==> j in errors)
    ensures forall j :: j in errors && j != k ==> r[j] == errors[j]
  {
    if e.Some? then errors[k := e.value] else errors
  }

  /** The error map `validateForm` builds: one entry per field whose check fails. */
  function FormErrors(mode: Mode, f: FormData): (r: map<Field, string>)
    ensures EmailField in r <==> EmailFieldError(f.email).Some?
    ensures PasswordField in r <==> PasswordFieldError(mode, f.password).Some?
    ensures NameField in r <==> NameFieldError(mode, f.name).Some?
    ensures EmailField in r ==> r[EmailField] == EmailFieldError(f.email).value
    ensures PasswordField in r ==> r[PasswordField] == PasswordFieldError(mode, f.password).value
    ensures NameField in r ==> r[NameField] == NameFieldError(mode, f.name).value
  {
    var withEmail := Record(map[], EmailField, EmailFieldError(f.email));
    var withPassword := Record(withEmail, PasswordField, PasswordFieldError(mode, f.password));
    Record(withPassword, NameField, NameFieldError(mode, f.name))
  }

  /** The form is accepted exactly when every field's check passes. */
  lemma FormAcceptedIff(mode: Mode, f: FormData)
    ensures FormErrors(mode, f) == map[] <==>
      && EmailFieldError(f.email).None?
      && PasswordFieldError(mode, f.password).None?
      && NameFieldError(mode, f.name).None?
  {
    var r := FormErrors(mode, f);
    if EmailFieldError(f.email).None? && PasswordFieldError(mode, f.password).None? && NameFieldError(mode, f.name).None? {
      forall k | k in r ensures false {
        match k
        case EmailField =>
        case PasswordField =>
        case NameField =>
      }
    } else {
      if EmailFieldError(f.email).Some? { assert EmailField in r; }
      else if PasswordFieldError(mode, f.password).Some? { assert PasswordField in r; }
      else { assert NameField in r; }
    }
  }

  /** `fieldErrors[name]` truthy (present and non-empty) becomes `''`; nothing else changes. */
  function ClearFieldError(errors: map<Field, string>, k: Field): (r: map<Field, string>)
    ensures r.Keys == errors.Keys
    ensures k in r ==> r[k] == ""
    ensures forall j :: j in r && j != k ==> r[j] == errors[j]
  {
    if k in errors && errors[k] != "" then errors[k := ""] else errors
  }

  // ---------------------------------------------------------------------------
  // Properties of the checks
  // ---------------------------------------------------------------------------

  /** The e-mail message: "required" exactly for blank input, "invalid" exactly for non-blank input that does not match. */
  lemma EmailFieldErrorRule(email: string)
    ensures EmailFieldError(email) == Some("Email is required") <==> AllWhitespace(email)
    ensures EmailFieldError(email) == Some("Please enter a valid email address")
      <==> !AllWhitespace(email) && !MatchesEmailRegex(Trim(email))
    ensures EmailFieldError(email).None? <==> MatchesEmailRegex(Trim(email))
  {
    TrimEmptyIff(email);
    EmailShapeIsRegex(Trim(email));
    if Trim(email) == [] {
      assert !EmailShape(Trim(email));
    }
  }

  /** The reset screen checks the e-mail only, and only the sign-up screen checks the name. */
  lemma ModeRules(mode: Mode, f: FormData)
    ensures mode == Reset ==> FormErrors(mode, f).Keys <= {EmailField}
    ensures NameField in FormErrors(mode, f) ==> mode == SignUp
    ensures EmailField in FormErrors(mode, f) <==> EmailField in FormErrors(SignUp, f)
  {
  }

  /** On the sign-in screen the only password error is a missing password. */
  lemma SignInPasswordOnlyRequired(p: string)
    ensures PasswordFieldError(SignIn, p).Some? <==> p == []
    ensures PasswordFieldError(SignIn, p).Some? ==> PasswordFieldError(SignIn, p).value == "Password is required"
  {
  }

  /**
   * On the sign-up screen the password check passes exactly when the
   * context's `validatePassword` accepts, and a non-empty password is
   * rejected with the dialog's wording of the first rule it fails.
   */
  lemma SignUpPasswordAgrees(p: string)
    ensures PasswordFieldError(SignUp, p).None? <==> ValidatePassword(p).isValid
    ensures p != [] && !ValidatePassword(p).isValid ==>
      && FirstFailedRule(p).Some?
      && PasswordFieldError(SignUp, p) == Some(FormRuleMessage(FirstFailedRule(p).value))
  {
    ValidatePasswordIff(p);
    FirstFailedUnrolled(p);
    if ValidatePassword(p).isValid {
      assert Satisfies(p, MinLength) && Satisfies(p, Uppercase) && Satisfies(p, Lowercase);
      assert Satisfies(p, Digit) && Satisfies(p, Special);
    }
  }

  /** The first failed rule, written out as the chain of checks it stands for. */
  lemma FirstFailedUnrolled(p: string)
    ensures FirstFailedRule(p) ==
      if !Satisfies(p, MinLength) then Some(MinLength)
      else if !Satisfies(p, Uppercase) then Some(Uppercase)
      else if !Satisfies(p, Lowercase) then Some(Lowercase)
      else if !Satisfies(p, Digit) then Some(Digit)
      else if !Satisfies(p, Special) then Some(Special)
      else None
  {
    var rs := PasswordRules;
    assert rs[0] == MinLength && rs[1] == Uppercase && rs[2] == Lowercase && rs[3] == Digit && rs[4] == Special;
    var r := FirstFailed(p, rs);
    if r.Some? {
      assert forall k :: 0 <= k < r.value ==> Satisfies(p, rs[k]);
    }
  }

  /**
   * On the sign-up screen the form passes exactly when the context's
   * `signUp` would either succeed or fail only because the address is
   * already registered: the dialog checks everything but the directory.
   */
  lemma SignUpFormAgrees(f: FormData, users: seq<User>)
    ensures var r := AuthContext.SignUpError(f.email, f.password, f.name, users);
      FormErrors(SignUp, f) == map[] <==> r.None? || r == Some(AuthContext.EmailExists)
  {
    FormAcceptedIff(SignUp, f);
    AuthContext.SignUpChecksInOrder(f.email, f.password, f.name, users);
    SignUpPasswordAgrees(f.password);
    AuthContext.NormalizedEmailValid(f.email);
    if ValidatePassword(f.password).isValid {
      ValidatePasswordIff(f.password);
      assert Satisfies(f.password, MinLength);
    }
  }

  /**
   * On the sign-in screen the form passes exactly when the context's
   * `signIn` gets past its own presence and format checks: unknown
   * addresses and short passwords are only caught by the context.
   */
  lemma SignInFormAgrees(f: FormData, users: seq<User>)
    ensures var r := AuthContext.SignInError(f.email, f.password, users);
      FormErrors(SignIn, f) == map[] <==>
        r.None? || r == Some(AuthContext.NoAccount) || r == Some(AuthContext.InvalidPassword)
  {
    FormAcceptedIff(SignIn, f);
    AuthContext.SignInChecksInOrder(f.email, f.password, users);
    AuthContext.NormalizedEmailValid(f.email);
  }

  /** On the reset screen the form passes exactly when `resetPassword` fails at most on an unknown address. */
  lemma ResetFormAgrees(f: FormData, users: seq<User>)
    ensures var r := AuthContext.ResetError(f.email, users);
      FormErrors(Reset, f) == map[] <==> r.None? || r == Some(AuthContext.NoAccount)
  {
    FormAcceptedIff(Reset, f);
    AuthContext.ResetChecksInOrder(f.email, users);
    AuthContext.NormalizedEmailValid(f.email);
  }

  // ---------------------------------------------------------------------------
  // The strength meter
  // ---------------------------------------------------------------------------

  datatype StrengthLevel = Weak | Medium | Good | Strong

  /** What `getPasswordStrength` returns: the tier, its bar colour class and its label. */
  datatype Strength = Strength(level: StrengthLevel, color: string, text: string)

  /**
   * `getPasswordStrength`: the number of the five rules the password meets
   * picks the tier; each tier shows its own bar colour and label.
   */
  function PasswordStrength(p: string): (r: Strength)
    ensures r.level == Weak <==> r.color == "bg-red-500" && r.text == "Weak"
    ensures r.level == Medium <==> r.color == "bg-yellow-500" && r.text == "Medium"
    ensures r.level == Good <==> r.color == "bg-blue-500" && r.text == "Good"
    ensures r.level == Strong <==> r.color == "bg-green-500" && r.text == "Strong"
  {
    var met := PassedCount(p, PasswordRules);
    if met <= 2 then Strength(Weak, "bg-red-500", "Weak")
    else if met <= 3 then Strength(Medium, "bg-yellow-500", "Medium")
    else if met <= 4 then Strength(Good, "bg-blue-500", "Good")
    else Strength(Strong, "bg-green-500", "Strong")
  }

  /**
   * The tiers in terms of the messages `validatePassword` reports: Strong
   * with none (exactly the passwords the context accepts), Good with one,
   * Medium with two, Weak with three or more.
   */
  lemma StrengthTiers(p: string)
    ensures var n := |ValidatePassword(p).errors|;
      && (PasswordStrength(p).level == Strong <==> n == 0)
      && (PasswordStrength(p).level == Good <==> n == 1)
      && (PasswordStrength(p).level == Medium <==> n == 2)
      && (PasswordStrength(p).level == Weak <==> n >= 3)
    ensures PasswordStrength(p).level == Strong <==> ValidatePassword(p).isValid
  {
    PassedPlusErrors(p);
    ValidatePasswordIff(p);
  }

  /** Only a password the sign-up screen accepts shows as Strong. */
  lemma StrongIffSignUpAccepts(p: string)
    ensures PasswordStrength(p).level == Strong <==> PasswordFieldError(SignUp, p).None?
  {
    StrengthTiers(p);
    SignUpPasswordAgrees(p);
  }

  // ---------------------------------------------------------------------------
  // The dialog's state
  // ---------------------------------------------------------------------------

  /** The dialog's form state: the screen shown, the inputs, and the per-field errors. */
  class AuthForm {
    var mode: Mode
    var formData: FormData
    var fieldErrors: map<Field, string>

    /** The dialog opens on `initialMode` with an empty form and no errors. */
    constructor(initialMode: Mode)
      ensures mode == initialMode && formData == EmptyForm && fieldErrors == map[]
    {
      mode := initialMode;
      formData := EmptyForm;
      fieldErrors := map[];
    }

    /** Switching screens (or reopening) empties the form and its errors. */
    method SwitchMode(m: Mode)
      modifies this
      ensures mode == m && formData == EmptyForm && fieldErrors == map[]
    {
      mode := m;
      formData := EmptyForm;
      fieldErrors := map[];
    }

    /** `handleInputChange`: the typed-in field takes the value and its error, if shown, is blanked. */
    method HandleInputChange(k: Field, v: string)
      modifies this
      ensures mode == old(mode)
      ensures formData == WithField(old(formData), k, v)
      ensures fieldErrors == ClearFieldError(old(fieldErrors), k)
    {
      formData := WithField(formData, k, v);
      if k in fieldErrors && fieldErrors[k] != "" {
        fieldErrors := fieldErrors[k := ""];
      }
    }

    /** `validateForm`: replaces the shown errors with the current ones and reports whether there are none. */
    method ValidateForm() returns (ok: bool)
      modifies this
      ensures mode == old(mode) && formData == old(formData)
      ensures fieldErrors == FormErrors(mode, formData)
      ensures ok <==> fieldErrors == map[]
    {
      fieldErrors := FormErrors(mode, formData);
      ok := |fieldErrors| == 0;
    }
  }
}
