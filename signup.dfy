/**
 * The signup form: its five text fields, the field-by-field validator with
 * its exact messages, clearing a field's error as the user types, and the
 * submit handler that logs in with the selected role only when the form
 * validates.
 */
module Signup {
  import opened Js
  import opened AppContext

  // ---------------------------------------------------------------------
  // Form data
  // ---------------------------------------------------------------------

  /** The `name` attributes of the form's inputs. */
  datatype Field = Name | Email | Username | Password | ConfirmPassword

  /** `formData`. */
  datatype FormData = FormData(name: string, email: string, username: string, password: string, confirmPassword: string)
  {
    /** `formData[field]`. */
    function Get(field: Field): string {
      match field
      case Name => name
      case Email => email
      case Username => username
      case Password => password
      case ConfirmPassword => confirmPassword
    }

    /** `{ ...formData, [field]: value }`: that field reads `value`, every
        other field is unchanged. */
    function With(field: Field, value: string): (r: FormData)
      ensures r.Get(field) == value
      ensures forall g :: g != field ==> r.Get(g) == Get(g)
    {
      match field
      case Name => this.(name := value)
      case Email => this.(email := value)
      case Username => this.(username := value)
      case Password => this.(password := value)
      case ConfirmPassword => this.(confirmPassword := value)
    }
  }

  /** The form as first rendered. */
  const EmptyForm := FormData("", "", "", "", "")

  // ---------------------------------------------------------------------
  // The email pattern ^[^\s@]+@[^\s@]+\.[^\s@]+$
  // ---------------------------------------------------------------------

  /** A character the class `[^\s@]` accepts. */
  predicate Plain(c: char) {
    !IsSpace(c) && c != '@'
  }

  /** Every character of `s` other than the one at `at` is plain. */
  predicate PlainExcept(s: string, at: int) {
    forall i :: 0 <= i < |s| && i != at ==> Plain(s[i])
  }

  /** A dot at `dot` with at least one character on either side of it after
      the `@` at `at`. */
  predicate DotAfter(s: string, at: int, dot: int) {
    0 <= at && at + 1 < dot < |s| - 1 && s[dot] == '.'
  }

  /** `s` is matched by the pattern with its `@` at `at`. */
  predicate EmailAt(s: string, at: int) {
    0 < at < |s| && s[at] == '@' && PlainExcept(s, at) && exists dot :: at < dot < |s| && DotAfter(s, at, dot)
  }

  /** The whole string is a non-empty run of plain characters, an `@`, and a
      run of plain characters containing a dot that is neither its first
      nor its last character. */
  predicate EmailPattern(s: string) {
    exists at :: 0 <= at < |s| && EmailAt(s, at)
  }

  /** `local@host.tld` with plain, non-empty parts matches. */
  lemma EmailOfParts(local: string, host: string, tld: string)
    requires local != [] && host != [] && tld != []
    requires forall i :: 0 <= i < |local| ==> Plain(local[i])
    requires forall i :: 0 <= i < |host| ==> Plain(host[i])
    requires forall i :: 0 <= i < |tld| ==> Plain(tld[i])
    ensures EmailPattern(local + "@" + host + "." + tld)
  {
    var s := local + "@" + host + "." + tld;
    var at := |local|;
    var dot := |local| + 1 + |host|;
    forall i | 0 <= i < |s| && i != at ensures Plain(s[i]) {
      if i < at {
        assert s[i] == local[i];
      } else if i < dot {
        assert s[i] == host[i - at - 1];
      } else if i > dot {
        assert s[i] == tld[i - dot - 1];
      }
    }
    assert DotAfter(s, at, dot);
    assert EmailAt(s, at);
  }

  /** A matching address has exactly one `@`, and it is not blank. */
  lemma EmailPatternShape(s: string)
    requires EmailPattern(s)
    ensures exists at :: 0 <= at < |s| && s[at] == '@' && forall i :: 0 <= i < |s| && s[i] == '@' ==> i == at
    ensures !IsBlank(s)
  {
    var at :| EmailAt(s, at);
    assert Plain(s[0]);
  }

  // ---------------------------------------------------------------------
  // Validation
  // ---------------------------------------------------------------------

  /** `!formData.name.trim()`. */
  function NameError(name: string): Option<string> {
    if Trim(name) == [] then Some("Full name is required") else None
  }

  function EmailError(email: string): Option<string> {
    if Trim(email) == [] then Some("Email is required")
    else if !EmailPattern(email) then Some("Enter a valid email address")
    else None
  }

  /** The length test is on the untrimmed username. */
  function UsernameError(username: string): Option<string> {
    if Trim(username) == [] then Some("Username is required")
    else if |username| < 3 then Some("Username must be at least 3 characters")
    else None
  }

  /** The password is not trimmed. */
  function PasswordError(password: string): Option<string> {
    if password == [] then Some("Password is required")
    else if |password| < 6 then Some("Password must be at least 6 characters")
    else None
  }

  function ConfirmError(password: string, confirmPassword: string): Option<string> {
    if confirmPassword == [] then Some("Please confirm your password")
    else if password != confirmPassword then Some("Passwords do not match")
    else None
  }

  /** The message `validate` records for one field, if any. */
  function FieldError(f: FormData, field: Field): Option<string> {
    match field
    case Name => NameError(f.name)
    case Email => EmailError(f.email)
    case Username => UsernameError(f.username)
    case Password => PasswordError(f.password)
    case ConfirmPassword => ConfirmError(f.password, f.confirmPassword)
  }

  /** Every field of the form. */
  const Fields: set<Field> := {Name, Email, Username, Password, ConfirmPassword}

  /** `validate()`: the map from each failing field to its message. */
  function Validate(f: FormData): map<Field, string> {
    map field | field in Fields && FieldError(f, field).Some? :: FieldError(f, field).value
  }

  /** The map holds exactly the fields with a message, each with its own
      message. */
  lemma ValidateFields(f: FormData)
    ensures forall field :: field in Validate(f) <==> FieldError(f, field).Some?
    ensures forall field :: field in Validate(f) ==> Validate(f)[field] == FieldError(f, field).value
  {
    forall field ensures field in Validate(f) <==> FieldError(f, field).Some? {
      match field
      case Name =>
      case Email =>
      case Username =>
      case Password =>
      case ConfirmPassword =>
    }
  }

  /** `!s.trim()` is the blank test. */
  lemma BlankTest(s: string)
    ensures (Trim(s) == []) == IsBlank(s)
  {
    TrimSpec(s);
  }

  /** The name must not be blank. */
  lemma ValidateName(f: FormData)
    ensures Name in Validate(f) <==> IsBlank(f.name)
    ensures Name in Validate(f) ==> Validate(f)[Name] == "Full name is required"
  {
    ValidateFields(f);
    BlankTest(f.name);
  }

  /** The email must not be blank and then must match the pattern; there is
      one message at most, the first rule it fails. */
  lemma ValidateEmail(f: FormData)
    ensures Email in Validate(f) <==> IsBlank(f.email) || !EmailPattern(f.email)
    ensures Email in Validate(f) ==>
      Validate(f)[Email] == if IsBlank(f.email) then "Email is required" else "Enter a valid email address"
  {
    ValidateFields(f);
    BlankTest(f.email);
  }

  /** The username must not be blank and then needs three characters,
      counted before trimming. */
  lemma ValidateUsername(f: FormData)
    ensures Username in Validate(f) <==> IsBlank(f.username) || |f.username| < 3
    ensures Username in Validate(f) ==>
      Validate(f)[Username] == if IsBlank(f.username) then "Username is required" else "Username must be at least 3 characters"
  {
    ValidateFields(f);
    BlankTest(f.username);
  }

  /** The password must not be empty and then needs six characters. */
  lemma ValidatePassword(f: FormData)
    ensures Password in Validate(f) <==> |f.password| < 6
    ensures Password in Validate(f) ==>
      Validate(f)[Password] == if f.password == [] then "Password is required" else "Password must be at least 6 characters"
  {
    ValidateFields(f);
  }

  /** The confirmation must not be empty and then must equal the password. */
  lemma ValidateConfirm(f: FormData)
    ensures ConfirmPassword in Validate(f) <==> f.confirmPassword == [] || f.password != f.confirmPassword
    ensures ConfirmPassword in Validate(f) ==>
      Validate(f)[ConfirmPassword] ==
        if f.confirmPassword == [] then "Please confirm your password" else "Passwords do not match"
  {
    ValidateFields(f);
  }

  /** The form is acceptable. */
  predicate Acceptable(f: FormData) {
    !IsBlank(f.name) && EmailPattern(f.email) && !IsBlank(f.username) && |f.username| >= 3 &&
    |f.password| >= 6 && f.confirmPassword == f.password
  }

  /** `validate` returns no errors exactly for an acceptable form. */
  lemma ValidateEmptyIffAcceptable(f: FormData)
    ensures Validate(f) == map[] <==> Acceptable(f)
  {
    ValidateName(f);
    ValidateEmail(f);
    ValidateUsername(f);
    ValidatePassword(f);
    ValidateConfirm(f);
    if EmailPattern(f.email) {
      EmailPatternShape(f.email);
    }
    if Acceptable(f) {
      forall field | field in Validate(f) ensures false {
        match field
        case Name =>
        case Email =>
        case Username =>
        case Password =>
        case ConfirmPassword =>
      }
    }
  }

  // ---------------------------------------------------------------------
  // The component
  // ---------------------------------------------------------------------

  /** The component's state: the role toggle, the fields and the displayed
      errors (a cleared error stays as an empty string). */
  class SignupForm {
    var selectedRole: string
    var formData: FormData
    var errors: map<Field, string>

    constructor ()
      ensures selectedRole == "student" && formData == EmptyForm && errors == map[]
    {
      selectedRole := "student";
      formData := EmptyForm;
      errors := map[];
    }

    /** The role radio buttons. */
    method SelectRole(role: string)
      modifies this`selectedRole
      ensures selectedRole == role
    {
      selectedRole := role;
    }

    /** `handleChange`: the edited field takes the new value, and its error,
        when one is displayed, becomes the empty string; nothing else
        changes. */
    method HandleChange(field: Field, value: string)
      modifies this`formData, this`errors
      ensures formData == old(formData).With(field, value)
      ensures field in old(errors) && old(errors)[field] != "" ==> errors == old(errors)[field := ""]
      ensures !(field in old(errors) && old(errors)[field] != "") ==> errors == old(errors)
      ensures forall g :: g != field ==> formData.Get(g) == old(formData).Get(g)
      ensures forall g :: g != field ==> (g in errors <==> g in old(errors)) && (g in errors ==> errors[g] == old(errors)[g])
    {
      formData := formData.With(field, value);
      if field in errors && errors[field] != "" {
        errors := errors[field := ""];
      }
    }

    /** `handleSignup`: with errors, they are displayed and nobody is logged
        in; without, `login` runs with the selected role and the page
        navigates to that role's dashboard. */
    method HandleSignup(app: AppState) returns (navigateTo: Option<string>)
      modifies this`errors, app`userRole, app`isAuthenticated, app`registeredCourses
      ensures !Acceptable(formData) ==>
        errors == Validate(formData) && navigateTo == None &&
        app.userRole == old(app.userRole) && app.isAuthenticated == old(app.isAuthenticated) &&
        app.registeredCourses == old(app.registeredCourses)
      ensures Acceptable(formData) ==>
        errors == old(errors) && app.userRole == Some(selectedRole) && app.isAuthenticated &&
        app.registeredCourses ==
          (if selectedRole == "student" && app.savedRegisteredCourses.Some? then app.savedRegisteredCourses.value
           else old(app.registeredCourses)) &&
        navigateTo == Some(if selectedRole == "admin" then "/admin/dashboard" else "/student/dashboard")
    {
      var validationErrors := Validate(formData);
      ValidateEmptyIffAcceptable(formData);
      if validationErrors != map[] {
        errors := validationErrors;
        return None;
      }
      app.Login(selectedRole);
      navigateTo := Some(if selectedRole == "admin" then "/admin/dashboard" else "/student/dashboard");
    }
  }
}
