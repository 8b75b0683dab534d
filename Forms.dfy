/** The form rules of `app/forms.py`. Each field runs its validator chain as
    WTForms does: `DataRequired` on a blank value stops the chain, every
    other failing validator (including the inline `validate_<field>`
    methods) adds one error and the chain goes on. A form is accepted when
    no field has an error. Messages are not modelled, only which rule failed. */
module Forms {
  import opened Wrappers
  import opened Catalog
  import opened Ordering

  /** The rule that a field breaks. */
  datatype FieldError =
    | Required    // DataRequired
    | BadLength   // Length
    | BadEmail    // Email (decided by an external library)
    | Taken       // an existing user already holds the value
    | TooShort    // validate_password: fewer than 8 characters
    | NoLetter    // validate_password: no letter
    | NoDigit     // validate_password: no digit
    | Mismatch    // EqualTo('password')
    | OutOfRange  // NumberRange(min=0), or no number at all

  // ---------------------------------------------------------------------
  // Character classes

  /** `str.isspace`. */
  predicate IsSpace(c: char) {
    || c == ' ' || c == '\t' || c == '\n' || c == '\r' || c == '\U{000B}' || c == '\U{000C}'
    || ('\U{001C}' <= c <= '\U{001F}') || c == '\U{0085}' || c == '\U{00A0}' || c == '\U{1680}'
    || ('\U{2000}' <= c <= '\U{200A}') || c == '\U{2028}' || c == '\U{2029}' || c == '\U{202F}'
    || c == '\U{205F}' || c == '\U{3000}'
  }

  /** `str.isalpha`, on ASCII letters. */
  predicate IsLetter(c: char) {
    'a' <= c <= 'z' || 'A' <= c <= 'Z'
  }

  /** `str.isdigit`, on ASCII digits. */
  predicate IsDigit(c: char) {
    '0' <= c <= '9'
  }

  /** `any(c.isalpha() for c in s)`. */
  function HasLetter(s: string): (r: bool)
    ensures r <==> exists i :: 0 <= i < |s| && IsLetter(s[i])
  {
    if s == [] then false
    else if IsLetter(s[0]) then true
    else
      assert forall i :: 0 < i < |s| ==> s[i] == s[1..][i - 1];
      HasLetter(s[1..])
  }

  /** `any(c.isdigit() for c in s)`. */
  function HasDigit(s: string): (r: bool)
    ensures r <==> exists i :: 0 <= i < |s| && IsDigit(s[i])
  {
    if s == [] then false
    else if IsDigit(s[0]) then true
    else
      assert forall i :: 0 < i < |s| ==> s[i] == s[1..][i - 1];
      HasDigit(s[1..])
  }

  /** `DataRequired` fails: the value is empty or only whitespace. */
  predicate Blank(s: string) {
    forall i :: 0 <= i < |s| ==> IsSpace(s[i])
  }

  // ---------------------------------------------------------------------
  // Single validators

  /** `Length(min, max)`; `max == None` stands for no upper bound. */
  function LengthErrors(s: string, min: nat, max: Option<nat>): (r: seq<FieldError>)
    ensures r == [] <==> min <= |s| && (max.Some? ==> |s| <= max.value)
    ensures r == [] || r == [BadLength]
  {
    if |s| < min || (max.Some? && |s| > max.value) then [BadLength] else []
  }

  /** `validate_password`: the length check first, then the letter check,
      then the digit check; the first one that fails raises. */
  function PasswordStrength(pwd: string): (r: Option<FieldError>)
    ensures r == None <==>
      |pwd| >= 8 && (exists i :: 0 <= i < |pwd| && IsLetter(pwd[i])) && (exists i :: 0 <= i < |pwd| && IsDigit(pwd[i]))
    ensures r == Some(TooShort) <==> |pwd| < 8
    ensures r == Some(NoLetter) <==> |pwd| >= 8 && forall i :: 0 <= i < |pwd| ==> !IsLetter(pwd[i])
    ensures r == Some(NoDigit) <==>
      |pwd| >= 8 && (exists i :: 0 <= i < |pwd| && IsLetter(pwd[i])) && forall i :: 0 <= i < |pwd| ==> !IsDigit(pwd[i])
  {
    if |pwd| < 8 then Some(TooShort)
    else if !HasLetter(pwd) then Some(NoLetter)
    else if !HasDigit(pwd) then Some(NoDigit)
    else None
  }

  // ---------------------------------------------------------------------
  // RegistrationForm

  datatype Registration = Registration(
    username: string, email: string, password: string, password2: string, agreeTerms: bool)

  /** The errors of each field of a registration form. */
  datatype RegistrationErrors = RegistrationErrors(
    username: seq<FieldError>, email: seq<FieldError>, password: seq<FieldError>,
    password2: seq<FieldError>, agreeTerms: seq<FieldError>)

  /** `DataRequired`, `Length(3, 20)`, then `validate_username`. */
  function UsernameErrors(users: seq<User>, username: string): seq<FieldError> {
    if Blank(username) then [Required]
    else LengthErrors(username, 3, Some(20)) + (if HasUsername(users, username) then [Taken] else [])
  }

  /** `DataRequired`, `Email()`, then `validate_email`; `wellFormed` is the
      verdict of the email syntax library. */
  function EmailErrors(users: seq<User>, email: string, wellFormed: bool): seq<FieldError> {
    if Blank(email) then [Required]
    else (if wellFormed then [] else [BadEmail]) + (if HasEmail(users, email) then [Taken] else [])
  }

  /** `DataRequired`, `Length(min=8)`, then `validate_password`. */
  function PasswordErrors(password: string): seq<FieldError> {
    if Blank(password) then [Required]
    else
      LengthErrors(password, 8, None) +
      (match PasswordStrength(password) case Some(e) => [e] case None => [])
  }

  /** `DataRequired`, then `EqualTo('password')`. */
  function ConfirmErrors(password: string, password2: string): seq<FieldError> {
    if Blank(password2) then [Required]
    else if password2 != password then [Mismatch]
    else []
  }

  /** `DataRequired` on the terms checkbox. */
  function AgreeErrors(agreeTerms: bool): seq<FieldError> {
    if agreeTerms then [] else [Required]
  }

  function ValidateRegistration(users: seq<User>, form: Registration, emailWellFormed: bool): RegistrationErrors {
    RegistrationErrors(
      UsernameErrors(users, form.username),
      EmailErrors(users, form.email, emailWellFormed),
      PasswordErrors(form.password),
      ConfirmErrors(form.password, form.password2),
      AgreeErrors(form.agreeTerms))
  }

  /** `form.validate()` is true. */
  predicate Accepted(errors: RegistrationErrors) {
    errors.username == [] && errors.email == [] && errors.password == [] &&
    errors.password2 == [] && errors.agreeTerms == []
  }

  /** A password with a letter in it is never blank. */
  lemma LetterIsNotBlank(s: string)
    requires exists i :: 0 <= i < |s| && IsLetter(s[i])
    ensures !Blank(s)
  {
    var i :| 0 <= i < |s| && IsLetter(s[i]);
    assert !IsSpace(s[i]);
  }

  /** Exactly which registrations are accepted: a non-blank username of 3
      to 20 characters that no user holds, a non-blank well-formed email
      that no user holds, a strong password, the same password again, and
      the terms accepted. */
  lemma RegistrationAccepted(users: seq<User>, form: Registration, emailWellFormed: bool)
    ensures Accepted(ValidateRegistration(users, form, emailWellFormed)) <==>
      && !Blank(form.username) && 3 <= |form.username| <= 20 && !HasUsername(users, form.username)
      && !Blank(form.email) && emailWellFormed && !HasEmail(users, form.email)
      && PasswordStrength(form.password) == None
      && form.password2 == form.password
      && form.agreeTerms
  {
    if PasswordStrength(form.password) == None {
      LetterIsNotBlank(form.password);
    }
  }

  /** Registration reports a username or an email that a stored user holds. */
  lemma RegistrationRejectsTaken(users: seq<User>, form: Registration, emailWellFormed: bool)
    ensures !Blank(form.username) && HasUsername(users, form.username) ==>
      Taken in ValidateRegistration(users, form, emailWellFormed).username
    ensures !Blank(form.email) && HasEmail(users, form.email) ==>
      Taken in ValidateRegistration(users, form, emailWellFormed).email
  {
    var errors := ValidateRegistration(users, form, emailWellFormed);
    if !Blank(form.username) && HasUsername(users, form.username) {
      assert errors.username[|errors.username| - 1] == Taken;
    }
    if !Blank(form.email) && HasEmail(users, form.email) {
      assert errors.email[|errors.email| - 1] == Taken;
    }
  }

  /** "12345678" has no letter. */
  lemma DigitsOnlyPassword()
    ensures PasswordErrors("12345678") == [NoLetter]
  {
    assert !IsSpace("12345678"[0]);
    assert !HasLetter("12345678");
  }

  /** "short" is too short for both the `Length` rule and `validate_password`. */
  lemma ShortPassword()
    ensures PasswordErrors("short") == [BadLength, TooShort]
  {
    assert !IsSpace("short"[0]);
  }

  /** The accepted example: "password123" typed twice, a fresh username and
      email, the terms accepted. */
  lemma ExampleRegistration(users: seq<User>)
    requires !HasUsername(users, "testuser") && !HasEmail(users, "test@example.com")
    ensures Accepted(ValidateRegistration(users,
      Registration("testuser", "test@example.com", "password123", "password123", true), true))
  {
    var p := "password123";
    assert IsLetter(p[0]) && IsDigit(p[8]);
    RegistrationAccepted(users, Registration("testuser", "test@example.com", p, p, true), true);
    assert !IsSpace("testuser"[0]) && !IsSpace("test@example.com"[0]);
  }

  /** "password456" does not confirm "password123". */
  lemma MismatchedConfirmation()
    ensures ConfirmErrors("password123", "password456") == [Mismatch]
  {
    assert !IsSpace("password456"[0]);
    assert "password456"[10] != "password123"[10];
  }

  // ---------------------------------------------------------------------
  // ProfileEditForm

  /** `DataRequired`, `Length(3, 20)`, then the uniqueness check, which is
      skipped when the value equals the user's `original` username. */
  function ProfileUsernameErrors(users: seq<User>, original: string, username: string): seq<FieldError> {
    if Blank(username) then [Required]
    else
      LengthErrors(username, 3, Some(20)) +
      (if username != original && HasUsername(users, username) then [Taken] else [])
  }

  /** `DataRequired`, `Email()`, then the uniqueness check, which is skipped
      when the value equals the user's `original` email. */
  function ProfileEmailErrors(users: seq<User>, original: string, email: string, wellFormed: bool): seq<FieldError> {
    if Blank(email) then [Required]
    else
      (if wellFormed then [] else [BadEmail]) +
      (if email != original && HasEmail(users, email) then [Taken] else [])
  }

  /** In a store with unique usernames, editing the profile of user `me`
      reports the username as taken iff ANOTHER user holds it; keeping
      one's own username is always allowed. */
  lemma ProfileUsernameRule(users: seq<User>, me: nat, username: string)
    requires WellFormedUsers(users) && me < |users| && !Blank(username)
    ensures username == users[me].username ==> Taken !in ProfileUsernameErrors(users, users[me].username, username)
    ensures Taken in ProfileUsernameErrors(users, users[me].username, username) <==>
      exists i :: 0 <= i < |users| && i != me && users[i].username == username
  {
    var errors := ProfileUsernameErrors(users, users[me].username, username);
    if username == users[me].username {
      assert errors == LengthErrors(username, 3, Some(20));
      forall i | 0 <= i < |users| && i != me ensures users[i].username != username {
        if i < me { assert users[i].username != users[me].username; }
        else { assert users[me].username != users[i].username; }
      }
    } else if HasUsername(users, username) {
      var i :| 0 <= i < |users| && users[i].username == username;
      assert i != me;
      assert errors[|errors| - 1] == Taken;
    } else {
      assert errors == LengthErrors(username, 3, Some(20));
    }
  }

  /** The email rule of the profile form, as for the username. */
  lemma ProfileEmailRule(users: seq<User>, me: nat, email: string, wellFormed: bool)
    requires WellFormedUsers(users) && me < |users| && !Blank(email)
    ensures email == users[me].email ==> Taken !in ProfileEmailErrors(users, users[me].email, email, wellFormed)
    ensures Taken in ProfileEmailErrors(users, users[me].email, email, wellFormed) <==>
      exists i :: 0 <= i < |users| && i != me && users[i].email == email
  {
    var errors := ProfileEmailErrors(users, users[me].email, email, wellFormed);
    var syntax: seq<FieldError> := if wellFormed then [] else [BadEmail];
    if email == users[me].email {
      assert errors == syntax;
      forall i | 0 <= i < |users| && i != me ensures users[i].email != email {
        if i < me { assert users[i].email != users[me].email; }
        else { assert users[me].email != users[i].email; }
      }
    } else if HasEmail(users, email) {
      var i :| 0 <= i < |users| && users[i].email == email;
      assert i != me;
      assert errors[|errors| - 1] == Taken;
    } else {
      assert errors == syntax;
    }
  }

  // ---------------------------------------------------------------------
  // SearchForm

  datatype Scope = AllScope | CropsScope | MealsScope

  /** A validated search request. */
  datatype SearchQuery = SearchQuery(keyword: string, scope: Scope, order: Order)

  /** The `search_type` choices. */
  function ScopeChoice(value: string): Option<Scope> {
    if value == "all" then Some(AllScope)
    else if value == "crops" then Some(CropsScope)
    else if value == "meals" then Some(MealsScope)
    else None
  }

  /** The `sort_by` choices. */
  function SortChoice(value: string): Option<Order> {
    if value == "name" then Some(ByName)
    else if value == "hunger" then Some(ByHunger)
    else if value == "likes" then Some(ByLikes)
    else None
  }

  /** The search form's `validate()`: a field missing from the request takes
      its default (`all`, `name`); the keyword must not be blank and both
      choices must be among the offered ones. */
  function ValidateSearch(keyword: string, searchType: Option<string>, sortBy: Option<string>): Option<SearchQuery> {
    var scope := ScopeChoice(searchType.GetOr("all"));
    var order := SortChoice(sortBy.GetOr("name"));
    if Blank(keyword) || scope.None? || order.None? then None
    else Some(SearchQuery(keyword, scope.value, order.value))
  }

  /** Which search requests validate, and what the defaults are. */
  lemma SearchFormRule(keyword: string, searchType: Option<string>, sortBy: Option<string>)
    ensures ValidateSearch(keyword, searchType, sortBy).Some? <==>
      && !Blank(keyword)
      && searchType.GetOr("all") in {"all", "crops", "meals"}
      && sortBy.GetOr("name") in {"name", "hunger", "likes"}
    ensures !Blank(keyword) ==> ValidateSearch(keyword, None, None) == Some(SearchQuery(keyword, AllScope, ByName))
  {
  }

  /** A keyword of two CJK characters with scope `all` and sort `name` is a
      valid search. */
  lemma ExampleSearch()
    ensures ValidateSearch("\U{6D4B}\U{8BD5}", Some("all"), Some("name")) ==
      Some(SearchQuery("\U{6D4B}\U{8BD5}", AllScope, ByName))
  {
    assert !IsSpace("\U{6D4B}\U{8BD5}"[0]);
  }

  // ---------------------------------------------------------------------
  // CropForm and MealForm

  /** The crop form, and the rules the meal form shares with it:
      `DataRequired` and `Length(max=100)` on the name, `NumberRange(min=0)`
      on the hunger field (a value that did not parse as an integer is
      `None`). */
  datatype ItemErrors = ItemErrors(name: seq<FieldError>, hunger: seq<FieldError>)

  function ValidateItem(name: string, hunger: Option<int>): ItemErrors {
    ItemErrors(
      if Blank(name) then [Required] else LengthErrors(name, 0, Some(100)),
      if hunger.None? || hunger.value < 0 then [OutOfRange] else [])
  }

  /** An accepted crop form has a non-blank name of at most 100 characters
      and a hunger value that is a natural number. */
  lemma ItemAccepted(name: string, hunger: Option<int>)
    ensures ValidateItem(name, hunger) == ItemErrors([], []) <==>
      !Blank(name) && |name| <= 100 && hunger.Some? && hunger.value >= 0
  {
  }

  /** The meal form adds `NumberRange(min=0.0)` on the saturation field,
      a decimal value that is `None` when it is missing or did not parse. */
  datatype MealErrors = MealErrors(shared: ItemErrors, saturation: seq<FieldError>)

  function ValidateMeal(name: string, hunger: Option<int>, saturation: Option<real>): MealErrors {
    MealErrors(
      ValidateItem(name, hunger),
      if saturation.None? || saturation.value < 0.0 then [OutOfRange] else [])
  }

  /** An accepted meal form is an accepted crop form plus a saturation
      value of at least zero. */
  lemma MealAccepted(name: string, hunger: Option<int>, saturation: Option<real>)
    ensures ValidateMeal(name, hunger, saturation) == MealErrors(ItemErrors([], []), []) <==>
      !Blank(name) && |name| <= 100 && hunger.Some? && hunger.value >= 0 &&
      saturation.Some? && saturation.value >= 0.0
  {
    ItemAccepted(name, hunger);
  }
}
