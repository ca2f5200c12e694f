/**
 * The account serializers (users/serializers.py): login validation,
 * registration validation and creation, the gender check of the profile
 * update, and the profile representation. The user table is a map from id to
 * row; Django's `authenticate` is an oracle passed in as a function.
 */
module Accounts {
  import opened Wrappers
  import opened Text
  import opened Users
  import opened Sets

  type UserTable = map<int, User>

  /** `User.objects.filter(email=email)`. */
  function WithEmail(users: UserTable, email: string): set<int> {
    set id | id in users && users[id].email == email
  }

  /** `User.objects.filter(username=username)`. */
  function WithUsername(users: UserTable, username: string): set<int> {
    set id | id in users && users[id].username == username
  }

  /** A validation error attached to a form field. */
  datatype FieldError = FieldError(field: string, message: string)

  // ---------------------------------------------------------------------------
  // LoginSerializer.validate
  // ---------------------------------------------------------------------------

  /** The validated data of the login form; `user` is what validation adds. */
  datatype LoginAttrs = LoginAttrs(emailOrUsername: Option<string>, password: Option<string>, user: Option<User>)

  datatype LoginOutcome =
    | Validated(attrs: LoginAttrs)
    | Rejected(error: LoginError)
      /** `User.objects.get(...)` found more than one row and raised, uncaught. */
    | MultipleAccounts(lookup: string)

  /** The validation errors the login form raises. */
  datatype LoginError =
    | BothRequired
    | NoAccountWithEmail(email: string)
    | NoAccountWithUsername(username: string)
    | InvalidCredentials
    | InactiveAccount

  /** The message each error carries. */
  function LoginMessage(e: LoginError): string {
    match e
    case BothRequired => "Both email/username and password are required."
    case NoAccountWithEmail(email) => "No account found with email: " + email
    case NoAccountWithUsername(username) => "No account found with username: " + username
    case InvalidCredentials => "Invalid credentials. Please check your email/username and password."
    case InactiveAccount => "This account is inactive or has been disabled."
  }

  function GetOr(o: Option<string>, default: string): string {
    if o.Some? then o.value else default
  }

  /** `attrs.get('email_or_username', '').strip()`. */
  function LoginIdentifier(attrs: LoginAttrs): string {
    Strip(GetOr(attrs.emailOrUsername, ""))
  }

  /** `attrs.get('password', '').strip()`. */
  function LoginPassword(attrs: LoginAttrs): string {
    Strip(GetOr(attrs.password, ""))
  }

  /** A successful login carries an active account and keeps the other fields. */
  predicate SucceedsWithActive(r: LoginOutcome, attrs: LoginAttrs) {
    r.Validated? ==> r.attrs.user.Some? && r.attrs.user.value.isActive && r.attrs == attrs.(user := r.attrs.user)
  }

  /** The step after the lookup: ask the oracle, then check the account is active. */
  function AuthenticateStep(attrs: LoginAttrs, username: string, password: string,
                            authenticate: (string, string) -> Option<User>): (r: LoginOutcome)
    ensures r.Validated? <==> authenticate(username, password).Some? && authenticate(username, password).value.isActive
    ensures r.Validated? ==> r.attrs == attrs.(user := authenticate(username, password))
    ensures authenticate(username, password).None? ==> r == Rejected(InvalidCredentials)
    ensures SucceedsWithActive(r, attrs)
    ensures r != Rejected(BothRequired)
  {
    var user := authenticate(username, password);
    if user.None? then Rejected(InvalidCredentials)
    else if !user.value.isActive then Rejected(InactiveAccount)
    else Validated(attrs.(user := user))
  }

  /** Some element of a non-empty set. */
  ghost function Pick(s: set<int>): (x: int)
    requires s != {}
    ensures x in s
  {
    assert exists y :: y in s by {
      if forall y :: y !in s { assert false; }
    }
    var x :| x in s; x
  }

  /** Lookup by email: exactly one account must hold it; the oracle is asked
      with that account's username. */
  ghost function LoginByEmail(attrs: LoginAttrs, users: UserTable, email: string, password: string,
                              authenticate: (string, string) -> Option<User>): (r: LoginOutcome)
    ensures WithEmail(users, email) == {} ==> r == Rejected(NoAccountWithEmail(email))
    ensures |WithEmail(users, email)| > 1 ==> r == MultipleAccounts(email)
    ensures |WithEmail(users, email)| == 1
            ==> exists id :: WithEmail(users, email) == {id}
                  && r == AuthenticateStep(attrs, users[id].username, password, authenticate)
    ensures SucceedsWithActive(r, attrs)
    ensures r != Rejected(BothRequired)
  {
    var matches := WithEmail(users, email);
    if matches == {} then Rejected(NoAccountWithEmail(email))
    else if |matches| > 1 then MultipleAccounts(email)
    else
      var id := Pick(matches);
      SingletonOf(matches, id);
      AuthenticateStep(attrs, users[id].username, password, authenticate)
  }

  /** Lookup by username: the oracle is asked with the input itself. */
  function LoginByUsername(attrs: LoginAttrs, users: UserTable, username: string, password: string,
                           authenticate: (string, string) -> Option<User>): (r: LoginOutcome)
    ensures WithUsername(users, username) == {} ==> r == Rejected(NoAccountWithUsername(username))
    ensures |WithUsername(users, username)| > 1 ==> r == MultipleAccounts(username)
    ensures |WithUsername(users, username)| == 1 ==> r == AuthenticateStep(attrs, username, password, authenticate)
    ensures SucceedsWithActive(r, attrs)
    ensures r != Rejected(BothRequired)
  {
    var matches := WithUsername(users, username);
    if matches == {} then Rejected(NoAccountWithUsername(username))
    else if |matches| > 1 then MultipleAccounts(username)
    else AuthenticateStep(attrs, username, password, authenticate)
  }

  /** `LoginSerializer.validate`. */
  ghost function ValidateLogin(attrs: LoginAttrs, users: UserTable,
                               authenticate: (string, string) -> Option<User>): (r: LoginOutcome)
    // blank input is refused before any lookup, whatever the table and the oracle
    ensures LoginIdentifier(attrs) == [] || LoginPassword(attrs) == [] ==> r == Rejected(BothRequired)
    // an identifier with '@' is looked up by email, anything else by username
    ensures LoginIdentifier(attrs) != [] && LoginPassword(attrs) != [] && '@' in LoginIdentifier(attrs)
            ==> r == LoginByEmail(attrs, users, LoginIdentifier(attrs), LoginPassword(attrs), authenticate)
    ensures LoginIdentifier(attrs) != [] && LoginPassword(attrs) != [] && '@' !in LoginIdentifier(attrs)
            ==> r == LoginByUsername(attrs, users, LoginIdentifier(attrs), LoginPassword(attrs), authenticate)
    // success always carries an active account the oracle accepted, and keeps the other fields
    ensures r.Validated? ==> r.attrs.user.Some? && r.attrs.user.value.isActive
    ensures r.Validated? ==> r.attrs.emailOrUsername == attrs.emailOrUsername && r.attrs.password == attrs.password
  {
    var identifier := LoginIdentifier(attrs);
    var password := LoginPassword(attrs);
    if identifier == [] || password == [] then Rejected(BothRequired)
    else if '@' in identifier then LoginByEmail(attrs, users, identifier, password, authenticate)
    else LoginByUsername(attrs, users, identifier, password, authenticate)
  }

  lemma InactiveByEmail(attrs: LoginAttrs, users: UserTable, email: string, password: string,
                        authenticate: (string, string) -> Option<User>)
    requires LoginByEmail(attrs, users, email, password, authenticate) == Rejected(InactiveAccount)
    ensures exists name :: authenticate(name, password).Some? && !authenticate(name, password).value.isActive
  {
    var matches := WithEmail(users, email);
    assert matches != {} && |matches| <= 1;
    var id :| matches == {id}
              && Rejected(InactiveAccount) == AuthenticateStep(attrs, users[id].username, password, authenticate);
    assert authenticate(users[id].username, password).Some?;
  }

  lemma InactiveByUsername(attrs: LoginAttrs, users: UserTable, username: string, password: string,
                           authenticate: (string, string) -> Option<User>)
    requires LoginByUsername(attrs, users, username, password, authenticate) == Rejected(InactiveAccount)
    ensures exists name :: authenticate(name, password).Some? && !authenticate(name, password).value.isActive
  {
    var matches := WithUsername(users, username);
    assert matches != {} && |matches| <= 1;
    assert authenticate(username, password).Some?;
  }

  /** The inactive-account error is reported only for an account the oracle accepted. */
  lemma InactiveOnlyAfterAuthentication(attrs: LoginAttrs, users: UserTable,
                                        authenticate: (string, string) -> Option<User>)
    requires ValidateLogin(attrs, users, authenticate) == Rejected(InactiveAccount)
    ensures exists name :: authenticate(name, LoginPassword(attrs)).Some?
                           && !authenticate(name, LoginPassword(attrs)).value.isActive
  {
    var identifier := LoginIdentifier(attrs);
    var password := LoginPassword(attrs);
    if '@' in identifier {
      InactiveByEmail(attrs, users, identifier, password, authenticate);
    } else {
      InactiveByUsername(attrs, users, identifier, password, authenticate);
    }
  }

  // ---------------------------------------------------------------------------
  // LoginSerializer's field checks, which run before validate
  // ---------------------------------------------------------------------------

  /** The message of the `ProhibitNullCharactersValidator` every `CharField` carries. */
  const NullCharactersMessage := "Null characters are not allowed."

  /** A `CharField(required=True)` with the defaults `allow_blank=False` and
      `trim_whitespace=True`: a value not submitted gets the `required`
      message, one that is blank once stripped gets the `blank` message, one
      whose stripped text holds a NUL character is refused by the validator
      every `CharField` carries, and any other value is passed on stripped. */
  function CharFieldValue(raw: Option<string>, field: string, required: string, blank: string)
    : (r: Result<string, FieldError>)
    ensures raw.None? ==> r == Err(FieldError(field, required))
    ensures raw.Some? && AllSpace(raw.value) ==> r == Err(FieldError(field, blank))
    ensures raw.Some? && !AllSpace(raw.value) && '\0' in Strip(raw.value)
            ==> r == Err(FieldError(field, NullCharactersMessage))
    ensures r.Ok? <==> raw.Some? && !AllSpace(raw.value) && '\0' !in Strip(raw.value)
    ensures r.Ok? ==> r.value == Strip(raw.value) && r.value != [] && Strip(r.value) == r.value
  {
    if raw.None? then Err(FieldError(field, required))
    else if Strip(raw.value) == [] then Err(FieldError(field, blank))
    else if '\0' in Strip(raw.value) then Err(FieldError(field, NullCharactersMessage))
    else Ok(Strip(raw.value))
  }

  /** NUL is no whitespace, so a value that holds one anywhere is refused. */
  lemma NullCharacterRefused(raw: string, field: string, required: string, blank: string)
    requires '\0' in raw
    ensures CharFieldValue(Some(raw), field, required, blank).Err?
  {
    NonSpaceSurvivesStrip(raw, '\0');
  }

  function IdentifierField(raw: Option<string>): Result<string, FieldError> {
    CharFieldValue(raw, "email_or_username", "Please provide email or username.", "Email or username cannot be blank.")
  }

  function PasswordField(raw: Option<string>): Result<string, FieldError> {
    CharFieldValue(raw, "password", "Please provide password.", "Password cannot be blank.")
  }

  /** What `is_valid()` yields: the field errors, or the outcome of `validate`. */
  datatype LoginFormOutcome =
    | FieldsInvalid(errors: seq<FieldError>)
    | Checked(outcome: LoginOutcome)

  /** `LoginSerializer(data=...).is_valid()`: both field checks run and report
      their errors together, identifier first; only when both pass does
      `validate` run, on the stripped values. */
  ghost function ValidateLoginForm(identifier: Option<string>, password: Option<string>, users: UserTable,
                                   authenticate: (string, string) -> Option<User>): (r: LoginFormOutcome)
    ensures r.FieldsInvalid? <==> IdentifierField(identifier).Err? || PasswordField(password).Err?
    ensures r.FieldsInvalid? ==>
              r.errors == (if IdentifierField(identifier).Err? then [IdentifierField(identifier).error] else [])
                          + (if PasswordField(password).Err? then [PasswordField(password).error] else [])
    ensures r.Checked? ==>
              identifier.Some? && password.Some? &&
              r.outcome == ValidateLogin(LoginAttrs(Some(Strip(identifier.value)), Some(Strip(password.value)), None),
                                 users, authenticate)
  {
    var id := IdentifierField(identifier);
    var pw := PasswordField(password);
    if id.Err? || pw.Err? then
      FieldsInvalid((if id.Err? then [id.error] else []) + (if pw.Err? then [pw.error] else []))
    else
      assert identifier.Some? && id.value == Strip(identifier.value);
      assert password.Some? && pw.value == Strip(password.value);
      var attrs := LoginAttrs(Some(id.value), Some(pw.value), None);
      Checked(ValidateLogin(attrs, users, authenticate))
  }

  /** The messages a caller sees: a missing identifier is reported first, a
      blank password last. */
  lemma LoginFormMessages(identifier: Option<string>, password: Option<string>, users: UserTable,
                          authenticate: (string, string) -> Option<User>)
    ensures var r := ValidateLoginForm(identifier, password, users, authenticate);
            identifier.None? ==> r.FieldsInvalid? && r.errors[0] == FieldError("email_or_username", "Please provide email or username.")
    ensures var r := ValidateLoginForm(identifier, password, users, authenticate);
            password.Some? && AllSpace(password.value)
            ==> r.FieldsInvalid? && r.errors[|r.errors| - 1] == FieldError("password", "Password cannot be blank.")
  {
  }

  /** The blank check of `validate` can never fire: the field checks refuse a
      blank value first, and pass on only values that stay non-empty when
      `validate` strips them again. */
  lemma FieldChecksPreemptBothRequired(identifier: Option<string>, password: Option<string>, users: UserTable,
                                       authenticate: (string, string) -> Option<User>)
    ensures ValidateLoginForm(identifier, password, users, authenticate) != Checked(Rejected(BothRequired))
  {
    var r := ValidateLoginForm(identifier, password, users, authenticate);
    if r.Checked? {
      var id := IdentifierField(identifier);
      var pw := PasswordField(password);
      var attrs := LoginAttrs(Some(Strip(identifier.value)), Some(Strip(password.value)), None);
      assert LoginIdentifier(attrs) == Strip(id.value) == id.value != [];
      assert LoginPassword(attrs) == Strip(pw.value) == pw.value != [];
      var o := ValidateLogin(attrs, users, authenticate);
      assert r.outcome == o;
      if '@' in LoginIdentifier(attrs) {
        assert o == LoginByEmail(attrs, users, LoginIdentifier(attrs), LoginPassword(attrs), authenticate);
      } else {
        assert o == LoginByUsername(attrs, users, LoginIdentifier(attrs), LoginPassword(attrs), authenticate);
      }
      assert o != Rejected(BothRequired);
    }
  }

  // ---------------------------------------------------------------------------
  // RegisterSerializer
  // ---------------------------------------------------------------------------

  /** The validated data of the registration form, by field name. */
  type Attrs = map<string, string>

  predicate EmailInUse(users: UserTable, email: string) {
    WithEmail(users, email) != {}
  }

  /** `RegisterSerializer.validate`: three checks in a fixed order; the first
      that fails decides the error, and `confirm_password` is taken out. */
  function ValidateRegistration(attrs: Attrs, users: UserTable): (r: Result<Attrs, FieldError>)
    requires "password" in attrs && "confirm_password" in attrs && "user_type" in attrs && "email" in attrs
    ensures r.Ok? <==> attrs["password"] == attrs["confirm_password"]
                       && attrs["user_type"] in UserTypeChoices
                       && !EmailInUse(users, attrs["email"])
    ensures r.Ok? ==> r.value == attrs - {"confirm_password"} && "confirm_password" !in r.value
    ensures attrs["password"] != attrs["confirm_password"]
            ==> r == Err(FieldError("password", "Password fields didn't match."))
    ensures attrs["password"] == attrs["confirm_password"] && attrs["user_type"] !in UserTypeChoices
            ==> r == Err(FieldError("user_type", "Invalid user type selected."))
    ensures attrs["password"] == attrs["confirm_password"] && attrs["user_type"] in UserTypeChoices
            && EmailInUse(users, attrs["email"])
            ==> r == Err(FieldError("email", "User with this email already exists."))
  {
    var rest := attrs - {"confirm_password"};
    if attrs["password"] != attrs["confirm_password"] then
      Err(FieldError("password", "Password fields didn't match."))
    else if attrs["user_type"] !in UserTypeChoices then
      Err(FieldError("user_type", "Invalid user type selected."))
    else if EmailInUse(users, attrs["email"]) then
      Err(FieldError("email", "User with this email already exists."))
    else Ok(rest)
  }

  function GetText(data: Attrs, key: string): string {
    if key in data then data[key] else ""
  }

  /** The position of the last '@' in `s`, if there is one. */
  function LastAt(s: string): (r: Option<nat>)
    ensures r.None? <==> '@' !in s
    ensures r.Some? ==> r.value < |s| && s[r.value] == '@' && '@' !in s[r.value + 1..]
  {
    if s == [] then None
    else if s[|s| - 1] == '@' then Some(|s| - 1)
    else
      var r := LastAt(s[..|s| - 1]);
      assert s == s[..|s| - 1] + [s[|s| - 1]];
      if r.Some? then
        assert s[r.value + 1..] == s[..|s| - 1][r.value + 1..] + [s[|s| - 1]];
        r
      else r
  }

  /** An '@' with none after it is the last one. */
  lemma LastAtUnique(s: string, k: nat)
    requires k < |s| && s[k] == '@' && '@' !in s[k + 1..]
    ensures LastAt(s) == Some(k)
  {
    var m := LastAt(s).value;
    assert forall q :: k < q < |s| ==> s[q] != '@' by {
      forall q | k < q < |s| ensures s[q] != '@' {
        assert s[k + 1..][q - k - 1] == s[q];
      }
    }
    assert forall q :: m < q < |s| ==> s[q] != '@' by {
      forall q | m < q < |s| ensures s[q] != '@' {
        assert s[m + 1..][q - m - 1] == s[q];
      }
    }
    assert m == k;
  }

  /** ASCII lower-casing of every character. */
  function LowerAscii(s: string): (r: string)
    ensures |r| == |s| && forall i :: 0 <= i < |s| ==> r[i] == ToLower(s[i])
    ensures forall c :: c in r ==> c in s || 'a' <= c <= 'z'
  {
    seq(|s|, i requires 0 <= i < |s| => ToLower(s[i]))
  }

  /** The address `t` with the part after its last '@' (at `k`) lower-cased. */
  function LowerDomain(t: string, k: nat): (r: string)
    requires k < |t| && t[k] == '@' && '@' !in t[k + 1..]
    ensures |r| == |t| && r[..k] == t[..k] && r[k] == '@' && '@' !in r[k + 1..]
    ensures forall i :: k < i < |r| ==> r[i] == ToLower(t[i]) && !('A' <= r[i] <= 'Z')
  {
    var domain := LowerAscii(t[k + 1..]);
    var r := t[..k] + "@" + domain;
    assert r[..k] == t[..k] && r[k + 1..] == domain;
    forall i | k < i < |r| ensures r[i] == ToLower(t[i]) && !('A' <= r[i] <= 'Z') {
      assert r[i] == domain[i - k - 1] && t[k + 1..][i - k - 1] == t[i];
    }
    r
  }

  /** `BaseUserManager.normalize_email`: the text is stripped and split at its
      last '@'; the part after it is lower-cased and the part before it kept.
      Text without '@' is returned as it came. */
  function NormalizeEmail(email: string): (r: string)
    ensures '@' !in email ==> r == email
    ensures '@' in email ==> LastAt(Strip(email)).Some?
    ensures LastAt(Strip(email)).Some? ==> r == LowerDomain(Strip(email), LastAt(Strip(email)).value)
  {
    var t := Strip(email);
    NonSpaceSurvivesStrip(email, '@');
    match LastAt(t)
    case None => email
    case Some(k) => LowerDomain(t, k)
  }

  /** `RegisterSerializer.create` (`User.objects.create_user`): the email is
      stored normalised, the optional profile fields become "" when absent, and
      the new account is active and not staff. The password hash is not
      modelled. */
  function CreateRegisteredUser(data: Attrs, id: int): (u: User)
    requires "username" in data && "email" in data && "user_type" in data
    ensures u.id == id && u.username == data["username"] && u.email == NormalizeEmail(data["email"])
    ensures u.userType == data["user_type"]
    ensures "phone_number" !in data ==> u.phoneNumber == ""
    ensures "phone_number" in data ==> u.phoneNumber == data["phone_number"]
    ensures "about_me" !in data ==> u.aboutMe == ""
    ensures "about_me" in data ==> u.aboutMe == data["about_me"]
    ensures "gender" !in data ==> u.gender == ""
    ensures "gender" in data ==> u.gender == data["gender"]
    ensures u.isActive && !u.isStaff
  {
    User(id, data["username"], NormalizeEmail(data["email"]), "", "", data["user_type"],
         GetText(data, "phone_number"), GetText(data, "about_me"), GetText(data, "gender"),
         false, true)
  }

  /** Registration passes the gender explicitly, so an account registered
      without one stores "" rather than the model default "N". */
  lemma RegisteredGenderBypassesModelDefault(data: Attrs, id: int)
    requires "username" in data && "email" in data && "user_type" in data
    requires "gender" !in data
    ensures CreateRegisteredUser(data, id).gender != DefaultGender
  {
  }

  /** A registration that passed validation creates an account of a declared
      role; the email as submitted was on no account, and the stored email is
      on none either when normalising leaves the submitted one unchanged. */
  lemma {:induction false} RegisteredAccountIsFresh(attrs: Attrs, users: UserTable, id: int)
    requires "password" in attrs && "confirm_password" in attrs && "user_type" in attrs && "email" in attrs
    requires "username" in attrs
    requires ValidateRegistration(attrs, users).Ok?
    ensures var u := CreateRegisteredUser(ValidateRegistration(attrs, users).value, id);
            u.userType in UserTypeChoices && WithEmail(users, attrs["email"]) == {}
            && u.email == NormalizeEmail(attrs["email"])
            && (NormalizeEmail(attrs["email"]) == attrs["email"] ==> WithEmail(users, u.email) == {})
            && (IsCustomer(u) || IsRestaurantOwner(u) || IsWebsiteAdmin(u))
  {
    var v := ValidateRegistration(attrs, users).value;
    assert "email"[0] != "confirm_password"[0] && "user_type"[0] != "confirm_password"[0];
    assert v["email"] == attrs["email"] && v["user_type"] == attrs["user_type"];
    assert !EmailInUse(users, attrs["email"]);
    var u := CreateRegisteredUser(v, id);
    assert u.email == NormalizeEmail(attrs["email"]) && u.userType == attrs["user_type"];
    RoleIffDeclaredChoice(u);
  }

  /** An address already stripped keeps everything up to its last '@' and
      has the rest lower-cased. */
  lemma NormalizeSplitsAtLastAt(local: string, domain: string)
    requires '@' !in domain && Stripped(local + "@" + domain)
    ensures NormalizeEmail(local + "@" + domain) == local + "@" + LowerAscii(domain)
  {
    var e := local + "@" + domain;
    var k := |local|;
    assert e[k] == '@' && e[k + 1..] == domain && e[..k] == local;
    LastAtUnique(e, k);
  }

  /** "ann@EXAMPLE.com" normalises to "ann@example.com". */
  lemma CaseVariantNormalises()
    ensures NormalizeEmail("ann" + "@" + "EXAMPLE.com") == "ann" + "@" + "example.com"
  {
    NormalizeSplitsAtLastAt("ann", "EXAMPLE.com");
    LowerExample();
  }

  lemma LowerExample()
    ensures LowerAscii("EXAMPLE.com") == "example.com"
  {
    var r := LowerAscii("EXAMPLE.com");
    assert r[0] == 'e' && r[1] == 'x' && r[2] == 'a' && r[3] == 'm' && r[4] == 'p' && r[5] == 'l' && r[6] == 'e';
  }

  /** Two accounts with one email make every login with that email fail with
      `MultipleObjectsReturned`. */
  lemma SharedEmailBlocksLogin(attrs: LoginAttrs, users: UserTable, a: int, b: int, password: string,
                               authenticate: (string, string) -> Option<User>)
    requires a in users && b in users && a != b && users[a].email == users[b].email
    ensures LoginByEmail(attrs, users, users[a].email, password, authenticate) == MultipleAccounts(users[a].email)
  {
    var both := WithEmail(users, users[a].email);
    assert {a, b} <= both;
    SubsetCard({a, b}, both);
  }

  /** Adding an account whose email another account already has makes
      every login with that email ambiguous. */
  lemma AddedTwinBlocksLogin(users: UserTable, id: int, u: User, other: int, password: string,
                             authenticate: (string, string) -> Option<User>)
    requires id !in users && other in users && u.email == users[other].email
    ensures LoginByEmail(LoginAttrs(Some(users[other].email), Some(password), None), users[id := u],
                         users[other].email, password, authenticate)
            == MultipleAccounts(users[other].email)
  {
    var after := users[id := u];
    assert other in after && after[other] == users[other] && after[id] == u;
    SharedEmailBlocksLogin(LoginAttrs(Some(users[other].email), Some(password), None), after, other, id,
                           password, authenticate);
  }

  /** The uniqueness check compares the email as submitted, but the account
      stores it normalised: registering "ann@EXAMPLE.com" beside an account
      with "ann@example.com" passes and stores a second "ann@example.com". */
  lemma CaseVariantEmailRegistersTwice()
    ensures var users := map[1 := User(1, "ann", "ann" + "@" + "example.com", "", "", CUSTOMER, "", "", "", false, true)];
            var attrs := map["username" := "ann2", "email" := "ann" + "@" + "EXAMPLE.com", "password" := "pw",
                             "confirm_password" := "pw", "user_type" := CUSTOMER];
            ValidateRegistration(attrs, users).Ok?
            && CreateRegisteredUser(ValidateRegistration(attrs, users).value, 2).email == users[1].email
  {
    var stored, submitted := "ann" + "@" + "example.com", "ann" + "@" + "EXAMPLE.com";
    var users := map[1 := User(1, "ann", stored, "", "", CUSTOMER, "", "", "", false, true)];
    var attrs := map["username" := "ann2", "email" := submitted, "password" := "pw",
                     "confirm_password" := "pw", "user_type" := CUSTOMER];
    assert submitted != stored by {
      assert submitted[4] != stored[4];
    }
    assert WithEmail(users, submitted) == {};
    var v := ValidateRegistration(attrs, users).value;
    assert "username"[0] != "confirm_password"[0] && "email"[0] != "confirm_password"[0]
           && "user_type"[0] != "confirm_password"[0];
    assert "username" in v && "email" in v && "user_type" in v;
    assert v["email"] == submitted;
    CaseVariantNormalises();
  }

  /** A registration whose normalised email an account already has, as in
      `CaseVariantEmailRegistersTwice`, leaves that email unusable for login. */
  lemma NormalisedDuplicateBlocksLogin(attrs: Attrs, users: UserTable, id: int, other: int, password: string,
                                       authenticate: (string, string) -> Option<User>)
    requires "password" in attrs && "confirm_password" in attrs && "user_type" in attrs && "email" in attrs
    requires "username" in attrs
    requires ValidateRegistration(attrs, users).Ok?
    requires id !in users && other in users && users[other].email == NormalizeEmail(attrs["email"])
    ensures var after := users[id := CreateRegisteredUser(ValidateRegistration(attrs, users).value, id)];
            LoginByEmail(LoginAttrs(Some(users[other].email), Some(password), None), after,
                         users[other].email, password, authenticate)
            == MultipleAccounts(users[other].email)
  {
    var u := CreateRegisteredUser(ValidateRegistration(attrs, users).value, id);
    assert u.email == users[other].email by {
      RegisteredAccountIsFresh(attrs, users, id);
    }
    AddedTwinBlocksLogin(users, id, u, other, password, authenticate);
  }

  // ---------------------------------------------------------------------------
  // UserUpdateSerializer.validate_gender and UserSerializer.to_representation
  // ---------------------------------------------------------------------------

  /** `UserUpdateSerializer.validate_gender`: empty is allowed, anything else
      must be a declared choice. */
  function ValidateGender(value: string): (r: Result<string, string>)
    ensures r.Ok? <==> value == [] || value in GenderChoices
    ensures r.Ok? ==> r.value == value
    ensures r.Err? ==> r.error == "Invalid gender selected."
  {
    if value != [] && value !in GenderChoices then Err("Invalid gender selected.") else Ok(value)
  }

  datatype FieldValue = IntValue(i: int) | TextValue(s: string)

  /** `get_gender_display()`: the label of a declared code, the value itself otherwise. */
  function GenderDisplay(g: string): (r: string)
    ensures g in GenderChoices <==> r != g
    ensures g in GenderChoices ==> r !in GenderChoices && r != []
  {
    if g == "M" then "Male"
    else if g == "F" then "Female"
    else if g == "O" then "Other"
    else if g == "N" then "Prefer not to say"
    else g
  }

  const RepresentedFields: set<string> :=
    {"id", "username", "email", "first_name", "last_name", "user_type", "phone_number",
     "about_me", "gender", "gender_display"}

  /** `UserSerializer.to_representation`: `{}` for the anonymous user, the
      profile fields otherwise (the profile picture URL is not modelled). */
  function UserRepresentation(c: Caller): (r: map<string, FieldValue>)
    ensures r == map[] <==> !IsAuthenticated(c)
    ensures IsAuthenticated(c) ==> r.Keys == RepresentedFields
    ensures IsAuthenticated(c) ==> r["id"] == IntValue(c.user.id) && r["email"] == TextValue(c.user.email)
                                   && r["user_type"] == TextValue(c.user.userType)
                                   && r["gender_display"] == TextValue(GenderDisplay(c.user.gender))
  {
    match c
    case Anonymous => map[]
    case Authenticated(u) =>
      var fields := map["id" := IntValue(u.id), "username" := TextValue(u.username), "email" := TextValue(u.email),
          "first_name" := TextValue(u.firstName), "last_name" := TextValue(u.lastName),
          "user_type" := TextValue(u.userType), "phone_number" := TextValue(u.phoneNumber),
          "about_me" := TextValue(u.aboutMe), "gender" := TextValue(u.gender),
          "gender_display" := TextValue(GenderDisplay(u.gender))];
      assert "id" in fields;
      fields
  }
}
