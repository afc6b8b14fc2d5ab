/**
 * Accounts: registration, login, profile lookup and role changes over the
 * `users` table. Hashing (bcrypt), password comparison and token signing
 * (JWT) are parameters; generated user ids are given by the caller.
 */
module Accounts {
  import opened Types
  import opened Lists
  import opened Text

  datatype RegisterRequest = RegisterRequest(email: string, password: string, firstName: string, lastName: string)

  /** A user as it leaves the server: every field but the password hash. */
  datatype PublicUser = PublicUser(id: UserId, email: string, firstName: string, lastName: string, role: UserRole)

  datatype AuthOutcome = AuthOutcome(success: bool, message: string, user: Option<PublicUser>, token: Option<string>)

  datatype UserOutcome = UserOutcome(success: bool, message: string, user: Option<PublicUser>)

  const PasswordMinLength: nat := 8

  // ---------------------------------------------------------------- email shape

  /** A character `[^\s@]` accepts. */
  predicate PlainChar(c: char) {
    !IsWhitespace(c) && c != '@'
  }

  predicate Plain(s: string) {
    forall i :: 0 <= i < |s| ==> PlainChar(s[i])
  }

  /**
   * What `^[^\s@]+@[^\s@]+\.[^\s@]+$` matches, read position by position: an
   * `@` after a non-empty local part, a `.` inside the part after it with at
   * least one character on each side, and every other character neither white
   * space nor `@`.
   */
  ghost predicate MatchesEmailPattern(s: string) {
    exists at, dot ::
      && 0 < at && at + 1 < dot < |s| - 1
      && s[at] == '@' && s[dot] == '.'
      && Plain(s[..at]) && Plain(s[at + 1..])
  }

  predicate NoWhitespace(s: string) {
    forall i :: 0 <= i < |s| ==> !IsWhitespace(s[i])
  }

  /** The domain has a dot that is neither its first nor its last character. */
  predicate HasInteriorDot(domain: string) {
    |domain| >= 3 && '.' in domain[1..|domain| - 1]
  }

  /** The email check as a string test: exactly one `@`, a non-empty local part, no white space, an interior dot in the domain. */
  predicate IsValidEmail(s: string) {
    var parts := Split(s, '@');
    |parts| == 2 && parts[0] != [] && HasInteriorDot(parts[1]) && NoWhitespace(s)
  }

  lemma ValidEmailMatchesPattern(s: string)
    requires IsValidEmail(s)
    ensures MatchesEmailPattern(s)
  {
    var parts := Split(s, '@');
    var local, domain := parts[0], parts[1];
    assert parts[1..] == [domain];
    assert Join(parts[1..], "@") == domain;
    assert s == local + "@" + domain;
    var at := |local|;
    var inner := domain[1..|domain| - 1];
    var j :| 0 <= j < |inner| && inner[j] == '.';
    var dot := at + 2 + j;
    assert s[at] == '@' && s[dot] == '.';
    assert s[..at] == local && s[at + 1..] == domain;
    assert Plain(local) by {
      forall i | 0 <= i < |local| ensures PlainChar(local[i]) {
        assert local[i] == s[i];
      }
    }
    assert Plain(domain) by {
      forall i | 0 <= i < |domain| ensures PlainChar(domain[i]) {
        assert domain[i] == s[at + 1 + i];
      }
    }
  }

  /** A plain piece holds neither `@` nor white space. */
  lemma PlainPiece(t: string)
    requires Plain(t)
    ensures '@' !in t && NoWhitespace(t)
  {
    assert forall i :: 0 <= i < |t| ==> t[i] != '@' && !IsWhitespace(t[i]);
  }

  /** Two pieces free of white space around an `@` leave the whole free of it. */
  lemma NoWhitespaceAround(a: string, b: string)
    requires NoWhitespace(a) && NoWhitespace(b)
    ensures NoWhitespace(a + ['@'] + b)
  {
    var s := a + ['@'] + b;
    forall i | 0 <= i < |s| ensures !IsWhitespace(s[i]) {
      if i < |a| {
        assert s[i] == a[i];
      } else if i > |a| {
        assert s[i] == b[i - |a| - 1];
      }
    }
  }

  /** The matching string passes the string test, given where its `@` and its interior `.` are. */
  lemma PatternAtIsValidEmail(s: string, at: nat, dot: nat)
    requires 0 < at && at + 1 < dot < |s| - 1
    requires s[at] == '@' && s[dot] == '.'
    requires Plain(s[..at]) && Plain(s[at + 1..])
    ensures IsValidEmail(s)
  {
    var local, domain := s[..at], s[at + 1..];
    assert HasInteriorDot(domain) by {
      assert domain[dot - at - 1] == s[dot];
      assert domain[1..|domain| - 1][dot - at - 2] == '.';
    }
    assert s == local + ['@'] + domain;
    PlainPiece(local);
    PlainPiece(domain);
    NoWhitespaceAround(local, domain);
    assert Split(s, '@') == [local, domain] by {
      SplitAround(local, domain, '@');
      SplitNoSeparator(local, '@');
      SplitNoSeparator(domain, '@');
    }
  }

  lemma PatternIsValidEmail(s: string)
    requires MatchesEmailPattern(s)
    ensures IsValidEmail(s)
  {
    var at, dot :| && 0 < at && at + 1 < dot < |s| - 1
                   && s[at] == '@' && s[dot] == '.'
                   && Plain(s[..at]) && Plain(s[at + 1..]);
    PatternAtIsValidEmail(s, at, dot);
  }

  /** The string test accepts exactly what the regular expression matches. */
  lemma EmailCheckIsPattern(s: string)
    ensures IsValidEmail(s) <==> MatchesEmailPattern(s)
  {
    if IsValidEmail(s) {
      ValidEmailMatchesPattern(s);
    }
    if MatchesEmailPattern(s) {
      PatternIsValidEmail(s);
    }
  }

  // ---------------------------------------------------------------- the users table

  /** The UNIQUE constraints of `users` and what registration keeps: every stored email is lowercase. */
  predicate WellFormedUsers(users: seq<UserRecord>) {
    && (forall i, j :: 0 <= i < j < |users| ==> users[i].id != users[j].id && users[i].email != users[j].email)
    && (forall i :: 0 <= i < |users| ==> ToLower(users[i].email) == users[i].email)
  }

  predicate EmailTaken(users: seq<UserRecord>, email: string) {
    exists k :: 0 <= k < |users| && users[k].email == email
  }

  /** `findByEmail`: exact match, as SQL `=` compares. */
  function FindByEmail(users: seq<UserRecord>, email: string): (r: Option<UserRecord>)
    ensures r.None? <==> !EmailTaken(users, email)
    ensures r.Some? ==> r.value in users && r.value.email == email
  {
    var i := FirstIndex(users, (u: UserRecord) => u.email == email);
    if i < 0 then None else Some(users[i])
  }

  /** `findById`. */
  function FindUser(users: seq<UserRecord>, id: UserId): (r: Option<UserRecord>)
    ensures r.None? <==> forall k :: 0 <= k < |users| ==> users[k].id != id
    ensures r.Some? ==> r.value in users && r.value.id == id
  {
    var i := FirstIndex(users, (u: UserRecord) => u.id == id);
    if i < 0 then None else Some(users[i])
  }

  /** The destructuring `{ password: _, ...userWithoutPassword }`. */
  function Strip(u: UserRecord): (p: PublicUser)
    ensures p.id == u.id && p.email == u.email && p.firstName == u.firstName && p.lastName == u.lastName && p.role == u.role
  {
    PublicUser(u.id, u.email, u.firstName, u.lastName, u.role)
  }

  function Payload(u: UserRecord): JWTPayload {
    JWTPayload(u.id, u.email, u.role)
  }

  // ---------------------------------------------------------------- register

  /** The checks `register` makes before it looks at the table, in their order: the message of the first that fails. */
  function RequestError(req: RegisterRequest): (r: Option<string>)
    ensures r.None? <==>
      && req.email != [] && req.password != [] && req.firstName != [] && req.lastName != []
      && MatchesEmailPattern(req.email) && |req.password| >= PasswordMinLength
    ensures req.email == [] || req.password == [] || req.firstName == [] || req.lastName == [] ==>
      r == Some("All fields are required")
    ensures req.email != [] && req.password != [] && req.firstName != [] && req.lastName != [] && !MatchesEmailPattern(req.email) ==>
      r == Some("Invalid email format")
    ensures r.Some? && r != Some("All fields are required") && r != Some("Invalid email format") ==>
      MatchesEmailPattern(req.email) && |req.password| < PasswordMinLength && r == Some("Password must be at least 8 characters long")
  {
    EmailCheckIsPattern(req.email);
    if req.email == [] || req.password == [] || req.firstName == [] || req.lastName == [] then Some("All fields are required")
    else if !IsValidEmail(req.email) then Some("Invalid email format")
    else if |req.password| < PasswordMinLength then Some("Password must be at least 8 characters long")
    else None
  }

  /**
   * `register` as written: the duplicate lookup uses the email as typed, but
   * the row is inserted lowercased, so an address differing only in case from
   * a stored one passes the lookup and then breaks UNIQUE(email) on insert,
   * which the catch-all turns into "Internal server error".
   */
  function RegisterCheckAsWritten(users: seq<UserRecord>, req: RegisterRequest): (r: Option<string>)
    ensures r.None? ==> RequestError(req).None? && !EmailTaken(users, ToLower(req.email))
  {
    var err := RequestError(req);
    if err.Some? then err
    else if FindByEmail(users, req.email).Some? then Some("User with this email already exists")
    else if FindByEmail(users, ToLower(req.email)).Some? then Some("Internal server error")
    else None
  }

  /** `register` with the duplicate lookup on the lowercased email, the form in which it is stored. */
  function RegisterCheck(users: seq<UserRecord>, req: RegisterRequest): (r: Option<string>)
    ensures r.None? <==> RequestError(req).None? && !EmailTaken(users, ToLower(req.email))
    ensures RequestError(req).None? && EmailTaken(users, ToLower(req.email)) ==> r == Some("User with this email already exists")
    ensures r != Some("Internal server error")
  {
    var err := RequestError(req);
    if err.Some? then err
    else if FindByEmail(users, ToLower(req.email)).Some? then Some("User with this email already exists")
    else None
  }

  /**
   * For a well-formed request whose email is not all lowercase and whose
   * lowercased form is stored, the code as written answers with the server
   * error, where the corrected check answers that the user exists.
   */
  lemma CaseVariantDuplicate(users: seq<UserRecord>, req: RegisterRequest)
    requires WellFormedUsers(users)
    requires RequestError(req).None?
    requires ToLower(req.email) != req.email
    requires EmailTaken(users, ToLower(req.email))
    ensures RegisterCheckAsWritten(users, req) == Some("Internal server error")
    ensures RegisterCheck(users, req) == Some("User with this email already exists")
  {
    assert !EmailTaken(users, req.email) by {
      forall k | 0 <= k < |users| ensures users[k].email != req.email {
        assert ToLower(users[k].email) == users[k].email;
      }
    }
  }

  lemma ExampleEmailMatches()
    ensures MatchesEmailPattern("B@x.io")
  {
    var email := "B@x.io";
    assert Plain(email[..1]) && Plain(email[2..]);
    PatternAtIsValidEmail(email, 1, 3);
    EmailCheckIsPattern(email);
  }

  lemma ExampleLowercase()
    ensures ToLower("B@x.io") == "b@x.io" && ToLower("b@x.io") == "b@x.io"
  {
  }

  predicate IsExample(users: seq<UserRecord>, req: RegisterRequest) {
    && users == [UserRecord("u1", "b@x.io", "hash", "Bob", "Smith", User)]
    && req == RegisterRequest("B@x.io", "password1", "Bob", "Smith")
  }

  lemma ExampleRequestAccepted(users: seq<UserRecord>, req: RegisterRequest)
    requires IsExample(users, req)
    ensures RequestError(req).None?
  {
    ExampleEmailMatches();
  }

  lemma ExampleUsersWellFormed(users: seq<UserRecord>, req: RegisterRequest)
    requires IsExample(users, req)
    ensures WellFormedUsers(users)
  {
    ExampleLowercase();
  }

  lemma ExampleCaseVariantStored(users: seq<UserRecord>, req: RegisterRequest)
    requires IsExample(users, req)
    ensures ToLower(req.email) != req.email && EmailTaken(users, ToLower(req.email))
  {
    ExampleLowercase();
    assert users[0].email == ToLower(req.email);
  }

  /** The case occurs: with `b@x.io` stored, registering `B@x.io` gets the server error as written and the duplicate message once corrected. */
  lemma CaseVariantDuplicateExample(users: seq<UserRecord>, req: RegisterRequest)
    requires IsExample(users, req)
    ensures RegisterCheckAsWritten(users, req) == Some("Internal server error")
    ensures RegisterCheck(users, req) == Some("User with this email already exists")
  {
    ExampleRequestAccepted(users, req);
    ExampleUsersWellFormed(users, req);
    ExampleCaseVariantStored(users, req);
    CaseVariantDuplicate(users, req);
  }

  /** Both forms admit the same requests when every stored email is lowercase; they differ only in the message of a refusal. */
  lemma RegisterChecksAdmitAlike(users: seq<UserRecord>, req: RegisterRequest)
    requires WellFormedUsers(users)
    ensures RegisterCheckAsWritten(users, req).None? <==> RegisterCheck(users, req).None?
  {
    if RequestError(req).None? && EmailTaken(users, req.email) {
      var k :| 0 <= k < |users| && users[k].email == req.email;
      assert ToLower(req.email) == req.email;
      assert EmailTaken(users, ToLower(req.email));
    }
  }

  // ---------------------------------------------------------------- login, profile, listing

  /** `login`: both fields required; the lowercased email is looked up; an unknown email and a wrong password get the same answer. */
  function LoginOutcome(users: seq<UserRecord>, email: string, password: string,
                        compare: (string, string) -> bool, sign: JWTPayload -> string): (o: AuthOutcome)
    ensures email == [] || password == [] ==> o == AuthOutcome(false, "Email and password are required", None, None)
    ensures o.success <==>
      && email != [] && password != []
      && EmailTaken(users, ToLower(email))
      && compare(password, FindByEmail(users, ToLower(email)).value.password)
    ensures email != [] && password != [] && !o.success ==> o == AuthOutcome(false, "Invalid email or password", None, None)
    ensures o.success ==>
      var u := FindByEmail(users, ToLower(email)).value;
      o == AuthOutcome(true, "Login successful", Some(Strip(u)), Some(sign(Payload(u))))
  {
    if email == [] || password == [] then AuthOutcome(false, "Email and password are required", None, None)
    else
      var user := FindByEmail(users, ToLower(email));
      if user.None? then AuthOutcome(false, "Invalid email or password", None, None)
      else if !compare(password, user.value.password) then AuthOutcome(false, "Invalid email or password", None, None)
      else AuthOutcome(true, "Login successful", Some(Strip(user.value)), Some(sign(Payload(user.value))))
  }

  /** Logging in with the address and password just registered, in any letter case, finds the new account. */
  lemma LoginAfterRegister(users: seq<UserRecord>, rec: UserRecord, email: string, password: string,
                           hash: string -> string, compare: (string, string) -> bool, sign: JWTPayload -> string)
    requires !EmailTaken(users, rec.email)
    requires rec.email == ToLower(email) && rec.password == hash(password)
    requires email != [] && password != []
    requires compare(password, hash(password))
    ensures LoginOutcome(users + [rec], email, password, compare, sign) ==
            AuthOutcome(true, "Login successful", Some(Strip(rec)), Some(sign(Payload(rec))))
  {
    var all := users + [rec];
    assert all[|users|].email == ToLower(email);
    var found := FindByEmail(all, ToLower(email)).value;
    var k :| 0 <= k < |all| && all[k] == found;
    assert forall j :: 0 <= j < |users| ==> all[j].email != rec.email;
    assert k == |users|;
  }

  /** `getProfile`: the user without the password, or "User not found". */
  function ProfileOutcome(users: seq<UserRecord>, id: UserId): (o: UserOutcome)
    ensures o.success <==> exists k :: 0 <= k < |users| && users[k].id == id
    ensures !o.success ==> o == UserOutcome(false, "User not found", None)
    ensures o.success ==>
      && o.message == "Profile retrieved successfully"
      && o.user.Some? && o.user.value.id == id
      && exists k :: 0 <= k < |users| && o.user.value == Strip(users[k])
  {
    var user := FindUser(users, id);
    if user.None? then UserOutcome(false, "User not found", None)
    else UserOutcome(true, "Profile retrieved successfully", Some(Strip(user.value)))
  }

  /** `getAllUsers`: every user without the password, newest registered first. */
  function AllUsers(users: seq<UserRecord>): (r: seq<PublicUser>)
    ensures |r| == |users|
    ensures forall k :: 0 <= k < |r| ==> r[k] == Strip(users[|users| - 1 - k])
  {
    var newest := Reverse(users);
    seq(|newest|, k requires 0 <= k < |newest| => Strip(newest[k]))
  }

  /** Appending a user with a fresh id and an unused lowercase email keeps the table well formed. */
  lemma AppendKeepsWellFormed(users: seq<UserRecord>, rec: UserRecord)
    requires WellFormedUsers(users)
    requires forall k :: 0 <= k < |users| ==> users[k].id != rec.id
    requires !EmailTaken(users, rec.email)
    requires ToLower(rec.email) == rec.email
    ensures WellFormedUsers(users + [rec])
  {
    var t := users + [rec];
    forall i, j | 0 <= i < j < |t| ensures t[i].id != t[j].id && t[i].email != t[j].email {
      if j == |users| {
        assert t[i] == users[i];
      }
    }
  }

  // ---------------------------------------------------------------- the service

  class AuthService {
    var users: seq<UserRecord>

    ghost predicate Valid()
      reads this
    {
      WellFormedUsers(users)
    }

    constructor ()
      ensures Valid() && users == []
    {
      users := [];
    }

    /**
     * `register`: run the checks, then insert the user with the lowercased
     * email, the hashed password and the role `user`, and answer with the
     * user without the password and a token for it. `newId` is the id the
     * database generates.
     */
    method Register(req: RegisterRequest, newId: UserId, hash: string -> string, sign: JWTPayload -> string)
      returns (o: AuthOutcome)
      requires Valid()
      requires forall k :: 0 <= k < |users| ==> users[k].id != newId
      modifies this
      ensures Valid()
      ensures RegisterCheck(old(users), req).Some? ==>
        o == AuthOutcome(false, RegisterCheck(old(users), req).value, None, None) && unchanged(this)
      ensures RegisterCheck(old(users), req).None? ==>
        var rec := UserRecord(newId, ToLower(req.email), hash(req.password), req.firstName, req.lastName, User);
        && users == old(users) + [rec]
        && o == AuthOutcome(true, "User registered successfully", Some(Strip(rec)), Some(sign(Payload(rec))))
    {
      var error := RegisterCheck(users, req);
      if error.Some? {
        return AuthOutcome(false, error.value, None, None);
      }
      var email := ToLower(req.email);
      ToLowerIdempotent(req.email);
      var rec := UserRecord(newId, email, hash(req.password), req.firstName, req.lastName, User);
      AppendKeepsWellFormed(users, rec);
      users := users + [rec];
      o := AuthOutcome(true, "User registered successfully", Some(Strip(rec)), Some(sign(Payload(rec))));
    }

    /** `updateUserRole`: set the role of the user with that id, or answer "User not found". */
    method UpdateUserRole(id: UserId, newRole: UserRole) returns (o: UserOutcome)
      requires Valid()
      modifies this
      ensures Valid()
      ensures FindUser(old(users), id).None? ==> o == UserOutcome(false, "User not found", None) && unchanged(this)
      ensures forall i :: 0 <= i < |old(users)| && old(users)[i].id == id ==>
        && users == old(users)[i := old(users)[i].(role := newRole)]
        && o == UserOutcome(true, "User role updated successfully", Some(Strip(users[i])))
    {
      var i := FirstIndex(users, (u: UserRecord) => u.id == id);
      if i < 0 {
        return UserOutcome(false, "User not found", None);
      }
      var updated := users[i].(role := newRole);
      users := users[i := updated];
      o := UserOutcome(true, "User role updated successfully", Some(Strip(updated)));
    }
  }

  /** After a role change the profile reports the new role. */
  lemma ProfileAfterRoleUpdate(users: seq<UserRecord>, i: nat, newRole: UserRole)
    requires WellFormedUsers(users)
    requires i < |users|
    ensures var after := users[i := users[i].(role := newRole)];
            var o := ProfileOutcome(after, users[i].id);
            o.success && o.user.value.role == newRole
  {
    var after := users[i := users[i].(role := newRole)];
    var o := ProfileOutcome(after, users[i].id);
    assert after[i].id == users[i].id;
    var k :| 0 <= k < |after| && o.user.value == Strip(after[k]);
    assert forall j :: 0 <= j < |after| && j != i ==> after[j].id == users[j].id != users[i].id;
    assert k == i;
  }
}
