/**
 * The authentication context: the current user, the `loading` flag, the two
 * storage slots that keep a signed-in user across reloads (the user snapshot
 * and the session token) and the user directory, with one method per
 * operation. Each operation runs as one step: the simulated network delays
 * are not modelled. The clock (`now`, milliseconds since the epoch) and the
 * random part of generated ids (`suffix`) are parameters.
 */
module AuthContext {
  import opened Wrappers
  import opened Text
  import opened Validation
  import opened Directory

  /** The record a session token encodes: whose session it is and when it lapses. */
  datatype SessionToken = SessionToken(userId: string, expires: int)

  /** Seven days, in milliseconds. */
  const SessionTtlMs: nat := 7 * 24 * 60 * 60 * 1000

  /** The failures the operations report; `Message` gives the exact text shown to the user. */
  datatype AuthError =
    | EmailRequired
    | InvalidEmail
    | NameRequired
    | NameEmpty
    | NameTooShort
    | WeakPassword(message: string)
    | EmailExists
    | PasswordRequired
    | NoAccount
    | InvalidPassword
    | NotAuthenticated

  function Message(e: AuthError): string {
    match e
    case EmailRequired => "Email is required"
    case InvalidEmail => "Please enter a valid email address"
    case NameRequired => "Name is required"
    case NameEmpty => "Name cannot be empty"
    case NameTooShort => "Name must be at least 2 characters long"
    case WeakPassword(m) => m
    case EmailExists => "An account with this email already exists"
    case PasswordRequired => "Password is required"
    case NoAccount => "No account found with this email address"
    case InvalidPassword => "Invalid password"
    case NotAuthenticated => "Not authenticated"
  }

  datatype Outcome = Done | Failed(error: AuthError)

  /** `email.trim().toLowerCase()`. */
  function NormalizeEmail(email: string): (r: string)
    ensures |r| == |Trim(email)|
    ensures forall k :: 0 <= k < |r| ==> !('A' <= r[k] <= 'Z')
  {
    ToLower(Trim(email))
  }

  /** Normalizing an already normalized address changes nothing. */
  lemma NormalizeEmailIdempotent(email: string)
    ensures NormalizeEmail(NormalizeEmail(email)) == NormalizeEmail(email)
  {
    var n := NormalizeEmail(email);
    TrimToLowerTrim(email);
    assert Trim(n) == n;
    assert ToLower(n) == n;
  }

  /** The shortest name accepted after trimming. */
  const MinNameLength: nat := 2

  // ---------------------------------------------------------------------------
  // The checks each operation makes before touching any state
  // ---------------------------------------------------------------------------

  /**
   * `signUp`'s checks in their order: e-mail present, e-mail valid, name
   * present, name long enough, password rules (first failed rule reported),
   * e-mail not yet registered.
   */
  function SignUpError(email: string, password: string, name: string, users: seq<User>): (r: Option<AuthError>)
    ensures r.None? ==> ValidatePassword(password).isValid && |Trim(name)| >= MinNameLength
    ensures r.None? ==> Find(users, ByEmail, NormalizeEmail(email)).None?
  {
    var e := NormalizeEmail(email);
    var n := Trim(name);
    if e == [] then Some(EmailRequired)
    else if !IsValidEmail(e) then Some(InvalidEmail)
    else if n == [] then Some(NameRequired)
    else if |n| < MinNameLength then Some(NameTooShort)
    else if !ValidatePassword(password).isValid then Some(WeakPassword(ValidatePassword(password).errors[0]))
    else if Find(users, ByEmail, e).Some? then Some(EmailExists)
    else None
  }

  /**
   * `signIn`'s checks in their order: e-mail present, e-mail valid, password
   * present, account exists, and only then the password length.
   */
  function SignInError(email: string, password: string, users: seq<User>): (r: Option<AuthError>)
    ensures r.None? ==> |password| >= MinPasswordLength && Find(users, ByEmail, NormalizeEmail(email)).Some?
  {
    var e := NormalizeEmail(email);
    if e == [] then Some(EmailRequired)
    else if !IsValidEmail(e) then Some(InvalidEmail)
    else if password == [] then Some(PasswordRequired)
    else if Find(users, ByEmail, e).None? then Some(NoAccount)
    else if |password| < MinPasswordLength then Some(InvalidPassword)
    else None
  }

  /** `resetPassword`'s checks: e-mail present, e-mail valid, account exists. */
  function ResetError(email: string, users: seq<User>): (r: Option<AuthError>)
    ensures r.None? <==> IsValidEmail(NormalizeEmail(email)) && Find(users, ByEmail, NormalizeEmail(email)).Some?
  {
    var e := NormalizeEmail(email);
    if e == [] then Some(EmailRequired)
    else if !IsValidEmail(e) then Some(InvalidEmail)
    else if Find(users, ByEmail, e).None? then Some(NoAccount)
    else None
  }

  /** `updateProfile`'s check of a supplied name. */
  function ProfileNameError(name: string): (r: Option<AuthError>)
    ensures r == Some(NameEmpty) <==> AllWhitespace(name)
    ensures r == Some(NameTooShort) <==> |Trim(name)| == 1
    ensures r.None? <==> |Trim(name)| >= MinNameLength
  {
    TrimEmptyIff(name);
    var n := Trim(name);
    if n == [] then Some(NameEmpty)
    else if |n| < MinNameLength then Some(NameTooShort)
    else None
  }

  /**
   * Which check a sign-up fails, stated on the input as typed: the first
   * failing one in the order e-mail present, e-mail valid, name present,
   * name long enough, password rules, address not registered.
   */
  lemma SignUpChecksInOrder(email: string, password: string, name: string, users: seq<User>)
    ensures var r := SignUpError(email, password, name, users);
      && (r == Some(EmailRequired) <==> Trim(email) == [])
      && (r == Some(InvalidEmail) <==> Trim(email) != [] && !IsValidEmail(email))
      && (r == Some(NameRequired) <==> IsValidEmail(email) && Trim(name) == [])
      && (r == Some(NameTooShort) <==> IsValidEmail(email) && 0 < |Trim(name)| < MinNameLength)
    ensures var r := SignUpError(email, password, name, users);
      var fieldsOk := IsValidEmail(email) && |Trim(name)| >= MinNameLength;
      && (r.Some? && r.value.WeakPassword? <==> fieldsOk && !ValidatePassword(password).isValid)
      && (r.Some? && r.value.WeakPassword? ==> r.value.message == ValidatePassword(password).errors[0])
      && (r == Some(EmailExists) <==>
            fieldsOk && ValidatePassword(password).isValid && Find(users, ByEmail, NormalizeEmail(email)).Some?)
      && (r.None? <==>
            fieldsOk && ValidatePassword(password).isValid && Find(users, ByEmail, NormalizeEmail(email)).None?)
  {
    NormalizedEmailValid(email);
  }

  /**
   * Which check a sign-in fails, stated on the input as typed: an unknown
   * address is reported before a short password, and any password of eight
   * or more characters is accepted for a known address.
   */
  lemma SignInChecksInOrder(email: string, password: string, users: seq<User>)
    ensures var r := SignInError(email, password, users);
      && (r == Some(EmailRequired) <==> Trim(email) == [])
      && (r == Some(InvalidEmail) <==> Trim(email) != [] && !IsValidEmail(email))
      && (r == Some(PasswordRequired) <==> IsValidEmail(email) && password == [])
    ensures var r := SignInError(email, password, users);
      var known := Find(users, ByEmail, NormalizeEmail(email)).Some?;
      && (r == Some(NoAccount) <==> IsValidEmail(email) && password != [] && !known)
      && (r == Some(InvalidPassword) <==> IsValidEmail(email) && known && 0 < |password| < MinPasswordLength)
      && (r.None? <==> IsValidEmail(email) && known && |password| >= MinPasswordLength)
  {
    NormalizedEmailValid(email);
  }

  /** Which check a reset request fails, stated on the input as typed. */
  lemma ResetChecksInOrder(email: string, users: seq<User>)
    ensures var r := ResetError(email, users);
      var known := Find(users, ByEmail, NormalizeEmail(email)).Some?;
      && (r == Some(EmailRequired) <==> Trim(email) == [])
      && (r == Some(InvalidEmail) <==> Trim(email) != [] && !IsValidEmail(email))
      && (r == Some(NoAccount) <==> IsValidEmail(email) && !known)
      && (r.None? <==> IsValidEmail(email) && known)
  {
    NormalizedEmailValid(email);
  }

  /**
   * Normalizing an address neither empties it nor changes its validity, so
   * the checks on the normalized address are checks on the address as typed.
   */
  lemma NormalizedEmailValid(email: string)
    ensures NormalizeEmail(email) == [] <==> Trim(email) == []
    ensures IsValidEmail(NormalizeEmail(email)) <==> IsValidEmail(email)
    ensures IsValidEmail(email) ==> Trim(email) != []
  {
    TrimToLowerTrim(email);
    EmailShapeToLower(Trim(email));
  }

  // ---------------------------------------------------------------------------
  // Records the operations create
  // ---------------------------------------------------------------------------

  /** The user `signUp` creates; `suffix` stands for the random part of the id. */
  function NewEmailUser(email: string, name: string, now: nat, suffix: string): (u: User)
    ensures u.email == email && u.name == name && u.createdAt == now && u.lastLogin == now
    ensures u.isVerified && u.provider == Some(EmailProvider) && u.avatar.None?
    ensures |u.id| > 5 && u.id[..5] == "user_"
  {
    User("user_" + DecimalString(now) + "_" + suffix, email, name, None, now, now, true, Some(EmailProvider))
  }

  /** The address the simulated Google flow mints from the clock. */
  function GoogleEmail(now: nat): (r: string)
    ensures |r| == |DecimalString(now)| + 14
    ensures r[..4] == "user" && r[|r| - 10..] == "@gmail.com"
    ensures r[4..|r| - 10] == DecimalString(now)
  {
    "user" + DecimalString(now) + "@gmail.com"
  }

  /** Different clock readings mint different addresses. */
  lemma GoogleEmailInjective(a: nat, b: nat)
    ensures GoogleEmail(a) == GoogleEmail(b) ==> a == b
  {
    DecimalRoundTrip(a);
    DecimalRoundTrip(b);
  }

  const GoogleAvatar: string :=
    "https://images.pexels.com/photos/1040880/pexels-photo-1040880.jpeg?auto=compress&cs=tinysrgb&w=100"

  /** The user the simulated Google flow creates when its address is new. */
  function NewGoogleUser(now: nat, suffix: string): (u: User)
    ensures u.email == GoogleEmail(now) && u.name == "Google User" && u.avatar == Some(GoogleAvatar)
    ensures u.createdAt == now && u.lastLogin == now
    ensures u.isVerified && u.provider == Some(GoogleProvider)
    ensures |u.id| > 7 && u.id[..7] == "google_"
  {
    User("google_" + DecimalString(now) + "_" + suffix, GoogleEmail(now), "Google User",
         Some(GoogleAvatar), now, now, true, Some(GoogleProvider))
  }

  /** The minted address is a valid, already normalized address, so it can be signed in to or reset later. */
  lemma GoogleEmailValid(now: nat)
    ensures IsValidEmail(GoogleEmail(now))
    ensures NormalizeEmail(GoogleEmail(now)) == GoogleEmail(now)
  {
    var d := DecimalString(now);
    var local := "user" + d;
    var s := GoogleEmail(now);
    assert s == local + "@" + "gmail.com";
    forall k | 0 <= k < |local| ensures EmailChar(local[k]) && !('A' <= local[k] <= 'Z') {
      if k >= 4 { assert local[k] == d[k - 4]; }
    }
    assert "gmail.com"[1..8][4] == '.';
    EmailShapeOfParts(local, "gmail.com");
    TrimTrimmed(s);
    GoogleEmailLower(local, s);
  }

  lemma GoogleEmailLower(local: string, s: string)
    requires s == local + "@gmail.com"
    requires forall k :: 0 <= k < |local| ==> !('A' <= local[k] <= 'Z')
    ensures ToLower(s) == s
  {
    forall k | 0 <= k < |s| ensures ToLower(s)[k] == s[k] {
      if k < |local| { assert s[k] == local[k]; } else { assert s[k] == "@gmail.com"[k - |local|]; }
    }
  }

  /** `Partial<User>`: the fields a profile update may supply. */
  datatype ProfilePatch = ProfilePatch(
    id: Option<string>,
    email: Option<string>,
    name: Option<string>,
    avatar: Option<string>,
    createdAt: Option<int>,
    lastLogin: Option<int>,
    isVerified: Option<bool>,
    provider: Option<Provider>)

  const NoChanges: ProfilePatch := ProfilePatch(None, None, None, None, None, None, None, None)

  function Or<T>(o: Option<T>, default: T): T {
    if o.Some? then o.value else default
  }

  /** `{ ...user, ...data }`: every supplied field wins, every other field is kept. */
  function Merge(u: User, d: ProfilePatch): (r: User)
    ensures r.id == (if d.id.Some? then d.id.value else u.id)
    ensures r.email == (if d.email.Some? then d.email.value else u.email)
    ensures r.name == (if d.name.Some? then d.name.value else u.name)
    ensures r.avatar == (if d.avatar.Some? then d.avatar else u.avatar)
    ensures r.createdAt == (if d.createdAt.Some? then d.createdAt.value else u.createdAt)
    ensures r.lastLogin == (if d.lastLogin.Some? then d.lastLogin.value else u.lastLogin)
    ensures r.isVerified == (if d.isVerified.Some? then d.isVerified.value else u.isVerified)
    ensures r.provider == (if d.provider.Some? then d.provider else u.provider)
  {
    User(Or(d.id, u.id), Or(d.email, u.email), Or(d.name, u.name),
         if d.avatar.Some? then d.avatar else u.avatar,
         Or(d.createdAt, u.createdAt), Or(d.lastLogin, u.lastLogin), Or(d.isVerified, u.isVerified),
         if d.provider.Some? then d.provider else u.provider)
  }

  /** Merging nothing changes nothing; merging the same patch twice is merging it once. */
  lemma MergeLaws(u: User, d: ProfilePatch)
    ensures Merge(u, NoChanges) == u
    ensures Merge(Merge(u, d), d) == Merge(u, d)
  {
  }

  /** The patch `updateProfile` applies: a supplied name is stored trimmed. */
  function TrimmedPatch(d: ProfilePatch): (r: ProfilePatch)
    ensures r.name == (if d.name.Some? then Some(Trim(d.name.value)) else None)
    ensures r.(name := d.name) == d
  {
    if d.name.Some? then d.(name := Some(Trim(d.name.value))) else d
  }

  // ---------------------------------------------------------------------------
  // Properties of whole operations, stated on the checks and records above
  // ---------------------------------------------------------------------------

  /** An address already in the directory can never be registered again. */
  lemma DuplicateEmailRejected(email: string, password: string, name: string, users: seq<User>)
    requires Find(users, ByEmail, NormalizeEmail(email)).Some?
    ensures SignUpError(email, password, name, users).Some?
  {
    SignUpChecksInOrder(email, password, name, users);
  }

  /** A rejected password reports the first rule it fails, in the order length, upper, lower, digit, special. */
  lemma WeakPasswordReportsFirstRule(email: string, password: string, name: string, users: seq<User>)
    requires SignUpError(email, password, name, users).Some?
    requires SignUpError(email, password, name, users).value.WeakPassword?
    ensures FirstFailedRule(password).Some?
    ensures SignUpError(email, password, name, users).value == WeakPassword(RuleMessage(FirstFailedRule(password).value))
  {
    SignUpChecksInOrder(email, password, name, users);
    FirstPasswordError(password);
  }

  /**
   * Signing up and then signing in with the same credentials succeeds and
   * finds the record sign-up created (the directory grows by that one record).
   */
  lemma SignUpThenSignIn(email: string, password: string, name: string, users: seq<User>, now: nat, suffix: string)
    requires SignUpError(email, password, name, users).None?
    ensures var u := NewEmailUser(NormalizeEmail(email), Trim(name), now, suffix);
      && SignInError(email, password, users + [u]).None?
      && Find(users + [u], ByEmail, NormalizeEmail(email)) == Some(|users|)
  {
    var u := NewEmailUser(NormalizeEmail(email), Trim(name), now, suffix);
    SignUpChecksInOrder(email, password, name, users);
    ValidatePasswordIff(password);
    assert Satisfies(password, MinLength);
    FindAfterAppend(users, u, ByEmail);
  }

  /** Sign-up keeps e-mail addresses unique in the directory, and ids too when the new id is fresh. */
  lemma SignUpKeepsDirectoryUnique(email: string, password: string, name: string, users: seq<User>, now: nat, suffix: string)
    requires SignUpError(email, password, name, users).None?
    requires EmailsUnique(users)
    ensures EmailsUnique(users + [NewEmailUser(NormalizeEmail(email), Trim(name), now, suffix)])
    ensures var u := NewEmailUser(NormalizeEmail(email), Trim(name), now, suffix);
      IdsUnique(users) && Find(users, ById, u.id).None? ==> IdsUnique(users + [u])
  {
    var u := NewEmailUser(NormalizeEmail(email), Trim(name), now, suffix);
    SignUpChecksInOrder(email, password, name, users);
    AppendKeepsEmailsUnique(users, u);
    if IdsUnique(users) && Find(users, ById, u.id).None? {
      AppendKeepsIdsUnique(users, u);
    }
  }

  /**
   * With unique ids, a successful sign-in rewrites only the matched entry,
   * and only its `lastLogin`.
   */
  lemma SignInTouchesOnlyLastLogin(users: seq<User>, email: string, now: nat)
    requires IdsUnique(users)
    requires Find(users, ByEmail, NormalizeEmail(email)).Some?
    ensures var k := Find(users, ByEmail, NormalizeEmail(email)).value;
      ReplaceFirst(users, users[k].(lastLogin := now)) == Some(users[k := users[k].(lastLogin := now)])
  {
    var k := Find(users, ByEmail, NormalizeEmail(email)).value;
    ReplaceUniqueId(users, k, users[k].(lastLogin := now));
  }

  /** The state the operations act on, apart from `loading`. */
  datatype AuthState = AuthState(
    user: Option<User>,
    storedUser: Stored<User>,
    storedSession: Stored<SessionToken>,
    usersDb: Stored<seq<User>>)

  /**
   * The provider component. `user` and `loading` are its React state; the
   * other three fields are the browser-storage slots it reads and writes.
   */
  class AuthProvider {
    var user: Option<User>
    var loading: bool
    var storedUser: Stored<User>
    var storedSession: Stored<SessionToken>
    var usersDb: Stored<seq<User>>

    /** Mounting: no user yet and `loading`, with storage as the page finds it. */
    constructor(savedUser: Stored<User>, sessionToken: Stored<SessionToken>, db: Stored<seq<User>>)
      ensures user.None? && loading
      ensures storedUser == savedUser && storedSession == sessionToken && usersDb == db
    {
      user := None;
      loading := true;
      storedUser := savedUser;
      storedSession := sessionToken;
      usersDb := db;
    }

    function State(): AuthState
      reads this
    {
      AuthState(user, storedUser, storedSession, usersDb)
    }

    /** `u` is signed in: in memory, in the stored snapshot, with a token issued at `now`. */
    ghost predicate SignedInAs(u: User, now: int)
      reads this
    {
      && user == Some(u)
      && storedUser == Present(u)
      && storedSession == Present(SessionToken(u.id, now + SessionTtlMs))
    }

    /**
     * The in-memory user, the stored snapshot and the first directory entry
     * with the user's id are one and the same record.
     */
    ghost predicate Agrees()
      reads this
    {
      && user.Some?
      && storedUser == Present(user.value)
      && var users := LoadUsers(usersDb);
         var i := Find(users, ById, user.value.id);
         i.Some? && users[i.value] == user.value
    }

    /** `clearAuthStorage`. */
    method ClearAuthStorage()
      modifies this
      ensures user.None? && storedUser.Absent? && storedSession.Absent?
      ensures usersDb == old(usersDb) && loading == old(loading)
    {
      storedUser := Absent;
      storedSession := Absent;
      user := None;
    }

    /** `createSession`: snapshot `u`, issue a seven-day token, make `u` the current user. */
    method CreateSession(u: User, now: nat)
      modifies this
      ensures SignedInAs(u, now)
      ensures usersDb == old(usersDb) && loading == old(loading)
    {
      storedUser := Present(u);
      storedSession := Present(SessionToken(u.id, now + SessionTtlMs));
      user := Some(u);
    }

    /** `saveUsersDatabase`. */
    method SaveUsersDatabase(users: seq<User>)
      modifies this
      ensures usersDb == Present(users)
      ensures user == old(user) && storedUser == old(storedUser) && storedSession == old(storedSession)
      ensures loading == old(loading)
    {
      usersDb := Present(users);
    }

    /**
     * `updateUserInDatabase`: replace the first entry with `u`'s id; when no
     * entry has it, the stored directory is left exactly as it was.
     */
    method UpdateUserInDatabase(u: User)
      modifies this
      ensures usersDb == match ReplaceFirst(LoadUsers(old(usersDb)), u)
        case None => old(usersDb)
        case Some(updated) => Present(updated)
      ensures user == old(user) && storedUser == old(storedUser) && storedSession == old(storedSession)
      ensures loading == old(loading)
    {
      var users := LoadUsers(usersDb);
      var index := Find(users, ById, u.id);
      if index.Some? {
        users := users[index.value := u];
        SaveUsersDatabase(users);
      }
    }

    /**
     * `initializeAuth`: with both slots filled, a decodable unexpired session
     * restores the stored user with `lastLogin` refreshed (written to the
     * directory, not to the snapshot); an expired or undecodable one clears
     * both slots. With either slot empty nothing changes. `loading` ends false.
     */
    method InitializeAuth(now: nat)
      modifies this
      ensures !loading
      ensures old(storedUser).Absent? || old(storedSession).Absent? ==> State() == old(State())
      ensures old(storedUser).Present? && old(storedSession).Present? && old(storedSession).value.expires > now ==>
        var u := old(storedUser).value.(lastLogin := now);
        && user == Some(u)
        && storedUser == old(storedUser) && storedSession == old(storedSession)
        && usersDb == match ReplaceFirst(LoadUsers(old(usersDb)), u)
             case None => old(usersDb)
             case Some(updated) => Present(updated)
      ensures && !old(storedUser).Absent? && !old(storedSession).Absent?
              && !(old(storedUser).Present? && old(storedSession).Present? && old(storedSession).value.expires > now) ==>
        user.None? && storedUser.Absent? && storedSession.Absent? && usersDb == old(usersDb)
    {
      if !storedUser.Absent? && !storedSession.Absent? {
        if storedUser.Corrupt? || storedSession.Corrupt? {
          // the parse failure is caught and treated as "not signed in"
          ClearAuthStorage();
        } else if storedSession.value.expires > now {
          var u := storedUser.value.(lastLogin := now);
          UpdateUserInDatabase(u);
          user := Some(u);
        } else {
          ClearAuthStorage();
        }
      }
      loading := false;
    }

    /** `signUp`. */
    method SignUp(email: string, password: string, name: string, now: nat, suffix: string) returns (out: Outcome)
      modifies this
      ensures !loading
      ensures var err := SignUpError(email, password, name, LoadUsers(old(usersDb)));
        err.Some? ==> out == Failed(err.value) && State() == old(State())
      ensures SignUpError(email, password, name, LoadUsers(old(usersDb))).None? ==>
        var u := NewEmailUser(NormalizeEmail(email), Trim(name), now, suffix);
        && out == Done
        && usersDb == Present(LoadUsers(old(usersDb)) + [u])
        && SignedInAs(u, now)
      ensures out.Done? && Find(LoadUsers(old(usersDb)), ById, user.value.id).None? ==> Agrees()
    {
      var users := LoadUsers(usersDb);
      var err := SignUpError(email, password, name, users);
      loading := true;
      if err.Some? {
        loading := false;
        return Failed(err.value);
      }
      var u := NewEmailUser(NormalizeEmail(email), Trim(name), now, suffix);
      if Find(users, ById, u.id).None? {
        FindAfterAppend(users, u, ById);
      }
      SaveUsersDatabase(users + [u]);
      CreateSession(u, now);
      loading := false;
      out := Done;
    }

    /** `signIn`: the matched entry gets a fresh `lastLogin` and becomes the signed-in user. */
    method SignIn(email: string, password: string, now: nat) returns (out: Outcome)
      modifies this
      ensures !loading
      ensures var err := SignInError(email, password, LoadUsers(old(usersDb)));
        err.Some? ==> out == Failed(err.value) && State() == old(State())
      ensures SignInError(email, password, LoadUsers(old(usersDb))).None? ==>
        var users := LoadUsers(old(usersDb));
        var k := Find(users, ByEmail, NormalizeEmail(email)).value;
        var u := users[k].(lastLogin := now);
        && out == Done
        && ReplaceFirst(users, u).Some?
        && usersDb == Present(ReplaceFirst(users, u).value)
        && |LoadUsers(usersDb)| == |users|
        && SignedInAs(u, now)
        && Agrees()
    {
      var users := LoadUsers(usersDb);
      var err := SignInError(email, password, users);
      loading := true;
      if err.Some? {
        loading := false;
        return Failed(err.value);
      }
      var k := Find(users, ByEmail, NormalizeEmail(email)).value;
      var u := users[k].(lastLogin := now);
      assert users[k].id == u.id;
      FindAfterReplace(users, u);
      UpdateUserInDatabase(u);
      CreateSession(u, now);
      loading := false;
      out := Done;
    }

    /** `signOut`. */
    method SignOut()
      modifies this
      ensures !loading
      ensures user.None? && storedUser.Absent? && storedSession.Absent?
      ensures usersDb == old(usersDb)
    {
      loading := true;
      ClearAuthStorage();
      loading := false;
    }

    /**
     * `signInWithGoogle`: the address minted from the clock is looked up;
     * a new address gets a new Google user appended, a known one gets its
     * entry's `lastLogin` refreshed. Either way that user is signed in.
     */
    method SignInWithGoogle(now: nat, suffix: string) returns (out: Outcome)
      modifies this
      ensures !loading && out == Done
      ensures var users := LoadUsers(old(usersDb));
        Find(users, ByEmail, GoogleEmail(now)).None? ==>
          var g := NewGoogleUser(now, suffix);
          usersDb == Present(users + [g]) && SignedInAs(g, now)
      ensures var users := LoadUsers(old(usersDb));
        Find(users, ByEmail, GoogleEmail(now)).None? && Find(users, ById, NewGoogleUser(now, suffix).id).None? ==> Agrees()
      ensures var users := LoadUsers(old(usersDb));
        var k := Find(users, ByEmail, GoogleEmail(now));
        k.Some? ==>
          var g := users[k.value].(lastLogin := now);
          && ReplaceFirst(users, g).Some?
          && usersDb == Present(ReplaceFirst(users, g).value)
          && SignedInAs(g, now)
          && Agrees()
    {
      loading := true;
      var email := GoogleEmail(now);
      var users := LoadUsers(usersDb);
      var k := Find(users, ByEmail, email);
      if k.None? {
        var g := NewGoogleUser(now, suffix);
        if Find(users, ById, g.id).None? {
          FindAfterAppend(users, g, ById);
        }
        users := users + [g];
        SaveUsersDatabase(users);
        CreateSession(g, now);
      } else {
        var g := users[k.value].(lastLogin := now);
        assert users[k.value].id == g.id;
        FindAfterReplace(users, g);
        UpdateUserInDatabase(g);
        CreateSession(g, now);
      }
      loading := false;
      out := Done;
    }

    /** `resetPassword`: validation and a directory lookup only; the reset mail itself is a log line. */
    method ResetPassword(email: string) returns (out: Outcome)
      modifies this
      ensures !loading
      ensures State() == old(State())
      ensures var err := ResetError(email, LoadUsers(old(usersDb)));
        out == if err.Some? then Failed(err.value) else Done
    {
      var err := ResetError(email, LoadUsers(usersDb));
      loading := true;
      out := if err.Some? then Failed(err.value) else Done;
      loading := false;
    }

    /**
     * `updateProfile`: refused before `loading` is touched when nobody is
     * signed in; a supplied name is trimmed and checked; then the merged
     * record replaces the directory entry with its id and the session is
     * issued again.
     */
    method UpdateProfile(data: ProfilePatch, now: nat) returns (out: Outcome)
      modifies this
      ensures old(user).None? ==>
        out == Failed(NotAuthenticated) && State() == old(State()) && loading == old(loading)
      ensures old(user).Some? ==> !loading
      ensures old(user).Some? && data.name.Some? && ProfileNameError(data.name.value).Some? ==>
        out == Failed(ProfileNameError(data.name.value).value) && State() == old(State())
      ensures old(user).Some? && (data.name.Some? ==> ProfileNameError(data.name.value).None?) ==>
        var u := Merge(old(user).value, TrimmedPatch(data));
        && out == Done
        && usersDb == (match ReplaceFirst(LoadUsers(old(usersDb)), u)
             case None => old(usersDb)
             case Some(updated) => Present(updated))
        && SignedInAs(u, now)
        && (ReplaceFirst(LoadUsers(old(usersDb)), u).Some? ==> Agrees())
    {
      if user.None? {
        return Failed(NotAuthenticated);
      }
      loading := true;
      if data.name.Some? {
        var err := ProfileNameError(data.name.value);
        if err.Some? {
          loading := false;
          return Failed(err.value);
        }
      }
      var u := Merge(user.value, TrimmedPatch(data));
      if ReplaceFirst(LoadUsers(usersDb), u).Some? {
        FindAfterReplace(LoadUsers(usersDb), u);
      }
      UpdateUserInDatabase(u);
      CreateSession(u, now);
      loading := false;
      out := Done;
    }

    /**
     * `deleteAccount`: refused before `loading` is touched when nobody is
     * signed in; otherwise every entry with the user's id leaves the
     * directory and the session is cleared.
     */
    method DeleteAccount() returns (out: Outcome)
      modifies this
      ensures old(user).None? ==>
        out == Failed(NotAuthenticated) && State() == old(State()) && loading == old(loading)
      ensures old(user).Some? ==>
        && out == Done && !loading
        && usersDb == Present(RemoveId(LoadUsers(old(usersDb)), old(user).value.id))
        && user.None? && storedUser.Absent? && storedSession.Absent?
    {
      if user.None? {
        return Failed(NotAuthenticated);
      }
      loading := true;
      var users := LoadUsers(usersDb);
      SaveUsersDatabase(RemoveId(users, user.value.id));
      ClearAuthStorage();
      loading := false;
      out := Done;
    }
  }

  /**
   * A client of the provider: sign up on a fresh page, sign out, sign in
   * again with the same credentials, and come back as the same record.
   */
  method SignUpSignOutSignIn(p: AuthProvider, email: string, password: string, name: string, now: nat, later: nat, suffix: string)
    returns (first: Outcome, second: Outcome)
    requires SignUpError(email, password, name, LoadUsers(p.usersDb)).None?
    modifies p
    ensures first == Done && second == Done
    ensures p.user == Some(NewEmailUser(NormalizeEmail(email), Trim(name), now, suffix).(lastLogin := later))
  {
    var users := LoadUsers(p.usersDb);
    SignUpThenSignIn(email, password, name, users, now, suffix);
    first := p.SignUp(email, password, name, now, suffix);
    p.SignOut();
    second := p.SignIn(email, password, later);
  }
}
