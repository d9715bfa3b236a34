/**
 * The identity and session manager: registration, login, the lazily checked
 * 30-minute inactivity timeout, logout, password change and profile update.
 *
 * The users table is a map from id to row with an auto-increment counter, the PHP
 * `$_SESSION` array is the `session` field, `time()`/`NOW()` is the `now`
 * parameter, the fresh bcrypt salt is the `salt` parameter, and PHP's
 * `filter_var(…, FILTER_VALIDATE_EMAIL)` is the `validEmail` predicate the object
 * is built with.
 */
module Identity {
  import opened Wrappers
  import opened Strings
  import opened Crypto

  /** Seconds of inactivity after which a session is dropped. */
  const SessionTimeout: int := 1800

  const MinPasswordLength: nat := 8
  const MinUsernameLength: nat := 3
  const MaxUsernameLength: nat := 50

  /** The messages the operations answer with; `Text` gives their wording. */
  datatype Message =
    | UsernameLength | UsernameChars | InvalidEmail | PasswordLength | UsernameTaken
    | EmailRegistered | EmailInUse | AccountCreated | LoginOk | InvalidCredentials
    | NotAuthenticated | NewPasswordLength | PasswordChanged | CurrentPasswordIncorrect
    | ProfileUpdated

  function Text(m: Message): string {
    match m
    case UsernameLength => "Username must be 3-50 characters"
    case UsernameChars => "Username can only contain letters, numbers, and underscores"
    case InvalidEmail => "Invalid email address"
    case PasswordLength => "Password must be at least 8 characters"
    case UsernameTaken => "Username already taken"
    case EmailRegistered => "Email already registered"
    case EmailInUse => "Email already in use"
    case AccountCreated => "Account created successfully"
    case LoginOk => "Login successful"
    case InvalidCredentials => "Invalid credentials"
    case NotAuthenticated => "Not authenticated"
    case NewPasswordLength => "New password must be at least 8 characters"
    case PasswordChanged => "Password changed successfully"
    case CurrentPasswordIncorrect => "Current password is incorrect"
    case ProfileUpdated => "Profile updated successfully"
  }

  /** A row of the users table. */
  datatype User = User(
    username: string,
    email: string,
    passwordHash: Bytes,
    createdAt: int,
    lastLogin: Option<int>,
    updatedAt: Option<int>)

  /**
   * `$_SESSION` as this class writes it: either empty, or holding `user_id`,
   * `username`, `email`, `authenticated = true` and `last_activity` together.
   */
  datatype Session = Anonymous | Active(userId: int, username: string, email: string, lastActivity: int)

  /** The `['success' => …, 'message' => …]` array every operation returns. */
  datatype Response = Response(success: bool, message: Message)

  /** Ids of the rows whose username is `u`. */
  function UsernameOwners(users: map<int, User>, u: string): set<int> {
    set id | id in users && users[id].username == u
  }

  /** Ids of the rows whose email is `e`. */
  function EmailOwners(users: map<int, User>, e: string): set<int> {
    set id | id in users && users[id].email == e
  }

  predicate UsernameLengthOk(u: string) {
    MinUsernameLength <= |u| <= MaxUsernameLength
  }

  /** The username rules, on the already trimmed username. */
  predicate UsernameOk(u: string) {
    UsernameLengthOk(u) && AllWordChars(u)
  }

  /** The username as stored: `trim($username)`. */
  function NormUsername(username: string): string {
    Trim(username)
  }

  /** The email as stored and looked up: `strtolower(trim($email))`. */
  function NormEmail(email: string): string {
    ToLower(Trim(email))
  }

  /**
   * The checks `register` and `updateProfile` share, in their order: username
   * length, username characters, email syntax, on the normalised username and email.
   */
  function ShapeError(validEmail: string -> bool, username: string, email: string): (err: Option<Message>)
    ensures var u, e := NormUsername(username), NormEmail(email);
      && (err == Some(UsernameLength) <==> !UsernameLengthOk(u))
      && (err == Some(UsernameChars) <==> UsernameLengthOk(u) && !AllWordChars(u))
      && (err == Some(InvalidEmail) <==> UsernameOk(u) && !validEmail(e))
      && (err == None <==> UsernameOk(u) && validEmail(e))
  {
    var u, e := NormUsername(username), NormEmail(email);
    UsernamePatternOnTrimmed(username);
    if !UsernameLengthOk(u) then Some(UsernameLength)
    else if !MatchesUsernamePattern(u) then Some(UsernameChars)
    else if !validEmail(e) then Some(InvalidEmail)
    else None
  }

  /**
   * The message `register` fails with, if any: the first of username length,
   * username characters, email syntax, password length, username taken, email
   * taken that fails.
   */
  function RegistrationError(users: map<int, User>, validEmail: string -> bool,
                             username: string, email: string, password: string): (err: Option<Message>)
    ensures var u, e := NormUsername(username), NormEmail(email);
      && (err == Some(UsernameLength) <==> !UsernameLengthOk(u))
      && (err == Some(UsernameChars) <==> UsernameLengthOk(u) && !AllWordChars(u))
      && (err == Some(InvalidEmail) <==> UsernameOk(u) && !validEmail(e))
      && (err == Some(PasswordLength) <==> UsernameOk(u) && validEmail(e) && |password| < MinPasswordLength)
      && (err == Some(UsernameTaken) <==>
            UsernameOk(u) && validEmail(e) && |password| >= MinPasswordLength && UsernameOwners(users, u) != {})
      && (err == Some(EmailRegistered) <==>
            UsernameOk(u) && validEmail(e) && |password| >= MinPasswordLength && UsernameOwners(users, u) == {}
            && EmailOwners(users, e) != {})
      && (err == None <==>
            UsernameOk(u) && validEmail(e) && |password| >= MinPasswordLength
            && UsernameOwners(users, u) == {} && EmailOwners(users, e) == {})
  {
    var u, e := NormUsername(username), NormEmail(email);
    var shape := ShapeError(validEmail, username, email);
    if shape.Some? then shape
    else if |password| < MinPasswordLength then Some(PasswordLength)
    else if UsernameOwners(users, u) != {} then Some(UsernameTaken)
    else if EmailOwners(users, e) != {} then Some(EmailRegistered)
    else None
  }

  /**
   * The message `updateProfile` fails with after the authentication check, if any:
   * the shared shape checks, then the username, then the email, held by a user
   * other than `self`.
   */
  function ProfileError(users: map<int, User>, validEmail: string -> bool, self: int,
                        username: string, email: string): (err: Option<Message>)
    ensures var u, e := NormUsername(username), NormEmail(email);
      && (err == Some(UsernameLength) <==> !UsernameLengthOk(u))
      && (err == Some(UsernameChars) <==> UsernameLengthOk(u) && !AllWordChars(u))
      && (err == Some(InvalidEmail) <==> UsernameOk(u) && !validEmail(e))
      && (err == Some(UsernameTaken) <==> UsernameOk(u) && validEmail(e) && UsernameOwners(users, u) - {self} != {})
      && (err == Some(EmailInUse) <==>
            UsernameOk(u) && validEmail(e) && UsernameOwners(users, u) - {self} == {} && EmailOwners(users, e) - {self} != {})
      && (err == None <==>
            UsernameOk(u) && validEmail(e) && UsernameOwners(users, u) - {self} == {} && EmailOwners(users, e) - {self} == {})
  {
    var u, e := NormUsername(username), NormEmail(email);
    var shape := ShapeError(validEmail, username, email);
    if shape.Some? then shape
    else if UsernameOwners(users, u) - {self} != {} then Some(UsernameTaken)
    else if EmailOwners(users, e) - {self} != {} then Some(EmailInUse)
    else None
  }

  /** Which rows a login identifier selects: by lower-cased email or by exact username. */
  predicate LoginMatches(user: User, identifier: string, isEmail: bool) {
    if isEmail then user.email == ToLower(identifier) else user.username == identifier
  }

  /**
   * `isAuthenticated` on a session at time `now`: the answer and the session it
   * leaves behind. A session idle for more than 1800 seconds is logged out; an
   * active one within the limit is refreshed.
   */
  function CheckSession(s: Session, now: int): (r: (bool, Session))
    ensures r.0 <==> s.Active? && now - s.lastActivity <= SessionTimeout
    ensures r.0 ==> r.1.Active? && r.1 == s.(lastActivity := now)
    ensures !r.0 ==> r.1 == Anonymous
  {
    match s
    case Anonymous => (false, Anonymous)
    case Active(_, _, _, last) =>
      if now - last > SessionTimeout then (false, Anonymous) else (true, s.(lastActivity := now))
  }

  /** The answers of successive `isAuthenticated` calls at the given times. */
  function CheckAll(s: Session, times: seq<int>): (answers: seq<bool>)
    ensures |answers| == |times|
    ensures times != [] ==> (answers[0] <==> s.Active? && times[0] - s.lastActivity <= SessionTimeout)
    ensures forall k :: 0 < k < |times| ==>
      (answers[k] <==> answers[k - 1] && times[k] - times[k - 1] <= SessionTimeout)
    decreases |times|
  {
    if times == [] then []
    else
      var r := CheckSession(s, times[0]);
      [r.0] + CheckAll(r.1, times[1..])
  }

  /** Every call comes within 1800 seconds of the one before (the first, of `start`). */
  ghost predicate GapsWithin(start: int, times: seq<int>) {
    && (|times| > 0 ==> times[0] - start <= SessionTimeout)
    && (forall i :: 0 <= i < |times| - 1 ==> times[i + 1] - times[i] <= SessionTimeout)
  }

  predicate AllTrue(answers: seq<bool>) {
    forall i :: 0 <= i < |answers| ==> answers[i]
  }

  lemma AllTrueCons(b: bool, tail: seq<bool>)
    ensures AllTrue([b] + tail) <==> b && AllTrue(tail)
  {
    var all := [b] + tail;
    if AllTrue(all) {
      assert all[0] == b;
      forall i | 0 <= i < |tail| ensures tail[i] {
        assert all[i + 1] == tail[i];
      }
    }
  }

  lemma GapsWithinUnfold(start: int, times: seq<int>)
    requires times != []
    ensures GapsWithin(start, times)
        <==> times[0] - start <= SessionTimeout && GapsWithin(times[0], times[1..])
  {
    var rest := times[1..];
    if times[0] - start <= SessionTimeout && GapsWithin(times[0], rest) {
      forall i | 0 <= i < |times| - 1 ensures times[i + 1] - times[i] <= SessionTimeout {
        if i > 0 {
          assert times[i + 1] == rest[i] && times[i] == rest[i - 1];
        }
      }
    }
    if GapsWithin(start, times) {
      forall i | 0 <= i < |rest| - 1 ensures rest[i + 1] - rest[i] <= SessionTimeout {
        assert times[i + 2] - times[i + 1] <= SessionTimeout;
      }
    }
  }

  /**
   * A run of checks all succeed exactly when the session starts active and no two
   * consecutive accesses are more than 1800 seconds apart: each access refreshes
   * the session.
   */
  lemma {:induction false} CheckAllSucceed(s: Session, times: seq<int>)
    requires times != []
    ensures AllTrue(CheckAll(s, times)) <==> s.Active? && GapsWithin(s.lastActivity, times)
    decreases |times|
  {
    var r := CheckSession(s, times[0]);
    var rest := times[1..];
    var tail := CheckAll(r.1, rest);
    assert CheckAll(s, times) == [r.0] + tail;
    AllTrueCons(r.0, tail);
    if s.Active? {
      GapsWithinUnfold(s.lastActivity, times);
    }
    if rest != [] {
      CheckAllSucceed(r.1, rest);
    }
  }

  /** Once a check has failed, every later check fails too, until a new login. */
  lemma {:induction false} ExpiryIsFinal(s: Session, times: seq<int>, i: nat, j: nat)
    requires i < j < |times|
    requires !CheckAll(s, times)[i]
    ensures !CheckAll(s, times)[j]
    decreases |times|
  {
    var r := CheckSession(s, times[0]);
    assert CheckAll(s, times) == [r.0] + CheckAll(r.1, times[1..]);
    if i == 0 {
      AnonymousStaysOut(times[1..], j - 1);
    } else {
      ExpiryIsFinal(r.1, times[1..], i - 1, j - 1);
    }
  }

  /** No check ever succeeds on an empty session. */
  lemma {:induction false} AnonymousStaysOut(times: seq<int>, k: nat)
    requires k < |times|
    ensures !CheckAll(Anonymous, times)[k]
    decreases |times|
  {
    assert CheckAll(Anonymous, times) == [false] + CheckAll(Anonymous, times[1..]);
    if k > 0 {
      AnonymousStaysOut(times[1..], k - 1);
    }
  }

  /** Whether row `id` is one `login` selects for an identifier: trimmed, then looked up as an email or as a username. */
  predicate IsLoginTarget(users: map<int, User>, validEmail: string -> bool, identifier: string, id: int): (r: bool)
    ensures r ==> id in users
    ensures r && validEmail(Trim(identifier)) ==> users[id].email == ToLower(Trim(identifier)) && IsLower(users[id].email)
    ensures r && !validEmail(Trim(identifier)) ==> users[id].username == Trim(identifier)
  {
    var ident := Trim(identifier);
    ToLowerIdempotent(ident);
    id in users && LoginMatches(users[id], ident, validEmail(ident))
  }

  /** Surrounding whitespace in the identifier never changes which row a login selects. */
  lemma LoginIgnoresPadding(users: map<int, User>, validEmail: string -> bool, identifier: string, id: int)
    ensures IsLoginTarget(users, validEmail, Trim(identifier), id) <==> IsLoginTarget(users, validEmail, identifier, id)
  {
    TrimIdempotent(identifier);
  }

  /** The users table's integrity: ids below the counter, unique usernames, unique lower-case emails. */
  ghost predicate TableValid(users: map<int, User>, nextId: int) {
    && nextId > 0
    && (forall id :: id in users ==> 0 < id < nextId)
    && (forall i, j :: i in users && j in users && users[i].username == users[j].username ==> i == j)
    && (forall i, j :: i in users && j in users && users[i].email == users[j].email ==> i == j)
    && (forall id :: id in users ==> IsLower(users[id].email))
  }

  /** Adding a user whose username and email are free, under the next id, keeps the table valid. */
  lemma AddUserKeepsValid(users: map<int, User>, nextId: int, user: User)
    requires TableValid(users, nextId)
    requires forall k :: k in users ==> users[k].username != user.username && users[k].email != user.email
    requires IsLower(user.email)
    ensures nextId !in users
    ensures TableValid(users[nextId := user], nextId + 1)
  {
  }

  /**
   * Rewriting row `id` keeps the table valid when no other row holds its new
   * username or email.
   */
  lemma ReplaceUserKeepsValid(users: map<int, User>, nextId: int, id: int, user: User)
    requires TableValid(users, nextId) && id in users
    requires forall k :: k in users && k != id ==> users[k].username != user.username && users[k].email != user.email
    requires IsLower(user.email)
    ensures TableValid(users[id := user], nextId)
  {
  }

  /** Rewriting a row without touching its username or email keeps the table valid. */
  lemma SameIdentityKeepsValid(users: map<int, User>, nextId: int, id: int, user: User)
    requires TableValid(users, nextId) && id in users
    requires user.username == users[id].username && user.email == users[id].email
    ensures TableValid(users[id := user], nextId)
  {
    ReplaceUserKeepsValid(users, nextId, id, user);
  }

  /** Unique usernames and emails mean an identifier selects at most one row. */
  lemma LoginTargetUnique(users: map<int, User>, nextId: int, validEmail: string -> bool, identifier: string,
                          a: int, b: int)
    requires TableValid(users, nextId)
    requires IsLoginTarget(users, validEmail, identifier, a) && IsLoginTarget(users, validEmail, identifier, b)
    ensures a == b
  {
  }

  /** The row `login` fetches for an identifier, if any: under a valid table, the only candidate. */
  method FindLoginTarget(users: map<int, User>, nextId: int, validEmail: string -> bool, identifier: string)
    returns (found: Option<int>)
    requires TableValid(users, nextId)
    ensures found.None? ==> forall id :: !IsLoginTarget(users, validEmail, identifier, id)
    ensures found.Some? ==> IsLoginTarget(users, validEmail, identifier, found.value)
    ensures found.Some? ==> forall id :: IsLoginTarget(users, validEmail, identifier, id) ==> id == found.value
  {
    if id :| id in users && IsLoginTarget(users, validEmail, identifier, id) {
      forall other | IsLoginTarget(users, validEmail, identifier, other) ensures other == id {
        LoginTargetUnique(users, nextId, validEmail, identifier, id, other);
      }
      found := Some(id);
    } else {
      found := None;
    }
  }

  /**
   * The row a login succeeds as, if any: the row the identifier selects, provided
   * the password verifies against its hash.
   */
  method Authenticate(users: map<int, User>, nextId: int, validEmail: string -> bool, enc: Encryption,
                      identifier: string, password: string) returns (found: Option<int>)
    requires TableValid(users, nextId)
    ensures found.Some? <==> exists id :: IsLoginTarget(users, validEmail, identifier, id)
                                         && enc.VerifyPassword(password, users[id].passwordHash)
    ensures found.Some? ==> IsLoginTarget(users, validEmail, identifier, found.value)
  {
    found := FindLoginTarget(users, nextId, validEmail, identifier);
    if found.Some? && !enc.VerifyPassword(password, users[found.value].passwordHash) {
      found := None;
    }
  }

  class Auth {
    const enc: Encryption
    /** `filter_var($s, FILTER_VALIDATE_EMAIL)` */
    const validEmail: string -> bool
    var users: map<int, User>
    var nextId: int
    var session: Session

    ghost predicate Valid()
      reads this
    {
      TableValid(users, nextId)
    }

    constructor (enc: Encryption, validEmail: string -> bool, users: map<int, User>, nextId: int, session: Session)
      requires TableValid(users, nextId)
      ensures Valid()
      ensures this.enc == enc && this.validEmail == validEmail
      ensures this.users == users && this.nextId == nextId && this.session == session
    {
      this.enc := enc;
      this.validEmail := validEmail;
      this.users := users;
      this.nextId := nextId;
      this.session := session;
    }

    /** `createSession`: authenticate the caller as the given user at time `now`. */
    method CreateSession(userId: int, username: string, email: string, now: int)
      modifies this`session
      ensures session == Active(userId, username, email, now)
    {
      session := Active(userId, username, email, now);
    }

    /**
     * `register`: on the first failing check, nothing changes and its message is
     * returned; otherwise one user is added with the trimmed username, the
     * lower-cased email and the bcrypt hash, and the caller is logged in as them.
     */
    method Register(username: string, email: string, password: string, salt: Bytes, now: int) returns (r: Response)
      requires Valid()
      modifies this
      ensures Valid()
      ensures var u, e := NormUsername(username), NormEmail(email);
        match RegistrationError(old(users), validEmail, username, email, password)
        case Some(msg) =>
          r == Response(false, msg) && users == old(users) && nextId == old(nextId) && session == old(session)
        case None =>
          var id := old(nextId);
          && r == Response(true, AccountCreated)
          && id !in old(users)
          && users == old(users)[id := User(u, e, enc.HashPassword(password, salt), now, None, None)]
          && nextId == id + 1
          && session == Active(id, u, e, now)
    {
      var u, e := NormUsername(username), NormEmail(email);
      var err := RegistrationError(users, validEmail, username, email, password);
      if err.Some? {
        return Response(false, err.value);
      }
      ToLowerIdempotent(Trim(email));
      var id := nextId;
      var user := User(u, e, enc.HashPassword(password, salt), now, None, None);
      assert forall k :: k in users ==> k !in UsernameOwners(users, u) && k !in EmailOwners(users, e);
      AddUserKeepsValid(users, nextId, user);
      users := users[id := user];
      nextId := nextId + 1;
      CreateSession(id, u, e, now);
      r := Response(true, AccountCreated);
    }

    /**
     * `login`: a trimmed identifier that is a valid email selects the row with that
     * lower-cased email, anything else the row with that exact username. Success
     * needs such a row and a verifying password; every failure, unknown identifier
     * or wrong password alike, is the same response and changes nothing.
     */
    method Login(identifier: string, password: string, now: int) returns (r: Response)
      requires Valid()
      modifies this
      ensures Valid() && nextId == old(nextId)
      ensures r.success <==> exists id :: IsLoginTarget(old(users), validEmail, identifier, id)
                                         && enc.VerifyPassword(password, old(users)[id].passwordHash)
      ensures !r.success ==>
        r == Response(false, InvalidCredentials) && users == old(users) && session == old(session)
      ensures r.success ==> r.message == LoginOk
      ensures r.success ==> session.Active? && IsLoginTarget(old(users), validEmail, identifier, session.userId)
      ensures r.success ==>
        var id := session.userId;
        && users == old(users)[id := old(users)[id].(lastLogin := Some(now))]
        && session == Active(id, old(users)[id].username, old(users)[id].email, now)
    {
      var found := Authenticate(users, nextId, validEmail, enc, identifier, password);
      if found.Some? {
        var id := found.value;
        var user := users[id].(lastLogin := Some(now));
        SameIdentityKeepsValid(users, nextId, id, user);
        users := users[id := user];
        CreateSession(id, user.username, user.email, now);
        return Response(true, LoginOk);
      }
      r := Response(false, InvalidCredentials);
    }

    /** `isAuthenticated`: the lazy timeout check, which also refreshes `last_activity`. */
    method IsAuthenticated(now: int) returns (ok: bool)
      modifies this`session
      ensures (ok, session) == CheckSession(old(session), now)
    {
      match session
      case Anonymous =>
        ok := false;
      case Active(_, _, _, last) =>
        if now - last > SessionTimeout {
          Logout();
          ok := false;
        } else {
          session := session.(lastActivity := now);
          ok := true;
        }
    }

    /** `getUserId`: the session's user id, without any timeout check. */
    method GetUserId() returns (id: Option<int>)
      ensures id.Some? <==> session.Active?
      ensures id.Some? ==> id.value == session.userId
    {
      id := if session.Active? then Some(session.userId) else None;
    }

    /** `getCurrentUser`: after the timeout check, the session's id, username and email. */
    method GetCurrentUser(now: int) returns (user: Option<(int, string, string)>)
      modifies this`session
      ensures (user.Some?, session) == CheckSession(old(session), now)
      ensures user.Some? ==> user.value == (session.userId, session.username, session.email)
    {
      var ok := IsAuthenticated(now);
      if !ok {
        return None;
      }
      user := Some((session.userId, session.username, session.email));
    }

    /** `logout`: whatever the session held, it is emptied. */
    method Logout()
      modifies this`session
      ensures session == Anonymous
    {
      session := Anonymous;
    }

    /**
     * `changePassword`: the authentication check comes first, the new password's
     * length second, and only then is the current password verified; the stored hash
     * changes only on success.
     */
    method ChangePassword(current: string, newPassword: string, salt: Bytes, now: int) returns (r: Response)
      requires Valid()
      modifies this
      ensures Valid() && nextId == old(nextId)
      ensures (r.message != NotAuthenticated, session) == CheckSession(old(session), now)
      ensures r.message == NotAuthenticated ==> !r.success && users == old(users)
      ensures r.message != NotAuthenticated && |newPassword| < MinPasswordLength ==>
        r == Response(false, NewPasswordLength) && users == old(users)
      ensures r.message != NotAuthenticated && |newPassword| >= MinPasswordLength ==>
        var uid := session.userId;
        if uid in old(users) && enc.VerifyPassword(current, old(users)[uid].passwordHash) then
          r == Response(true, PasswordChanged)
          && users == old(users)[uid := old(users)[uid].(passwordHash := enc.HashPassword(newPassword, salt),
                                                         updatedAt := Some(now))]
        else
          r == Response(false, CurrentPasswordIncorrect) && users == old(users)
    {
      var ok := IsAuthenticated(now);
      if !ok {
        return Response(false, NotAuthenticated);
      }
      if |newPassword| < MinPasswordLength {
        return Response(false, NewPasswordLength);
      }
      var uid := session.userId;
      if uid in users && enc.VerifyPassword(current, users[uid].passwordHash) {
        var newHash := enc.HashPassword(newPassword, salt);
        SameIdentityKeepsValid(users, nextId, uid, users[uid].(passwordHash := newHash, updatedAt := Some(now)));
        users := users[uid := users[uid].(passwordHash := newHash, updatedAt := Some(now))];
        return Response(true, PasswordChanged);
      }
      r := Response(false, CurrentPasswordIncorrect);
    }

    /**
     * `updateProfile`: behind the authentication check, the shared shape checks and
     * then the uniqueness checks against every other user; on success the caller's
     * row (if it still exists) and the session's copies of username and email are
     * updated, and no other row changes.
     */
    method UpdateProfile(username: string, email: string, now: int) returns (r: Response)
      requires Valid()
      modifies this
      ensures Valid() && nextId == old(nextId)
      ensures var checked := CheckSession(old(session), now);
        if !checked.0 then
          r == Response(false, NotAuthenticated) && users == old(users) && session == checked.1
        else
          var uid, u, e := checked.1.userId, NormUsername(username), NormEmail(email);
          match ProfileError(old(users), validEmail, uid, username, email)
          case Some(msg) => r == Response(false, msg) && users == old(users) && session == checked.1
          case None =>
            && r == Response(true, ProfileUpdated)
            && users == (if uid in old(users)
                         then old(users)[uid := old(users)[uid].(username := u, email := e, updatedAt := Some(now))]
                         else old(users))
            && session == checked.1.(username := u, email := e)
    {
      var ok := IsAuthenticated(now);
      if !ok {
        return Response(false, NotAuthenticated);
      }
      var uid := session.userId;
      var u, e := NormUsername(username), NormEmail(email);
      var err := ProfileError(users, validEmail, uid, username, email);
      if err.Some? {
        return Response(false, err.value);
      }
      ToLowerIdempotent(Trim(email));
      if uid in users {
        var user := users[uid].(username := u, email := e, updatedAt := Some(now));
        forall k | k in users && k != uid
          ensures k !in UsernameOwners(users, u) && k !in EmailOwners(users, e)
        {
          assert k !in UsernameOwners(users, u) - {uid} && k !in EmailOwners(users, e) - {uid};
        }
        ReplaceUserKeepsValid(users, nextId, uid, user);
        users := users[uid := user];
      }
      session := session.(username := u, email := e);
      r := Response(true, ProfileUpdated);
    }
  }
}
