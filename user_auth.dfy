/** The user-authentication service: registration, login, sessions and
    password reset over a table of users. The table is the sequence
    `users`; a user's id is its position plus one, as an auto-increment
    key gives. Hashing is a parameter `Hasher`: `hash(p, salt)` stands for
    `bcrypt.hashpw` with the random salt `salt`, `checkpw` for
    `bcrypt.checkpw`. New session ids and reset tokens (random UUIDs) and
    salts are passed in. */
module UserAuthService {
  import opened Wrappers

  type Digest = string
  type Salt = nat

  datatype Hasher = Hasher(hash: (string, Salt) -> Digest, checkpw: (string, Digest) -> bool)

  /** The password a digest was made from is accepted by it. */
  ghost predicate Sound(h: Hasher)
  {
    forall p, s :: h.checkpw(p, h.hash(p, s))
  }

  datatype User = User(id: int, email: string, hashedPassword: Digest, sessionId: Option<string>, resetToken: Option<string>)

  /** The keyword argument given to `find_user_by`. A column compared
      with `None` matches the users whose column is unset. */
  datatype Filter =
    | ById(id: int)
    | ByEmail(email: string)
    | BySessionId(sessionId: string)
    | ByResetToken(resetToken: Option<string>)

  predicate Matches(u: User, f: Filter)
  {
    match f
    case ById(id) => u.id == id
    case ByEmail(e) => u.email == e
    case BySessionId(s) => u.sessionId == Some(s)
    case ByResetToken(t) => u.resetToken == t
  }

  /** `find_user_by`: the position of the first user the filter matches,
      or `None` for `NoResultFound`. */
  function FindUserBy(users: seq<User>, f: Filter): (r: Option<nat>)
    ensures r.Some? ==> r.value < |users| && Matches(users[r.value], f)
    ensures r.Some? ==> forall k :: 0 <= k < r.value ==> !Matches(users[k], f)
    ensures r.None? ==> forall k :: 0 <= k < |users| ==> !Matches(users[k], f)
  {
    if users == [] then None
    else if Matches(users[0], f) then Some(0)
    else
      match FindUserBy(users[1..], f)
      case None => None
      case Some(k) => Some(k + 1)
  }

  /** `update_password` as written: it looks the token up without
      checking it, so a missing token (`None`) is compared with the
      column and matches the first user that has no reset token. */
  function ResetTargetAsWritten(users: seq<User>, resetToken: Option<string>): (r: Option<nat>)
    ensures r.Some? ==> r.value < |users| && users[r.value].resetToken == resetToken
  {
    FindUserBy(users, ByResetToken(resetToken))
  }

  /** On any table: a request without a token picks the first user who
      has no reset token, whenever there is one. */
  lemma MissingTokenPicksFirstUnsetUser(users: seq<User>, k: nat)
    requires k < |users| && users[k].resetToken.None?
    ensures ResetTargetAsWritten(users, None).Some?
    ensures var i := ResetTargetAsWritten(users, None).value;
            i <= k && users[i].resetToken.None? && forall j :: 0 <= j < i ==> users[j].resetToken.Some?
  {
  }

  /** The lookup `update_password` is meant to make: only a token that was
      issued selects a user. */
  function ResetTarget(users: seq<User>, resetToken: Option<string>): (r: Option<nat>)
    ensures r.Some? ==> resetToken.Some? && r.value < |users| && users[r.value].resetToken == resetToken
    ensures resetToken.Some? ==> r == ResetTargetAsWritten(users, resetToken)
  {
    if resetToken.None? then None else FindUserBy(users, ByResetToken(resetToken))
  }

  /** Emails, session ids and reset tokens each belong to one user. */
  ghost predicate Unique(users: seq<User>)
  {
    && (forall i, j :: 0 <= i < j < |users| ==> users[i].email != users[j].email)
    && (forall i, j :: 0 <= i < j < |users| && users[i].sessionId.Some? ==> users[i].sessionId != users[j].sessionId)
    && (forall i, j :: 0 <= i < j < |users| && users[i].resetToken.Some? ==> users[i].resetToken != users[j].resetToken)
  }

  /** Unsetting a user's session id keeps the table unique. */
  lemma ClearSessionKeepsUnique(users: seq<User>, i: nat)
    requires Unique(users) && i < |users|
    ensures Unique(users[i := users[i].(sessionId := None)])
  {
  }

  class Auth {
    var users: seq<User>
    const hasher: Hasher

    ghost predicate Valid()
      reads this
    {
      (forall i :: 0 <= i < |users| ==> users[i].id == i + 1) && Unique(users)
    }

    constructor (hasher: Hasher)
      ensures Valid() && users == [] && this.hasher == hasher
    {
      users := [];
      this.hasher := hasher;
    }

    /** Whether the password is that of the user with this email. */
    function ValidLogin(email: string, password: string): (r: bool)
      reads this
      requires Valid()
      ensures r <==> exists i :: 0 <= i < |users| && users[i].email == email &&
                                hasher.checkpw(password, users[i].hashedPassword)
    {
      match FindUserBy(users, ByEmail(email))
      case None => false
      case Some(i) =>
        assert forall j :: 0 <= j < |users| && users[j].email == email ==> j == i;
        hasher.checkpw(password, users[i].hashedPassword)
    }

    /** The user holding this session id; an empty or missing id is
        refused before the table is searched. */
    function GetUserFromSessionId(sessionId: Option<string>): (r: Option<User>)
      reads this
      ensures sessionId.None? || sessionId == Some("") ==> r.None?
      ensures r.Some? ==> r.value in users && r.value.sessionId == sessionId
      ensures r.None? && sessionId.Some? && sessionId.value != "" ==>
                forall k :: 0 <= k < |users| ==> users[k].sessionId != sessionId
    {
      if sessionId.None? || sessionId.value == "" then None
      else
        match FindUserBy(users, BySessionId(sessionId.value))
        case None => None
        case Some(i) => Some(users[i])
    }

    /** Adds a user with the hash of the password, unless the email is
        already registered, which raises `ValueError`. */
    method RegisterUser(email: string, password: string, salt: Salt) returns (r: Result<User>)
      requires Valid()
      modifies this
      ensures Valid()
      ensures FindUserBy(old(users), ByEmail(email)).Some? ==> r == Failure(ValueError) && users == old(users)
      ensures FindUserBy(old(users), ByEmail(email)).None? ==>
                r == Success(User(|old(users)| + 1, email, hasher.hash(password, salt), None, None)) &&
                users == old(users) + [r.value]
      ensures r.Success? && Sound(hasher) ==> ValidLogin(email, password)
    {
      var found := FindUserBy(users, ByEmail(email));
      if found.Some? {
        return Failure(ValueError);
      }
      var user := User(|users| + 1, email, hasher.hash(password, salt), None, None);
      users := users + [user];
      r := Success(user);
      assert users[|users| - 1] == user;
    }

    /** Stores the fresh session id `freshId` on the user with this email
        and returns it; an unknown email gives `None`. */
    method CreateSession(email: string, freshId: string) returns (r: Option<string>)
      requires Valid()
      requires freshId != "" && forall k :: 0 <= k < |users| ==> users[k].sessionId != Some(freshId)
      modifies this
      ensures Valid()
      ensures FindUserBy(old(users), ByEmail(email)).None? ==> r.None? && users == old(users)
      ensures FindUserBy(old(users), ByEmail(email)).Some? ==>
                var i := FindUserBy(old(users), ByEmail(email)).value;
                r == Some(freshId) && users == old(users)[i := old(users)[i].(sessionId := Some(freshId))]
      // the new id resolves to that user
      ensures r.Some? ==> GetUserFromSessionId(r).Some? && GetUserFromSessionId(r).value.email == email
    {
      var found := FindUserBy(users, ByEmail(email));
      if found.None? {
        return None;
      }
      var i := found.value;
      users := users[i := users[i].(sessionId := Some(freshId))];
      r := Some(freshId);
      assert users[i].sessionId == Some(freshId);
    }

    /** Unsets the session id of the user with this id, when the id is
        truthy (present and not 0); an id no user has changes nothing. */
    method DestroySession(userId: Option<int>)
      requires Valid()
      modifies this
      ensures Valid()
      ensures userId.Some? && userId.value != 0 && FindUserBy(old(users), ById(userId.value)).Some? ==>
                var i := FindUserBy(old(users), ById(userId.value)).value;
                users == old(users)[i := old(users)[i].(sessionId := None)]
      ensures !(userId.Some? && userId.value != 0 && FindUserBy(old(users), ById(userId.value)).Some?) ==>
                users == old(users)
      // the session id that user held resolves no more
      ensures userId.Some? && userId.value != 0 && FindUserBy(old(users), ById(userId.value)).Some? ==>
                GetUserFromSessionId(old(users)[FindUserBy(old(users), ById(userId.value)).value].sessionId).None?
    {
      if userId.Some? && userId.value != 0 {
        var found := FindUserBy(users, ById(userId.value));
        if found.Some? {
          var i := found.value;
          ClearSessionKeepsUnique(users, i);
          users := users[i := users[i].(sessionId := None)];
        }
      }
    }

    /** Stores the fresh token `freshToken` on the user with this email and
        returns it; an unknown email raises `ValueError`. */
    method GetResetPasswordToken(email: string, freshToken: string) returns (r: Result<string>)
      requires Valid()
      requires forall k :: 0 <= k < |users| ==> users[k].resetToken != Some(freshToken)
      modifies this
      ensures Valid()
      ensures FindUserBy(old(users), ByEmail(email)).None? ==> r == Failure(ValueError) && users == old(users)
      ensures FindUserBy(old(users), ByEmail(email)).Some? ==>
                var i := FindUserBy(old(users), ByEmail(email)).value;
                r == Success(freshToken) && users == old(users)[i := old(users)[i].(resetToken := Some(freshToken))]
      ensures r.Success? ==> ResetTarget(users, Some(freshToken)) == FindUserBy(users, ByEmail(email))
    {
      var found := FindUserBy(users, ByEmail(email));
      if found.None? {
        return Failure(ValueError);
      }
      var i := found.value;
      users := users[i := users[i].(resetToken := Some(freshToken))];
      r := Success(freshToken);
      assert users[i].resetToken == Some(freshToken);
      assert users[i].email == email;
    }

    /** Replaces the password of the user holding the token and unsets the
        token; a token no user holds, or no token at all, raises
        `ValueError`. The refusal of a missing token is the correction
        recorded in README.md; `ResetTargetAsWritten` is the lookup as
        written. */
    method UpdatePassword(resetToken: Option<string>, password: string, salt: Salt) returns (r: Result<()>)
      requires Valid()
      modifies this
      ensures Valid()
      ensures ResetTarget(old(users), resetToken).None? ==> r == Failure(ValueError) && users == old(users)
      ensures ResetTarget(old(users), resetToken).Some? ==>
                var i := ResetTarget(old(users), resetToken).value;
                r == Success(()) &&
                users == old(users)[i := old(users)[i].(hashedPassword := hasher.hash(password, salt), resetToken := None)]
      // the new password works, and the token works only once
      ensures r.Success? && Sound(hasher) ==>
                ValidLogin(old(users)[ResetTarget(old(users), resetToken).value].email, password)
      ensures r.Success? ==> ResetTarget(users, resetToken).None?
    {
      var found := ResetTarget(users, resetToken);
      if found.None? {
        return Failure(ValueError);
      }
      var i := found.value;
      users := users[i := users[i].(hashedPassword := hasher.hash(password, salt), resetToken := None)];
      r := Success(());
      assert users[i].hashedPassword == hasher.hash(password, salt);
    }
  }

  /** The first half of the end-to-end run of the service: register, a
      wrong password is refused, log in, the session finds the profile,
      log out, and the session id resolves no more. */
  method LoginLogout(hasher: Hasher, email: string, passwd: string, wrongPasswd: string, sessionId: string, salt: Salt)
      returns (registered: bool, wrongRefused: bool, loggedIn: bool, profile: bool, loggedOut: bool)
    requires Sound(hasher) && sessionId != ""
    // bcrypt tells these two passwords apart
    requires forall s :: !hasher.checkpw(wrongPasswd, hasher.hash(passwd, s))
    ensures registered && wrongRefused && loggedIn && profile && loggedOut
  {
    var auth := new Auth(hasher);
    var user := auth.RegisterUser(email, passwd, salt);
    var u := User(1, email, hasher.hash(passwd, salt), None, None);
    assert auth.users == [u];
    registered := user.Success?;
    assert !hasher.checkpw(wrongPasswd, u.hashedPassword);
    wrongRefused := !auth.ValidLogin(email, wrongPasswd);
    assert hasher.checkpw(passwd, u.hashedPassword);
    loggedIn := auth.ValidLogin(email, passwd);

    var sid := auth.CreateSession(email, sessionId);
    assert auth.users == [u.(sessionId := Some(sessionId))];
    var holder := auth.GetUserFromSessionId(sid);
    profile := holder.Some? && holder.value.email == email;
    auth.DestroySession(Some(1));
    assert auth.users == [u];
    loggedOut := auth.GetUserFromSessionId(sid).None?;
  }

  /** The second half: ask for a reset token, change the password with it,
      the same token is refused a second time, and only the new password
      logs in. */
  method PasswordReset(hasher: Hasher, email: string, passwd: string, newPasswd: string,
                       resetToken: string, salt1: Salt, salt2: Salt)
      returns (reset: bool, reuseRefused: bool, newLogin: bool, oldRefused: bool)
    requires Sound(hasher)
    // bcrypt tells these two passwords apart
    requires forall s :: !hasher.checkpw(passwd, hasher.hash(newPasswd, s))
    ensures reset && reuseRefused && newLogin && oldRefused
  {
    var auth := new Auth(hasher);
    var user := auth.RegisterUser(email, passwd, salt1);
    var u := User(1, email, hasher.hash(passwd, salt1), None, None);
    assert auth.users == [u];

    var token := auth.GetResetPasswordToken(email, resetToken);
    assert auth.users == [u.(resetToken := Some(resetToken))];
    var updated := auth.UpdatePassword(Some(token.value), newPasswd, salt2);
    var v := u.(hashedPassword := hasher.hash(newPasswd, salt2));
    assert auth.users == [v];
    reset := updated.Success?;
    var again := auth.UpdatePassword(Some(token.value), newPasswd, salt2);
    reuseRefused := again == Failure(ValueError);
    assert hasher.checkpw(newPasswd, v.hashedPassword);
    newLogin := auth.ValidLogin(email, newPasswd);
    assert !hasher.checkpw(passwd, v.hashedPassword);
    oldRefused := !auth.ValidLogin(email, passwd);
  }
}
