/** Session authentication held in memory: a dictionary from session ids
    to user ids that `CreateSession` fills and `DestroySession` empties. */
module SessionAuthentication {
  import opened Wrappers
  import opened Web

  /** The lookup shared by the in-memory store: a string id that is a key
      of the dictionary resolves to its user id, nothing else resolves. */
  function LookupUserId(userIdBySessionId: map<string, string>, sessionId: Value): (r: Option<string>)
    ensures r.Some? <==> sessionId.Str? && sessionId.s in userIdBySessionId
    ensures r.Some? ==> r.value == userIdBySessionId[sessionId.s]
  {
    if sessionId.Null? || !sessionId.Str? then None
    else if sessionId.s in userIdBySessionId then Some(userIdBySessionId[sessionId.s])
    else None
  }

  class SessionAuth {
    /** The session dictionary: a class attribute of the Python class
        (one dictionary for the whole process), here one store object. */
    var userIdBySessionId: map<string, string>
    /** The name of the session cookie. */
    const sessionName: string

    constructor (sessionName: string)
      ensures userIdBySessionId == map[] && this.sessionName == sessionName
    {
      userIdBySessionId := map[];
      this.sessionName := sessionName;
    }

    /** The user id a session id resolves to; the dictionary is only read. */
    function UserIdForSessionId(sessionId: Value): (r: Option<string>)
      reads this
      ensures r.Some? <==> sessionId.Str? && sessionId.s in userIdBySessionId
      ensures r.Some? ==> r.value == userIdBySessionId[sessionId.s]
    {
      LookupUserId(userIdBySessionId, sessionId)
    }

    /** Binds the id `freshId` (the new random UUID) to a string user id.
        Anything but a string is refused and changes nothing. The id is
        written without checking for a collision. */
    method CreateSession(userId: Value, freshId: string) returns (r: Option<string>)
      modifies this
      ensures r == if userId.Str? then Some(freshId) else None
      ensures userIdBySessionId ==
                if userId.Str? then old(userIdBySessionId)[freshId := userId.s] else old(userIdBySessionId)
      // the round trip: the returned id resolves to the user it was made for
      ensures r.Some? ==> UserIdForSessionId(Str(r.value)) == Some(userId.s)
      // a fresh id adds exactly one key
      ensures r.Some? && freshId !in old(userIdBySessionId) ==>
                userIdBySessionId.Keys == old(userIdBySessionId).Keys + {freshId} &&
                |userIdBySessionId| == |old(userIdBySessionId)| + 1
    {
      if userId.Null? || !userId.Str? {
        return None;
      }
      userIdBySessionId := userIdBySessionId[freshId := userId.s];
      r := Some(freshId);
    }

    /** Logs out: the session named by the request's cookie is deleted when
        it resolves to a user. */
    method DestroySession(request: Option<Request>) returns (ok: bool)
      modifies this
      ensures ok <==> request.Some? && SessionCookie(request, sessionName).Some? &&
                      old(UserIdForSessionId(Str(SessionCookie(request, sessionName).value))).Some?
      ensures ok ==> userIdBySessionId == old(userIdBySessionId) - {SessionCookie(request, sessionName).value}
      ensures !ok ==> userIdBySessionId == old(userIdBySessionId)
      // once destroyed, the id no longer resolves, so a second call fails
      ensures ok ==> UserIdForSessionId(Str(SessionCookie(request, sessionName).value)).None?
    {
      if request.None? {
        return false;
      }
      var sessionId := SessionCookie(request, sessionName);
      if sessionId.None? {
        return false;
      }
      var userId := UserIdForSessionId(Str(sessionId.value));
      if userId.None? {
        return false;
      }
      userIdBySessionId := userIdBySessionId - {sessionId.value};
      ok := true;
    }
  }

  /** Create, look up, destroy, destroy again: the session resolves to its
      user until it is destroyed, and only the first destroy succeeds. */
  method Lifecycle(auth: SessionAuth, user: string, freshId: string)
      returns (resolved: Option<string>, first: bool, second: bool, after: Option<string>)
    modifies auth
    ensures resolved == Some(user) && first && !second && after.None?
  {
    var sid := auth.CreateSession(Str(user), freshId);
    resolved := auth.UserIdForSessionId(Str(sid.value));
    var request := Some(Request(map[], map[auth.sessionName := sid.value]));
    first := auth.DestroySession(request);
    second := auth.DestroySession(request);
    after := auth.UserIdForSessionId(Str(sid.value));
  }
}
