/** Session authentication with a time to live: each session remembers
    when it was created, and a lookup made too late finds nothing.
    Time is a whole number of seconds passed in as `now`. */
module SessionExpiry {
  import opened Wrappers
  import opened Web

  /** The dictionary stored per session: its user and, normally, its
      creation time (a hand-made entry may lack one). */
  datatype SessionEntry = SessionEntry(userId: string, createdAt: Option<int>)

  /** Whether an entry may still be used at `now`. A duration of zero or
      less switches expiry off; otherwise the session lives up to and
      including `createdAt + duration`, and an entry without a creation
      time never qualifies. */
  predicate Unexpired(createdAt: Option<int>, duration: int, now: int)
  {
    duration <= 0 || (createdAt.Some? && now <= createdAt.value + duration)
  }

  /** The expiry-aware lookup over the session dictionary. */
  function ExpLookup(sessions: map<string, SessionEntry>, duration: int, sessionId: Value, now: int): (r: Option<string>)
    ensures r.Some? <==> sessionId.Str? && sessionId.s in sessions &&
                         Unexpired(sessions[sessionId.s].createdAt, duration, now)
    ensures r.Some? ==> r.value == sessions[sessionId.s].userId
  {
    if sessionId.Null? then None
    else if !sessionId.Str? || sessionId.s !in sessions then None
    else
      var entry := sessions[sessionId.s];
      if duration <= 0 then Some(entry.userId)
      else if entry.createdAt.None? then None
      else if entry.createdAt.value + duration < now then None
      else Some(entry.userId)
  }

  /** With expiry switched off, the time of the lookup does not matter. */
  lemma DisabledExpiryIgnoresTime(sessions: map<string, SessionEntry>, duration: int, sessionId: Value, t1: int, t2: int)
    requires duration <= 0
    ensures ExpLookup(sessions, duration, sessionId, t1) == ExpLookup(sessions, duration, sessionId, t2)
  {
  }

  /** An expired session stays expired: whatever resolves at a later time
      resolved, to the same user, at every earlier time. */
  lemma ExpiryIsMonotone(sessions: map<string, SessionEntry>, duration: int, sessionId: Value, t1: int, t2: int)
    requires t1 <= t2
    ensures ExpLookup(sessions, duration, sessionId, t2).Some? ==>
              ExpLookup(sessions, duration, sessionId, t1) == ExpLookup(sessions, duration, sessionId, t2)
  {
  }

  /** For a session created at `t` with a positive duration `d`, the last
      second at which it resolves is `t + d` itself; one second later it
      is gone. */
  lemma ExpiryBoundary(sessions: map<string, SessionEntry>, sid: string, d: int, t: int)
    requires sid in sessions && sessions[sid].createdAt == Some(t) && d > 0
    ensures ExpLookup(sessions, d, Str(sid), t + d) == Some(sessions[sid].userId)
    ensures ExpLookup(sessions, d, Str(sid), t + d + 1).None?
  {
  }

  class SessionExpAuth {
    /** The session dictionary, one entry per live or expired session. */
    var sessions: map<string, SessionEntry>
    /** The time to live in seconds, read once at construction. */
    const sessionDuration: int
    const sessionName: string

    /** `durationSetting` is the `SESSION_DURATION` setting, already read as
        an integer; when it is unset the duration is 0. */
    constructor (durationSetting: Option<int>, sessionName: string)
      ensures sessions == map[] && this.sessionName == sessionName
      ensures sessionDuration == if durationSetting.Some? then durationSetting.value else 0
    {
      sessions := map[];
      sessionDuration := if durationSetting.Some? then durationSetting.value else 0;
      this.sessionName := sessionName;
    }

    /** The user a session id resolves to at time `now`. */
    function UserIdForSessionId(sessionId: Value, now: int): (r: Option<string>)
      reads this
      ensures r.Some? <==> sessionId.Str? && sessionId.s in sessions &&
                           Unexpired(sessions[sessionId.s].createdAt, sessionDuration, now)
      ensures r.Some? ==> r.value == sessions[sessionId.s].userId
    {
      ExpLookup(sessions, sessionDuration, sessionId, now)
    }

    /** Creates a session stamped with the current time. A non-string user
        id is refused, as in the in-memory store, and adds nothing. */
    method CreateSession(userId: Value, freshId: string, now: int) returns (r: Option<string>)
      modifies this
      ensures r == if userId.Str? then Some(freshId) else None
      ensures sessions ==
                if userId.Str? then old(sessions)[freshId := SessionEntry(userId.s, Some(now))] else old(sessions)
      // the round trip holds for as long as the session lives
      ensures r.Some? ==> forall later :: now <= later <= now + sessionDuration ==>
                            UserIdForSessionId(Str(r.value), later) == Some(userId.s)
      ensures r.Some? && sessionDuration <= 0 ==> forall later :: UserIdForSessionId(Str(r.value), later) == Some(userId.s)
    {
      if userId.Null? || !userId.Str? {
        return None;
      }
      sessions := sessions[freshId := SessionEntry(userId.s, Some(now))];
      r := Some(freshId);
    }

    /** The inherited logout: it asks the expiry-aware lookup, so an
        expired session is reported as not found and its entry stays. */
    method DestroySession(request: Option<Request>, now: int) returns (ok: bool)
      modifies this
      ensures ok <==> request.Some? && SessionCookie(request, sessionName).Some? &&
                      old(UserIdForSessionId(Str(SessionCookie(request, sessionName).value), now)).Some?
      ensures ok ==> sessions == old(sessions) - {SessionCookie(request, sessionName).value}
      ensures !ok ==> sessions == old(sessions)
      ensures ok ==> forall t :: UserIdForSessionId(Str(SessionCookie(request, sessionName).value), t).None?
    {
      if request.None? {
        return false;
      }
      var sessionId := SessionCookie(request, sessionName);
      if sessionId.None? {
        return false;
      }
      var userId := UserIdForSessionId(Str(sessionId.value), now);
      if userId.None? {
        return false;
      }
      sessions := sessions - {sessionId.value};
      ok := true;
    }
  }

  /** A session created at `t` with duration `d > 0`: still valid at
      `t + d`, expired at `t + d + 1`, and then logout fails and leaves the
      entry in the dictionary. */
  method ExpiredLogout(auth: SessionExpAuth, user: string, freshId: string, t: int)
      returns (atBoundary: Option<string>, afterBoundary: Option<string>, loggedOut: bool)
    requires auth.sessionDuration > 0
    modifies auth
    ensures atBoundary == Some(user) && afterBoundary.None? && !loggedOut
    ensures freshId in auth.sessions
  {
    var sid := auth.CreateSession(Str(user), freshId, t);
    atBoundary := auth.UserIdForSessionId(Str(sid.value), t + auth.sessionDuration);
    afterBoundary := auth.UserIdForSessionId(Str(sid.value), t + auth.sessionDuration + 1);
    var request := Some(Request(map[], map[auth.sessionName := sid.value]));
    loggedOut := auth.DestroySession(request, t + auth.sessionDuration + 1);
  }
}
