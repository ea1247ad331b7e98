/** Session authentication backed by a durable store of `UserSession`
    records. Creation goes through the expiring store and then saves a
    record; lookup and logout consult only the records. The store's
    search and save may fail: `searchFails` and `saveFails` say whether
    they do on a given call. */
module SessionPersistence {
  import opened Wrappers
  import opened Web
  import opened SessionExpiry

  /** A persisted session. */
  datatype UserSession = UserSession(userId: string, sessionId: string, createdAt: int)

  /** The first record a search by session id returns (search keeps the
      store's order); a `None` or non-string id matches no record. */
  function FirstMatch(records: seq<UserSession>, sessionId: Value): (r: Option<nat>)
    ensures r.Some? ==> r.value < |records| && sessionId == Str(records[r.value].sessionId)
    ensures r.Some? ==> forall k :: 0 <= k < r.value ==> sessionId != Str(records[k].sessionId)
    ensures r.None? ==> forall k :: 0 <= k < |records| ==> sessionId != Str(records[k].sessionId)
  {
    if records == [] then None
    else if sessionId == Str(records[0].sessionId) then Some(0)
    else
      match FirstMatch(records[1..], sessionId)
      case None => None
      case Some(k) => Some(k + 1)
  }

  /** Whether a record resolves at `now`: there is no special case for a
      duration of zero or less, so such a record lives only while `now`
      is at most its creation time plus the duration. */
  predicate RecordLive(record: UserSession, duration: int, now: int)
  {
    now <= record.createdAt + duration
  }

  /** The lookup against the durable store. */
  function DbLookup(records: seq<UserSession>, duration: int, sessionId: Value, now: int, searchFails: bool): (r: Option<string>)
    ensures searchFails ==> r.None?
    ensures r.Some? <==> !searchFails && FirstMatch(records, sessionId).Some? &&
                         RecordLive(records[FirstMatch(records, sessionId).value], duration, now)
    ensures r.Some? ==> r.value == records[FirstMatch(records, sessionId).value].userId
  {
    if searchFails then None
    else
      var found := FirstMatch(records, sessionId);
      if found.None? then None
      else
        var session := records[found.value];
        if session.createdAt + duration < now then None
        else Some(session.userId)
  }

  /** Expiry against the durable store is never switched off: with a
      duration of 0 the record stops resolving one second after it was
      made, while the in-memory dictionary keeps resolving it. */
  lemma ZeroDurationDiffers(userId: string, sid: string, t: int)
    ensures DbLookup([UserSession(userId, sid, t)], 0, Str(sid), t, false) == Some(userId)
    ensures DbLookup([UserSession(userId, sid, t)], 0, Str(sid), t + 1, false).None?
    ensures ExpLookup(map[sid := SessionEntry(userId, Some(t))], 0, Str(sid), t + 1) == Some(userId)
  {
  }

  /** The records without the one at index `i`. */
  function RemoveAt(records: seq<UserSession>, i: nat): (r: seq<UserSession>)
    requires i < |records|
    ensures |r| == |records| - 1
    ensures forall k :: 0 <= k < i ==> r[k] == records[k]
    ensures forall k :: i <= k < |r| ==> r[k] == records[k + 1]
  {
    records[..i] + records[i + 1..]
  }

  /** Session ids held by at most one record. */
  predicate UniqueSessionIds(records: seq<UserSession>)
  {
    forall i, j :: 0 <= i < j < |records| ==> records[i].sessionId != records[j].sessionId
  }

  /** Removing the first record for a session id that only one record
      holds leaves no record for it: the id no longer resolves. */
  lemma RemovedSessionIsGone(records: seq<UserSession>, sessionId: Value)
    requires UniqueSessionIds(records)
    requires FirstMatch(records, sessionId).Some?
    ensures FirstMatch(RemoveAt(records, FirstMatch(records, sessionId).value), sessionId).None?
  {
    var i := FirstMatch(records, sessionId).value;
    var rest := RemoveAt(records, i);
    forall k | 0 <= k < |rest|
      ensures sessionId != Str(rest[k].sessionId)
    {
      if k >= i {
        assert rest[k] == records[k + 1];
        assert records[i].sessionId != records[k + 1].sessionId;
      }
    }
  }

  /** Appending a record for an id no record holds keeps the ids unique. */
  lemma AppendFreshKeepsUnique(records: seq<UserSession>, session: UserSession)
    requires UniqueSessionIds(records)
    requires FirstMatch(records, Str(session.sessionId)).None?
    ensures UniqueSessionIds(records + [session])
  {
    var all := records + [session];
    forall i, j | 0 <= i < j < |all|
      ensures all[i].sessionId != all[j].sessionId
    {
      if j == |records| {
        assert Str(session.sessionId) != Str(records[i].sessionId);
      }
    }
  }

  class SessionDBAuth {
    /** The expiring store this one extends: creation still records the
        session in its dictionary, and its duration applies here. */
    const exp: SessionExpAuth
    /** The durable `UserSession` records, in the store's order. */
    var records: seq<UserSession>

    /** The object is built over whatever the durable store already holds
        (`stored`): records saved before a restart are still found. */
    constructor (durationSetting: Option<int>, sessionName: string, stored: seq<UserSession>)
      ensures fresh(exp) && records == stored
      ensures exp.sessions == map[] && exp.sessionName == sessionName
      ensures exp.sessionDuration == if durationSetting.Some? then durationSetting.value else 0
    {
      exp := new SessionExpAuth(durationSetting, sessionName);
      records := stored;
    }

    /** The user a session id resolves to at `now`, read from the records. */
    function UserIdForSessionId(sessionId: Value, now: int, searchFails: bool): (r: Option<string>)
      reads this
      ensures searchFails ==> r.None?
      ensures r.Some? <==> !searchFails && FirstMatch(records, sessionId).Some? &&
                           RecordLive(records[FirstMatch(records, sessionId).value], exp.sessionDuration, now)
      ensures r.Some? ==> r.value == records[FirstMatch(records, sessionId).value].userId
    {
      DbLookup(records, exp.sessionDuration, sessionId, now, searchFails)
    }

    /** Creates the session in the expiring store and saves its record.
        A failing save is not caught: the exception escapes and the
        dictionary entry made just before stays; a failing save is taken
        to keep no record. */
    method CreateSession(userId: Value, freshId: string, now: int, saveFails: bool) returns (r: Result<Option<string>>)
      modifies this, exp
      ensures exp.sessions ==
                if userId.Str? then old(exp.sessions)[freshId := SessionEntry(userId.s, Some(now))] else old(exp.sessions)
      ensures !userId.Str? ==> r == Success(None) && records == old(records)
      ensures userId.Str? && saveFails ==> r == Failure(StorageError) && records == old(records)
      ensures userId.Str? && !saveFails ==>
                r == Success(Some(freshId)) && records == old(records) + [UserSession(userId.s, freshId, now)]
      // the round trip, for an id no record held and a non-negative duration
      ensures r == Success(Some(freshId)) && FirstMatch(old(records), Str(freshId)).None? && exp.sessionDuration >= 0 ==>
                UserIdForSessionId(Str(freshId), now, false) == Some(userId.s)
    {
      var sessionId := exp.CreateSession(userId, freshId, now);
      if sessionId.Some? {
        if saveFails {
          return Failure(StorageError);
        }
        var saved := records + [UserSession(userId.s, sessionId.value, now)];
        assert FirstMatch(records, Str(freshId)).None? ==> FirstMatch(saved, Str(freshId)) == Some(|records|) by {
          if FirstMatch(records, Str(freshId)).None? {
            FirstMatchOfAppended(records, UserSession(userId.s, freshId, now));
          }
        }
        records := saved;
        return Success(Some(sessionId.value));
      }
      r := Success(None);
    }

    /** Logs out by removing the first record for the request's session
      cookie, without looking at its age; the dictionary is not touched. */
    method DestroySession(request: Option<Request>, searchFails: bool) returns (ok: bool)
      modifies this
      ensures ok <==> !searchFails &&
                      FirstMatch(old(records), FromOption(SessionCookie(request, exp.sessionName))).Some?
      ensures ok ==> records == RemoveAt(old(records),
                                  FirstMatch(old(records), FromOption(SessionCookie(request, exp.sessionName))).value)
      ensures !ok ==> records == old(records)
    {
      var sessionId := FromOption(SessionCookie(request, exp.sessionName));
      if searchFails {
        return false;
      }
      var found := FirstMatch(records, sessionId);
      if found.None? {
        return false;
      }
      records := RemoveAt(records, found.value);
      ok := true;
    }
  }

  /** A record appended for an id no earlier record holds is the first
      match for that id. */
  lemma {:induction false} FirstMatchOfAppended(records: seq<UserSession>, session: UserSession)
    requires FirstMatch(records, Str(session.sessionId)).None?
    ensures FirstMatch(records + [session], Str(session.sessionId)) == Some(|records|)
  {
    if records != [] {
      assert (records + [session])[1..] == records[1..] + [session];
      FirstMatchOfAppended(records[1..], session);
    }
  }

  /** Create, let the session expire, log out, log out again: the record
      stops resolving after `created_at + duration`, logout still removes
      it (expiry is not consulted), and the second logout finds nothing. */
  method ExpiredLogout(db: SessionDBAuth, user: string, freshId: string, t: int)
      returns (created: Result<Option<string>>, expired: Option<string>, first: bool, second: bool)
    requires UniqueSessionIds(db.records)
    requires FirstMatch(db.records, Str(freshId)).None?
    modifies db, db.exp
    ensures created == Success(Some(freshId))
    ensures expired.None? && first && !second
  {
    created := db.CreateSession(Str(user), freshId, t, false);
    AppendFreshKeepsUnique(old(db.records), UserSession(user, freshId, t));
    FirstMatchOfAppended(old(db.records), UserSession(user, freshId, t));
    expired := db.UserIdForSessionId(Str(freshId), t + db.exp.sessionDuration + 1, false);
    var request := Some(Request(map[], map[db.exp.sessionName := freshId]));
    ghost var before := db.records;
    first := db.DestroySession(request, false);
    RemovedSessionIsGone(before, Str(freshId));
    second := db.DestroySession(request, false);
  }
}
