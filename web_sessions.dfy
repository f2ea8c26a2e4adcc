/**
 * The web console's session registrar (`WebSessionManager`): a map from session id to session,
 * where a session older than two weeks is evicted the first time it is looked up after expiring.
 *
 * The GUID generator and the clock are parameters: `newSession` receives the fresh id and the
 * current time, `getSession` the current time.
 */
module WebSessions {
  import opened Wrappers
  import opened InstanceTypes

  /** Two weeks in milliseconds (`SESSION_LIFE_IN_MILLIS`). */
  const SESSION_LIFE_IN_MILLIS: Int64 := 1209600000

  /** The lifetime is computed as an `int` product of literals; that product does not overflow. */
  lemma LifetimeIsTwoWeeks()
    ensures 2 * 7 * 24 * 60 * 60 * 1000 == SESSION_LIFE_IN_MILLIS as int
    ensures -0x8000_0000 <= 2 * 7 * 24 * 60 * 60 * 1000 < 0x8000_0000
  {
  }

  /** A session record: its id, who it belongs to, and its creation and last-access times in ms. */
  datatype WebSession = WebSession(
    id: string,
    userName: string,
    accountName: string,
    creationTime: Int64,
    lastAccessTime: Int64)

  /**
   * The age test of `getSession`: the `long` difference of the clock and the creation time.
   * When that difference does not overflow, a session is expired exactly when it is older than
   * the lifetime.
   */
  function Expired(s: WebSession, now: Int64): (r: bool)
    ensures -0x8000_0000_0000_0000 <= now as int - s.creationTime as int < 0x8000_0000_0000_0000 ==>
      (r <==> now as int - s.creationTime as int > SESSION_LIFE_IN_MILLIS as int)
  {
    Wrap64(now as int - s.creationTime as int) > SESSION_LIFE_IN_MILLIS as int
  }

  /** The registrar after `newSession`: the new record stored under its id. */
  function WithNewSession(sessions: map<string, WebSession>, id: string, user: string, account: string, now: Int64): (r: map<string, WebSession>)
    ensures r.Keys == sessions.Keys + {id}
    ensures r[id].id == id && r[id].userName == user && r[id].accountName == account
    ensures r[id].creationTime == now && r[id].lastAccessTime == now
    ensures forall k :: k in sessions && k != id ==> r[k] == sessions[k]
  {
    sessions[id := WebSession(id, user, account, now, now)]
  }

  /**
   * `getSession(id)` at time `now`: what it returns, and the registrar afterwards. A `None` id
   * stands for `null`, which is never a key because every key is a generated GUID.
   */
  function LookupSession(sessions: map<string, WebSession>, id: Option<string>, now: Int64): (r: (Option<WebSession>, map<string, WebSession>))
    ensures r.0.Some? <==> id.Some? && id.value in sessions && !Expired(sessions[id.value], now)
    ensures r.0.Some? ==> r.0.value == sessions[id.value] && r.1 == sessions
    ensures r.1 == if id.Some? && id.value in sessions && Expired(sessions[id.value], now)
      then map k | k in sessions && k != id.value :: sessions[k] else sessions
  {
    match id
    case None => (None, sessions)
    case Some(key) =>
      if key !in sessions then (None, sessions)
      else if Expired(sessions[key], now) then (None, sessions - {key})
      else (Some(sessions[key]), sessions)
  }

  /** `removeSession(id)`: a `null` id is ignored; otherwise that key, if present, is removed. */
  function WithoutSession(sessions: map<string, WebSession>, id: Option<string>): (r: map<string, WebSession>)
    ensures id.None? ==> r == sessions
    ensures id.Some? ==> r.Keys == sessions.Keys - {id.value}
    ensures forall k :: k in r ==> k in sessions && r[k] == sessions[k]
  {
    match id
    case None => sessions
    case Some(key) => sessions - {key}
  }

  /** A session created at `now` is returned by every lookup within its lifetime, the boundary included. */
  lemma FreshSessionFound(sessions: map<string, WebSession>, id: string, user: string, account: string, now: Int64, later: Int64)
    requires now as int <= later as int <= now as int + SESSION_LIFE_IN_MILLIS as int
    ensures var created := WithNewSession(sessions, id, user, account, now);
      LookupSession(created, Some(id), later) == (Some(WebSession(id, user, account, now, now)), created)
  {
    assert Wrap64(later as int - now as int) == later as int - now as int;
  }

  /**
   * A session created at `now` is gone after the first lookup past its lifetime, and only it is
   * dropped, as long as the age still fits in a `long`.
   */
  lemma StaleSessionEvicted(sessions: map<string, WebSession>, id: string, user: string, account: string, now: Int64, later: Int64)
    requires now as int + SESSION_LIFE_IN_MILLIS as int < later as int
    requires later as int - now as int < 0x8000_0000_0000_0000
    ensures var created := WithNewSession(sessions, id, user, account, now);
      LookupSession(created, Some(id), later) == (None, sessions - {id})
  {
    assert Wrap64(later as int - now as int) == later as int - now as int;
    var created := WithNewSession(sessions, id, user, account, now);
    assert created - {id} == sessions - {id};
  }

  /** An age that overflows a `long` wraps to a negative difference, so such a session is not expired. */
  lemma OverflowedAgeNotExpired()
    ensures !Expired(WebSession("g", "admin", "eucalyptus", -0x8000_0000_0000_0000, 0), 0x7fff_ffff_ffff_ffff)
  {
    assert Wrap64(0x7fff_ffff_ffff_ffff - (-0x8000_0000_0000_0000)) == -1;
  }

  /** Once a lookup found nothing, looking the same id up again finds nothing and changes nothing. */
  lemma MissStaysMissing(sessions: map<string, WebSession>, id: Option<string>, now: Int64, later: Int64)
    requires LookupSession(sessions, id, now).0.None?
    ensures var after := LookupSession(sessions, id, now).1;
      LookupSession(after, id, later) == (None, after)
  {
  }

  /** After `removeSession(id)`, `getSession(id)` finds nothing. */
  lemma RemovedNotFound(sessions: map<string, WebSession>, id: Option<string>, now: Int64)
    ensures var closed := WithoutSession(sessions, id);
      LookupSession(closed, id, now) == (None, closed)
  {
  }

  /** The registrar object; `sessions` is its `HashMap`. */
  class WebSessionManager {
    var sessions: map<string, WebSession>

    constructor()
      ensures sessions == map[]
    {
      sessions := map[];
    }

    /** `newSession(userName, accountName)` with the generated `id` and the clock reading `now`. */
    method NewSession(user: string, account: string, id: string, now: Int64) returns (r: string)
      modifies this
      ensures r == id
      ensures sessions == WithNewSession(old(sessions), id, user, account, now)
    {
      var session := WebSession(id, user, account, now, now);
      sessions := sessions[id := session];
      r := id;
    }

    /** `getSession(id)` with the clock reading `now`. */
    method GetSession(id: Option<string>, now: Int64) returns (r: Option<WebSession>)
      modifies this
      ensures (r, sessions) == LookupSession(old(sessions), id, now)
    {
      r := if id.Some? && id.value in sessions then Some(sessions[id.value]) else None;
      if r.Some? {
        if Wrap64(now as int - r.value.creationTime as int) > SESSION_LIFE_IN_MILLIS as int {
          sessions := sessions - {id.value};
          r := None;
        }
      }
    }

    method RemoveSession(id: Option<string>)
      modifies this
      ensures sessions == WithoutSession(old(sessions), id)
    {
      if id.Some? {
        sessions := sessions - {id.value};
      }
    }
  }
}
