/**
 * The session manager: sessions by id and the id of the active one, which
 * should always name a stored session.
 *
 * The clean-up of idle sessions is given the current time in seconds.
 */
module SessionManagement {
  import opened Wrappers
  import opened Sessions

  /** The active id, if any, names one of the stored ids. */
  predicate ActiveIsKnown(ids: set<SessionId>, active: Option<SessionId>) {
    active.None? || active.value in ids
  }

  /**
   * `cleanup_idle`'s test for one session: idle for fewer whole minutes
   * (rounded toward zero) than the limit. For a last-used time in the
   * future the rounding makes up to 59 seconds count as zero.
   */
  predicate Keeps(idle: int, maxIdleMinutes: int)
    ensures Keeps(idle, maxIdleMinutes) <==>
      (if idle >= 0 then idle < 60 * maxIdleMinutes else idle <= 60 * maxIdleMinutes - 60)
  {
    WholeMinutes(idle) < maxIdleMinutes
  }

  /** The ids, among sessions last used at the given times, that a clean-up at `now` keeps. */
  function Survivors(lastUsed: map<SessionId, int>, now: int, maxIdleMinutes: int): (keep: set<SessionId>)
    ensures keep <= lastUsed.Keys
    ensures forall i :: i in lastUsed ==> (i in keep <==> Keeps(now - lastUsed[i], maxIdleMinutes))
  {
    set i | i in lastUsed && Keeps(now - lastUsed[i], maxIdleMinutes)
  }

  /** When each stored session was last used. */
  ghost function LastUsed(m: map<SessionId, Session>): (r: map<SessionId, int>)
    reads m.Values
    ensures r.Keys == m.Keys && forall i :: i in m ==> r[i] == m[i].lastUsed
  {
    map i | i in m :: m[i].lastUsed
  }

  /** The active id after a clean-up that keeps `keep`, as the program evidently intends. */
  function ActiveAfterCleanup(active: Option<SessionId>, keep: set<SessionId>): (r: Option<SessionId>)
    ensures ActiveIsKnown(keep, r)
    ensures active.Some? && active.value in keep ==> r == active
  {
    if active.Some? && active.value !in keep then None else active
  }

  /**
   * As written, the clean-up keeps the active id even when it removes the
   * active session: session 7, active and last used at 0 s, is idle for two
   * minutes at 120 s, so a one-minute limit removes it and leaves the
   * active id naming nothing.
   */
  lemma CleanupLeavesDanglingActive()
    ensures ActiveIsKnown({7}, Some(7))
    ensures !ActiveIsKnown(Survivors(map[7 := 0], 120, 1), Some(7))
  {
    assert !Keeps(120 - 0, 1);
  }

  /** The sessions a clean-up at `now` keeps, each under its old id. */
  function Kept(m: map<SessionId, Session>, maxIdleMinutes: int, now: int): (r: map<SessionId, Session>)
    reads m.Values
    ensures r.Keys == Survivors(LastUsed(m), now, maxIdleMinutes)
    ensures forall i :: i in r ==> r[i] == m[i]
  {
    map i | i in m && Keeps(now - m[i].lastUsed, maxIdleMinutes) :: m[i]
  }

  /** Removing a key shrinks a map by one exactly when the key was there. */
  lemma RemoveCount<V>(m: map<SessionId, V>, id: SessionId)
    ensures |m - {id}| == |m| - (if id in m then 1 else 0)
  {
    if id in m {
      assert m.Keys == (m - {id}).Keys + {id};
    } else {
      assert m.Keys == (m - {id}).Keys;
    }
  }

  class SessionManager {
    var sessions: map<SessionId, Session>
    var activeSessionId: Option<SessionId>

    /** Every session is stored under its own id. */
    ghost predicate Valid()
      reads this, sessions.Values
    {
      forall i :: i in sessions ==> sessions[i].id == i
    }

    /**
     * The active id, if any, names a stored session. The program reaches
     * states where it does not (after `cleanup_idle`) and carries on from
     * them, so this is kept apart from `Valid`.
     */
    predicate ActiveKnown()
      reads this
    {
      ActiveIsKnown(sessions.Keys, activeSessionId)
    }

    /** `SessionManager::new` (without the storage directory): no sessions, none active. */
    constructor ()
      ensures sessions == map[] && activeSessionId.None? && Valid() && ActiveKnown()
    {
      sessions := map[];
      activeSessionId := None;
    }

    /** `add_session`: stored under its id, which is returned; the active id stays. */
    method AddSession(s: Session) returns (id: SessionId)
      modifies this
      requires Valid()
      ensures id == s.id && sessions == old(sessions)[id := s]
      ensures GetSession(id) == Some(s)
      ensures activeSessionId == old(activeSessionId)
      ensures old(ActiveKnown()) ==> ActiveKnown()
      ensures Valid()
    {
      id := s.id;
      sessions := sessions[id := s];
    }

    /**
     * `remove_session`: whether the id was there; it is not afterwards, it
     * is no longer active, and the count drops by one exactly when it was.
     */
    method RemoveSession(id: SessionId) returns (r: bool)
      modifies this
      requires Valid()
      ensures r <==> id in old(sessions)
      ensures sessions == old(sessions) - {id}
      ensures |sessions| == |old(sessions)| - (if r then 1 else 0)
      ensures activeSessionId == (if old(activeSessionId) == Some(id) then None else old(activeSessionId))
      ensures old(ActiveKnown()) ==> ActiveKnown()
      ensures Valid()
    {
      if activeSessionId == Some(id) {
        activeSessionId := None;
      }
      r := id in sessions;
      RemoveCount(sessions, id);
      sessions := sessions - {id};
    }

    /** `get_session` */
    function GetSession(id: SessionId): (r: Option<Session>)
      reads this
      ensures r.Some? <==> id in sessions
      ensures r.Some? ==> r.value == sessions[id]
    {
      if id in sessions then Some(sessions[id]) else None
    }

    /** `get_session_by_name`: some session with that name, in the map's own order; none exactly when no name matches. */
    method GetSessionByName(name: string) returns (r: Option<Session>)
      ensures r.Some? ==> r.value in sessions.Values && r.value.name == name
      ensures r.None? <==> forall i :: i in sessions ==> sessions[i].name != name
    {
      var todo := sessions.Keys;
      while todo != {}
        invariant todo <= sessions.Keys
        invariant forall i :: i in sessions && i !in todo ==> sessions[i].name != name
        decreases |todo|
      {
        var i :| i in todo;
        if sessions[i].name == name {
          return Some(sessions[i]);
        }
        todo := todo - {i};
      }
      r := None;
    }

    /**
     * `set_active`: an unknown id returns false and changes nothing;
     * otherwise the previously active session, when it is still stored, is
     * deactivated, the target activated (and so touched) and recorded as
     * active, and nothing else changes. A dangling active id is accepted.
     */
    method SetActive(id: SessionId, now: int) returns (r: bool)
      modifies this, sessions.Values
      requires Valid()
      ensures r <==> id in old(sessions)
      ensures sessions == old(sessions)
      ensures activeSessionId == (if r then Some(id) else old(activeSessionId))
      ensures forall i :: i in sessions ==>
        sessions[i].isActive
          == (if r && i == id then true
              else if r && old(activeSessionId) == Some(i) then false
              else old(sessions[i].isActive))
      ensures forall i :: i in sessions ==>
        sessions[i].lastUsed == (if r && i == id then now else old(sessions[i].lastUsed))
      ensures forall i :: i in sessions ==>
        sessions[i].variables == old(sessions[i].variables) && sessions[i].name == old(sessions[i].name)
      ensures r ==> ActiveKnown()
      ensures Valid()
    {
      if id !in sessions {
        return false;
      }
      if activeSessionId.Some? && activeSessionId.value in sessions {
        sessions[activeSessionId.value].Deactivate();
      }
      sessions[id].Activate(now);
      activeSessionId := Some(id);
      r := true;
    }

    /** `get_active_session` */
    function GetActiveSession(): (r: Option<Session>)
      reads this
      ensures r.Some? <==> activeSessionId.Some? && activeSessionId.value in sessions
      ensures r.Some? ==> r.value == sessions[activeSessionId.value]
    {
      if activeSessionId.Some? && activeSessionId.value in sessions then Some(sessions[activeSessionId.value]) else None
    }

    /**
     * `create_session`: a new session stored under the given id, made the
     * active one when asked; otherwise the active id stays.
     */
    method CreateSession(id: SessionId, name: string, activate: bool, now: int) returns (rid: SessionId)
      modifies this, sessions.Values
      requires Valid()
      ensures rid == id && sessions.Keys == old(sessions).Keys + {id}
      ensures fresh(sessions[id]) && sessions[id].name == name && sessions[id].variables == map[]
      ensures forall i :: i in old(sessions) && i != id ==> sessions[i] == old(sessions)[i]
      ensures activate ==> activeSessionId == Some(id) && sessions[id].isActive
      ensures !activate ==> activeSessionId == old(activeSessionId) && !sessions[id].isActive
      ensures activate || old(ActiveKnown()) ==> ActiveKnown()
      ensures Valid()
    {
      var s := new Session(id, name, now);
      sessions := sessions[id := s];
      if activate {
        var _ := SetActive(id, now);
      }
      rid := id;
    }

    /** `count`: the number of stored sessions. */
    function Count(): (n: nat)
      reads this
      ensures n == |sessions.Keys|
      ensures n == 0 <==> GetActiveSession().None? && sessions == map[]
    {
      |sessions|
    }

    /**
     * `cleanup_idle` as written: keeps exactly the sessions idle for fewer
     * whole minutes than the limit, and leaves the active id as it was,
     * even when that session was removed. The manager stays valid, and
     * from then on it finds no active session although it records an id.
     */
    method CleanupIdleAsWritten(maxIdleMinutes: int, now: int)
      modifies this
      requires Valid()
      ensures sessions.Keys == Survivors(LastUsed(old(sessions)), now, maxIdleMinutes)
      ensures forall i :: i in sessions ==> sessions[i] == old(sessions)[i]
      ensures activeSessionId == old(activeSessionId)
      ensures activeSessionId.Some? && activeSessionId.value !in sessions ==> GetActiveSession().None? && !ActiveKnown()
      ensures Valid()
    {
      sessions := Kept(sessions, maxIdleMinutes, now);
    }

    /**
     * `cleanup_idle` with the active id cleared when its session goes, as
     * `remove_session` does: the same sessions survive and the manager
     * stays valid.
     */
    method CleanupIdle(maxIdleMinutes: int, now: int)
      modifies this
      requires Valid()
      ensures sessions.Keys == Survivors(LastUsed(old(sessions)), now, maxIdleMinutes)
      ensures forall i :: i in sessions ==> sessions[i] == old(sessions)[i]
      ensures activeSessionId == ActiveAfterCleanup(old(activeSessionId), sessions.Keys)
      ensures Valid() && ActiveKnown()
    {
      sessions := Kept(sessions, maxIdleMinutes, now);
      activeSessionId := ActiveAfterCleanup(activeSessionId, sessions.Keys);
    }
  }
}
