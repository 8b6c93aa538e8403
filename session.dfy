/**
 * A session: a named cookie jar plus free-form variables, with the time it
 * was created and last used and whether it is the active one.
 *
 * Ids are chosen by the caller (random UUIDs in the program); times are
 * whole seconds and every operation that refreshes the last-used time is
 * given the current time.
 */
module Sessions {
  import opened Wrappers
  import Cookies

  type SessionId = nat

  /**
   * A signed duration in seconds as a number of whole minutes, rounded
   * toward zero (chrono's `Duration::num_minutes`).
   */
  function WholeMinutes(secs: int): (m: int)
    ensures secs >= 0 ==> 0 <= 60 * m <= secs < 60 * m + 60
    ensures secs < 0 ==> 60 * m - 60 < secs <= 60 * m <= 0
  {
    if secs >= 0 then secs / 60 else -((-secs) / 60)
  }

  class Session {
    const id: SessionId
    var name: string
    const cookies: Cookies.CookieJar
    var variables: map<string, string>
    const createdAt: int
    var lastUsed: int
    var isActive: bool

    /** The jar keeps one cookie per name. */
    ghost predicate Valid()
      reads this, cookies
    {
      cookies.Valid()
    }

    /** `Session::new`: an empty jar, no variables, created and last used now, not active. */
    constructor (id: SessionId, name: string, now: int)
      ensures this.id == id && this.name == name && fresh(cookies) && cookies.cookies == map[]
      ensures variables == map[] && createdAt == now && lastUsed == now && !isActive
      ensures Valid()
    {
      this.id := id;
      this.name := name;
      cookies := new Cookies.CookieJar();
      variables := map[];
      createdAt := now;
      lastUsed := now;
      isActive := false;
    }

    /** `touch` */
    method Touch(now: int)
      modifies this
      ensures lastUsed == now
      ensures name == old(name) && variables == old(variables) && isActive == old(isActive)
    {
      lastUsed := now;
    }

    /** `set_variable`: the last write for a key wins; the session is touched. */
    method SetVariable(key: string, value: string, now: int)
      modifies this
      ensures variables == old(variables)[key := value]
      ensures GetVariable(key) == Some(value)
      ensures lastUsed == now && name == old(name) && isActive == old(isActive)
    {
      variables := variables[key := value];
      Touch(now);
    }

    /** `get_variable` */
    function GetVariable(key: string): (r: Option<string>)
      reads this
      ensures r.Some? <==> key in variables
      ensures r.Some? ==> r.value == variables[key]
    {
      if key in variables then Some(variables[key]) else None
    }

    /** `remove_variable`: the previous value, if any; the key is gone and the session touched. */
    method RemoveVariable(key: string, now: int) returns (r: Option<string>)
      modifies this
      ensures r == (if key in old(variables) then Some(old(variables)[key]) else None)
      ensures variables == old(variables) - {key}
      ensures GetVariable(key).None?
      ensures lastUsed == now && name == old(name) && isActive == old(isActive)
    {
      r := GetVariable(key);
      variables := variables - {key};
      Touch(now);
    }

    /** `clear_variables` */
    method ClearVariables(now: int)
      modifies this
      ensures variables == map[]
      ensures lastUsed == now && name == old(name) && isActive == old(isActive)
    {
      variables := map[];
      Touch(now);
    }

    /** `clear_cookies` */
    method ClearCookies(now: int)
      modifies this, cookies
      ensures cookies.cookies == map[] && Valid()
      ensures lastUsed == now && name == old(name) && variables == old(variables) && isActive == old(isActive)
    {
      cookies.Clear();
      Touch(now);
    }

    /** `clear_all`: no variables and no cookies. */
    method ClearAll(now: int)
      modifies this, cookies
      ensures variables == map[] && cookies.cookies == map[] && cookies.Count() == 0 && Valid()
      ensures lastUsed == now && name == old(name) && isActive == old(isActive)
    {
      ClearVariables(now);
      ClearCookies(now);
    }

    /** `activate`: active, and touched. */
    method Activate(now: int)
      modifies this
      ensures isActive && lastUsed == now
      ensures name == old(name) && variables == old(variables)
    {
      isActive := true;
      Touch(now);
    }

    /** `deactivate`: inactive; the last-used time stays. */
    method Deactivate()
      modifies this
      ensures !isActive
      ensures lastUsed == old(lastUsed) && name == old(name) && variables == old(variables)
    {
      isActive := false;
    }

    /** `age`: how long ago the session was created. */
    function Age(now: int): (d: int)
      reads this
      ensures createdAt + d == now
    {
      now - createdAt
    }

    /** `idle_time`: how long ago it was last used. */
    function IdleTime(now: int): (d: int)
      reads this
      ensures lastUsed + d == now
      ensures d >= 0 <==> lastUsed <= now
    {
      now - lastUsed
    }
  }

  /** Rounding toward zero is symmetric: minus the minutes of a duration are the minutes of its negation. */
  lemma WholeMinutesOdd(secs: int)
    ensures WholeMinutes(-secs) == -WholeMinutes(secs)
  {
  }

  /** Whole minutes never decrease as the duration grows. */
  lemma WholeMinutesMonotone(a: int, b: int)
    requires a <= b
    ensures WholeMinutes(a) <= WholeMinutes(b)
  {
  }
}
