/**
 * The context scripts run in: the variable pool (each value possibly
 * marked secret), the request and response data scripts can read, and the
 * console lines they printed. The workflow executor uses one context as its
 * variable pool across a whole run.
 */
module ScriptContexts {
  import opened Wrappers
  import Errors
  import ScriptTypes

  datatype ScriptVariable = ScriptVariable(value: string, isSecret: bool)

  /** `ScriptVariable::new` */
  function Plain(value: string): (v: ScriptVariable)
    ensures v.value == value && !v.isSecret
  {
    ScriptVariable(value, false)
  }

  /** `ScriptVariable::secret` */
  function Secret(value: string): (v: ScriptVariable)
    ensures v.value == value && v.isSecret
  {
    ScriptVariable(value, true)
  }

  /** Everything a context holds, as one value. */
  datatype ContextState = ContextState(
    variables: map<string, ScriptVariable>,
    requestData: map<string, string>,
    responseData: map<string, string>,
    console: seq<string>)

  /** The variables' values, as the substitutor and the scripts see them. */
  function Values(vars: map<string, ScriptVariable>): (r: map<string, string>)
    ensures r.Keys == vars.Keys
    ensures forall n :: n in r ==> r[n] == vars[n].value
  {
    map n | n in vars :: vars[n].value
  }

  class ScriptContext {
    var variables: map<string, ScriptVariable>
    var requestData: map<string, string>
    var responseData: map<string, string>
    var consoleOutput: seq<string>

    function State(): ContextState
      reads this
    {
      ContextState(variables, requestData, responseData, consoleOutput)
    }

    /** `ScriptContext::new`: no variables, no request or response data, no console lines. */
    constructor ()
      ensures State() == ContextState(map[], map[], map[], [])
    {
      variables := map[];
      requestData := map[];
      responseData := map[];
      consoleOutput := [];
    }

    /** `set_variable`: stores a non-secret value, replacing any earlier one; nothing else changes. */
    method SetVariable(name: string, value: string)
      modifies this
      ensures State() == old(State()).(variables := old(variables)[name := Plain(value)])
    {
      variables := variables[name := Plain(value)];
    }

    /** `set_secret_variable`: stores a secret value, replacing any earlier one; nothing else changes. */
    method SetSecretVariable(name: string, value: string)
      modifies this
      ensures State() == old(State()).(variables := old(variables)[name := Secret(value)])
    {
      variables := variables[name := Secret(value)];
    }

    /** `get_variable` */
    function GetVariable(name: string): (r: Option<ScriptVariable>)
      reads this
      ensures r.Some? <==> name in variables
      ensures r.Some? ==> r.value == variables[name]
    {
      if name in variables then Some(variables[name]) else None
    }

    /** `get_variable_value`: the stored value, whether secret or not. */
    function GetVariableValue(name: string): (r: Option<string>)
      reads this
      ensures r.Some? <==> name in variables
      ensures r.Some? ==> r.value == variables[name].value
    {
      if name in variables then Some(variables[name].value) else None
    }

    /** `remove_variable`: drops that name only and returns what it held. */
    method RemoveVariable(name: string) returns (r: Option<ScriptVariable>)
      modifies this
      ensures r == old(GetVariable(name))
      ensures State() == old(State()).(variables := old(variables) - {name})
    {
      r := GetVariable(name);
      variables := variables - {name};
    }

    /** `set_request_data`: only the request map changes. */
    method SetRequestData(key: string, value: string)
      modifies this
      ensures State() == old(State()).(requestData := old(requestData)[key := value])
    {
      requestData := requestData[key := value];
    }

    /** `get_request_data` */
    function GetRequestData(key: string): (r: Option<string>)
      reads this
      ensures r.Some? <==> key in requestData
      ensures r.Some? ==> r.value == requestData[key]
    {
      if key in requestData then Some(requestData[key]) else None
    }

    /** `set_response_data`: only the response map changes. */
    method SetResponseData(key: string, value: string)
      modifies this
      ensures State() == old(State()).(responseData := old(responseData)[key := value])
    {
      responseData := responseData[key := value];
    }

    /** `get_response_data` */
    function GetResponseData(key: string): (r: Option<string>)
      reads this
      ensures r.Some? <==> key in responseData
      ensures r.Some? ==> r.value == responseData[key]
    {
      if key in responseData then Some(responseData[key]) else None
    }

    /** `console_log`: one more line at the end. */
    method ConsoleLog(message: string)
      modifies this
      ensures State() == old(State()).(console := old(consoleOutput) + [message])
    {
      consoleOutput := consoleOutput + [message];
    }

    /** `clear_console` */
    method ClearConsole()
      modifies this
      ensures State() == old(State()).(console := [])
    {
      consoleOutput := [];
    }

    /** Runs a hook script against this context (see `HookEffect`). */
    method RunHook(s: ScriptTypes.Script, kind: ScriptTypes.ScriptType, engine: Engine) returns (r: Result<(), Errors.Error>)
      modifies this
      ensures HookEffect(s, kind, old(State()), engine).Ok? ==>
        r.Ok? && State() == HookEffect(s, kind, old(State()), engine).value
      ensures HookEffect(s, kind, old(State()), engine).Err? ==>
        r == Err(HookEffect(s, kind, old(State()), engine).error) && State() == old(State())
    {
      match HookEffect(s, kind, State(), engine)
      case Ok(st) =>
        variables := st.variables;
        consoleOutput := st.console;
        r := Ok(());
      case Err(e) =>
        r := Err(e);
    }
  }

  // ---- Running a script

  /** What a script can see: the variable values and the request and response data. */
  datatype Scope = Scope(variables: map<string, string>, request: map<string, string>, response: map<string, string>)

  /** What a script leaves behind: its string-valued variables and the lines it logged. */
  datatype EngineOutput = EngineOutput(variables: map<string, string>, logs: seq<string>)

  /**
   * The script interpreter, which is not part of this model: it runs the
   * code against a scope and returns the scope's string variables and the
   * console lines, or the interpreter's error message.
   */
  type Engine = (string, Scope) -> Result<EngineOutput, string>

  /**
   * The variable pool a successful script leaves: every string variable of
   * its scope except the two read-only maps, none of them secret.
   */
  function WrittenBack(out: map<string, string>): (r: map<string, ScriptVariable>)
    ensures forall n :: n in r <==> n in out && n != "request" && n != "response"
    ensures forall n :: n in r ==> r[n] == Plain(out[n])
  {
    map n | n in out && n != "request" && n != "response" :: Plain(out[n])
  }

  /**
   * `execute_pre_request` / `execute_post_response` and the engine they
   * call: a script of the other kind, a disabled script and a blank one
   * leave the context as it is; otherwise an interpreter error becomes an
   * invalid-command error and leaves the context as it is, and a successful
   * run replaces the variable pool and appends the logged lines.
   */
  function HookEffect(s: ScriptTypes.Script, kind: ScriptTypes.ScriptType, st: ContextState, engine: Engine): (r: Result<ContextState, Errors.Error>)
    ensures s.scriptType != kind || !ScriptTypes.ShouldExecute(s) ==> r == Ok(st)
    ensures r.Err? ==> r.error.InvalidCommand?
    ensures r.Ok? ==> r.value.requestData == st.requestData && r.value.responseData == st.responseData
    ensures r.Ok? ==> |st.console| <= |r.value.console| && r.value.console[..|st.console|] == st.console
  {
    if s.scriptType != kind || !ScriptTypes.ShouldExecute(s) then Ok(st)
    else match engine(s.code, Scope(Values(st.variables), st.requestData, st.responseData))
      case Err(e) => Err(Errors.InvalidCommand("Script execution error: " + e))
      case Ok(out) =>
        var console := st.console + out.logs;
        assert console[..|st.console|] == st.console;
        Ok(st.(variables := WrittenBack(out.variables), console := console))
  }
}
