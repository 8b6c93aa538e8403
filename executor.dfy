/**
 * The workflow executor. A run goes through the chain's steps in order,
 * `iterations` times, with one script context as the variable pool for the
 * whole run. Each step runs its pre-request script, substitutes the pool's
 * values into its request, sends it, records the status and body for the
 * post-response script, checks its assertions and stores the JSON values it
 * extracts back into the pool.
 *
 * The HTTP client, the script interpreter, the clock, the JSON parser and
 * the regular-expression engine are not part of this model; they are
 * parameters (`Oracles`). The transport and the clock are indexed by the
 * number of step results recorded before the call, which is different for
 * every step execution of a run.
 */
module Executor {
  import opened Wrappers
  import Text
  import Errors
  import Json
  import Matchers
  import Request
  import Response
  import Substitution
  import Seqs
  import Maps
  import Validator
  import ScriptTypes
  import SC = ScriptContexts
  import Steps
  import Chains
  import Durations

  /** The HTTP client: the response to, or the error from, the k-th request of a run. */
  type Transport = (nat, Request.RequestBuilder) -> Result<Response.HttpResponse, Errors.Error>

  /** The time the k-th step execution of a run took, in milliseconds. */
  type Clock = nat -> nat

  datatype Oracles = Oracles(
    transport: Transport,
    engine: SC.Engine,
    clock: Clock,
    parse: Json.Parser,
    regex: Matchers.RegexOracle)

  // ---- One step

  /**
   * The request a step sends: its method, and its URL, headers, query items
   * and body with the placeholders replaced from `vars`.
   */
  function BuildRequest(step: Steps.WorkflowStep, vars: map<string, string>): (r: Request.RequestBuilder)
    ensures r.httpMethod == step.httpMethod && r.url == Substitution.Substitute(step.url, vars)
    ensures r.headers == Substitution.SubstituteMultiple(step.headers, vars)
    ensures r.queryParams == Substitution.SubstituteMultiple(step.queryParams, vars)
    ensures step.body.None? ==> r.body.None?
    ensures step.body.Some? ==> r.body == Some(Substitution.Substitute(step.body.value, vars))
    ensures r.formData.None? && r.auth == Request.New(step.httpMethod, "").auth
  {
    var base := Request.New(step.httpMethod, Substitution.Substitute(step.url, vars));
    var withHeaders := Request.Headers(base, Substitution.SubstituteMultiple(step.headers, vars));
    var withQuery := Request.Queries(withHeaders, Substitution.SubstituteMultiple(step.queryParams, vars));
    if step.body.Some? then Request.Body(withQuery, Substitution.Substitute(step.body.value, vars)) else withQuery
  }

  /** The pool after `set_variable` for every extracted name: those become plain values, the rest stay. */
  function Store(vars: map<string, SC.ScriptVariable>, extracted: map<string, string>): (r: map<string, SC.ScriptVariable>)
    ensures r.Keys == vars.Keys + extracted.Keys
    ensures forall n :: n in extracted ==> r[n] == SC.Plain(extracted[n])
    ensures forall n :: n in vars && n !in extracted ==> r[n] == vars[n]
  {
    map n | n in vars.Keys + extracted.Keys :: if n in extracted then SC.Plain(extracted[n]) else vars[n]
  }

  /** The context after the response is stored for the post-response script: its status and body. */
  function WithResponse(st: SC.ContextState, resp: Response.HttpResponse): SC.ContextState {
    st.(responseData := st.responseData["status" := Text.NatToString(resp.status)]["body" := resp.body])
  }

  /** A hook that is present runs; an absent one leaves the context as it is. */
  function RunOptionalHook(s: Option<ScriptTypes.Script>, kind: ScriptTypes.ScriptType, st: SC.ContextState, engine: SC.Engine): (r: Result<SC.ContextState, Errors.Error>)
    ensures s.None? ==> r == Ok(st)
    ensures r.Ok? ==> r.value.requestData == st.requestData && r.value.responseData == st.responseData
  {
    if s.Some? then SC.HookEffect(s.value, kind, st, engine) else Ok(st)
  }

  /** The failure message of a step whose assertions did not all pass. */
  function AssertionsFailed(results: seq<Validator.A.AssertionResult>): string {
    "Assertions failed: " + Validator.SummaryText(false, |results| - Validator.PassedCount(results), |results|)
  }

  /** What a step produced (its result or the error it raised) and the context it left. */
  datatype Outcome = Outcome(result: Result<Steps.StepResult, Errors.Error>, state: SC.ContextState)

  /**
   * `execute_step`, as a function of the context it starts from and the
   * index k of this step execution in the run.
   */
  function StepSpec(step: Steps.WorkflowStep, st: SC.ContextState, k: nat, o: Oracles): (r: Outcome)
    ensures r.state.requestData == st.requestData
    ensures r.result.Ok? ==>
      Steps.WellFormed(r.result.value) && r.result.value.stepName == step.name && r.result.value.durationMs == o.clock(k)
    ensures r.result.Ok? && !r.result.value.success ==>
      |step.assertions| > 0 && Text.IsPrefix("Assertions failed: ", r.result.value.error.value)
    ensures r.result.Ok? && r.result.value.success ==>
      forall n :: n in r.result.value.extractedVariables ==>
        n in r.state.variables && r.state.variables[n] == SC.Plain(r.result.value.extractedVariables[n])
  {
    match RunOptionalHook(step.preRequestScript, ScriptTypes.PreRequest, st, o.engine)
    case Err(e) => Outcome(Err(e), st)
    case Ok(st1) => Send(step, st1, k, o)
  }

  /** The promises of `StepSpec` about the result, shared by the stages that produce it. */
  predicate Promised(step: Steps.WorkflowStep, k: nat, o: Oracles, r: Outcome) {
    (r.result.Ok? ==>
      Steps.WellFormed(r.result.value) && r.result.value.stepName == step.name && r.result.value.durationMs == o.clock(k))
    && (r.result.Ok? && !r.result.value.success ==>
      |step.assertions| > 0 && Text.IsPrefix("Assertions failed: ", r.result.value.error.value))
    && (r.result.Ok? && r.result.value.success ==>
      forall n :: n in r.result.value.extractedVariables ==>
        n in r.state.variables && r.state.variables[n] == SC.Plain(r.result.value.extractedVariables[n]))
  }

  /** The part of `execute_step` after the pre-request script: build the request from the pool, send it, record the response. */
  function Send(step: Steps.WorkflowStep, st1: SC.ContextState, k: nat, o: Oracles): (r: Outcome)
    ensures r.state.requestData == st1.requestData && Promised(step, k, o, r)
  {
    match o.transport(k, BuildRequest(step, SC.Values(st1.variables)))
    case Err(e) => Outcome(Err(e), st1)
    case Ok(resp) => AfterResponse(step, resp, WithResponse(st1, resp), k, o)
  }

  /** The part of `execute_step` after the response is recorded: the post-response script, then the checks. */
  function AfterResponse(step: Steps.WorkflowStep, resp: Response.HttpResponse, st2: SC.ContextState, k: nat, o: Oracles): (r: Outcome)
    ensures r.state.requestData == st2.requestData && Promised(step, k, o, r)
  {
    match RunOptionalHook(step.postResponseScript, ScriptTypes.PostResponse, st2, o.engine)
    case Err(e) => Outcome(Err(e), st2)
    case Ok(st3) => Conclude(step, resp, st3, k, o)
  }

  /**
   * The end of `execute_step`: a failure when there are assertions and not
   * all pass; otherwise a success, with the extracted values stored in the
   * pool when the body is JSON.
   */
  function Conclude(step: Steps.WorkflowStep, resp: Response.HttpResponse, st3: SC.ContextState, k: nat, o: Oracles): (r: Outcome)
    ensures r.state.requestData == st3.requestData && Promised(step, k, o, r)
  {
    var results := Validator.ValidateAll(resp, step.assertions, o.regex, o.parse);
    if |step.assertions| > 0 && Validator.PassedCount(results) != |results| then
      Outcome(Ok(Steps.Failure(step.name, AssertionsFailed(results), o.clock(k))), st3)
    else Outcome(Ok(Steps.Success(step.name, resp, Extracted(step, resp, o), o.clock(k))), Stored(step, resp, st3, o))
  }

  /** The values a step extracts: none when the body is not JSON. */
  function Extracted(step: Steps.WorkflowStep, resp: Response.HttpResponse, o: Oracles): map<string, string> {
    match o.parse(resp.body)
    case Err(_) => map[]
    case Ok(j) => Json.ExtractAll(step.extractVariables, j)
  }

  /** The context after extraction: the extracted values stored in the pool as plain values. */
  function Stored(step: Steps.WorkflowStep, resp: Response.HttpResponse, st3: SC.ContextState, o: Oracles): SC.ContextState {
    st3.(variables := Store(st3.variables, Extracted(step, resp, o)))
  }

  /**
   * The step result `execute` records for a step: its own result, or for an
   * error a failure carrying the error's text.
   */
  function Record(step: Steps.WorkflowStep, st: SC.ContextState, k: nat, o: Oracles): (r: (Steps.StepResult, SC.ContextState))
    ensures r.1 == StepSpec(step, st, k, o).state
    ensures Steps.WellFormed(r.0) && r.0.stepName == step.name && r.0.durationMs == o.clock(k)
    ensures StepSpec(step, st, k, o).result.Err? ==>
      r.0 == Steps.Failure(step.name, Errors.Display(StepSpec(step, st, k, o).result.error), o.clock(k))
  {
    var out := StepSpec(step, st, k, o);
    match out.result
    case Ok(sr) => (sr, out.state)
    case Err(e) => (Steps.Failure(step.name, Errors.Display(e), o.clock(k)), out.state)
  }

  /** The stop rule: a failed step ends the iteration when the chain stops on failure and the step does not continue on error. */
  predicate Stops(r: Steps.StepResult, step: Steps.WorkflowStep, config: Chains.ChainConfig) {
    !r.success && config.stopOnFailure && !step.continueOnError
  }

  // ---- A run

  /** How a run executes one step: the step, the context, and the number of results recorded before it. */
  type StepRunner = (Steps.WorkflowStep, SC.ContextState, nat) -> (Steps.StepResult, SC.ContextState)

  /** The executor's own step runner: `execute_step`, with an error recorded as a failure. */
  function StepFn(o: Oracles): StepRunner {
    (step: Steps.WorkflowStep, st: SC.ContextState, k: nat) => Record(step, st, k, o)
  }

  /** One pass over `steps`, appending to the results `done` recorded so far. */
  function RunSteps(steps: seq<Steps.WorkflowStep>, config: Chains.ChainConfig, st: SC.ContextState,
                    done: seq<Steps.StepResult>, exec: StepRunner): (r: (seq<Steps.StepResult>, SC.ContextState))
    decreases |steps|
  {
    if steps == [] then (done, st)
    else
      var (sr, st1) := exec(steps[0], st, |done|);
      if Stops(sr, steps[0], config) then (done + [sr], st1)
      else RunSteps(steps[1..], config, st1, done + [sr], exec)
  }

  /** The total time of a list of step results. */
  function TotalMs(rs: seq<Steps.StepResult>): nat {
    if rs == [] then 0 else TotalMs(rs[..|rs| - 1]) + rs[|rs| - 1].durationMs
  }

  /** Whether every step result succeeded. */
  predicate AllSucceeded(rs: seq<Steps.StepResult>) {
    if rs == [] then true else AllSucceeded(rs[..|rs| - 1]) && rs[|rs| - 1].success
  }

  /** Whether the time limit, if any, has been reached. */
  predicate OverTime(config: Chains.ChainConfig, done: seq<Steps.StepResult>) {
    config.maxDurationMs.Some? && TotalMs(done) >= config.maxDurationMs.value
  }

  /** `n` more passes over the chain, each followed by the time-limit check. */
  function RunIterations(chain: Chains.RequestChain, n: nat, st: SC.ContextState,
                         done: seq<Steps.StepResult>, exec: StepRunner): (r: (seq<Steps.StepResult>, SC.ContextState))
    decreases n
  {
    if n == 0 then (done, st)
    else
      var (done1, st1) := RunSteps(chain.steps, chain.config, st, done, exec);
      if OverTime(chain.config, done1) then (done1, st1)
      else RunIterations(chain, n - 1, st1, done1, exec)
  }

  /** The context a run starts from. */
  function EmptyContext(): SC.ContextState {
    SC.ContextState(map[], map[], map[], [])
  }

  /** The step results and the final context of a whole run of `chain`. */
  function Run(chain: Chains.RequestChain, o: Oracles): (seq<Steps.StepResult>, SC.ContextState) {
    RunIterations(chain, chain.config.iterations, EmptyContext(), [], StepFn(o))
  }

  // ---- The execution result

  /** `ExecutionResult`: the step results so far, the overall flag and time, and the final variables. */
  class ExecutionResult {
    var chainName: string
    var stepResults: seq<Steps.StepResult>
    var success: bool
    var totalDurationMs: nat
    var finalVariables: map<string, string>

    /** The flag and the time agree with the results: success is the AND of theirs, the time their sum. */
    ghost predicate Valid()
      reads this
    {
      success == AllSucceeded(stepResults) && totalDurationMs == TotalMs(stepResults)
    }

    /** `ExecutionResult::new`: no results, successful, no time spent, no variables. */
    constructor (name: string)
      ensures chainName == name && stepResults == [] && success && totalDurationMs == 0 && finalVariables == map[]
      ensures Valid()
    {
      chainName := name;
      stepResults := [];
      success := true;
      totalDurationMs := 0;
      finalVariables := map[];
    }

    /** `add_step_result`: appends, never turns the flag back to success, and adds the time. */
    method AddStepResult(r: Steps.StepResult)
      modifies this
      ensures stepResults == old(stepResults) + [r]
      ensures success == (old(success) && r.success)
      ensures totalDurationMs == old(totalDurationMs) + r.durationMs
      ensures chainName == old(chainName) && finalVariables == old(finalVariables)
      ensures old(Valid()) ==> Valid()
    {
      ghost var before := stepResults;
      if !r.success {
        success := false;
      }
      totalDurationMs := totalDurationMs + r.durationMs;
      stepResults := stepResults + [r];
      assert stepResults[..|stepResults| - 1] == before;
    }

    /** `summary`: the chain's name, then the step count and time, or the passed and failed counts and time. */
    function Summary(): (s: string)
      reads this
      ensures |s| > 0 && (s[0] == '✓' <==> success)
      ensures success ==>
        Text.StripPrefix(s, "✓ Chain '" + chainName + "' completed successfully: ")
          == Some(Text.NatToString(|stepResults|) + " steps, " + Durations.DebugMs(totalDurationMs))
      ensures !success ==>
        Text.StripPrefix(s, "✗ Chain '" + chainName + "' failed: ")
          == Some(Text.NatToString(SuccessCount(stepResults)) + " passed, "
                  + Text.NatToString(|stepResults| - SuccessCount(stepResults)) + " failed, "
                  + Durations.DebugMs(totalDurationMs))
    {
      if success then
        var head := "✓ Chain '" + chainName + "' completed successfully: ";
        var tail := Text.NatToString(|stepResults|) + " steps, " + Durations.DebugMs(totalDurationMs);
        var s := head + tail;
        assert s[..|head|] == head && s[|head|..] == tail;
        s
      else
        var passed := SuccessCount(stepResults);
        var head := "✗ Chain '" + chainName + "' failed: ";
        var tail := Text.NatToString(passed) + " passed, " + Text.NatToString(|stepResults| - passed) + " failed, "
          + Durations.DebugMs(totalDurationMs);
        var s := head + tail;
        assert s[..|head|] == head && s[|head|..] == tail;
        s
    }

    /** `detailed_report`: the summary, a blank line, then the step results numbered from 1. */
    function DetailedReport(): (s: string)
      reads this
      ensures Text.StripPrefix(s, Summary() + "\n\n") == Some(NumberedLines(stepResults))
    {
      var head := Summary() + "\n\n";
      var s := head + NumberedLines(stepResults);
      assert s[..|head|] == head && s[|head|..] == NumberedLines(stepResults);
      s
    }
  }

  /** One line of the detailed report, without its newline: the position from 1, a dot, the result's summary. */
  function NumberedLine(n: nat, r: Steps.StepResult): string {
    Text.NatToString(n) + ". " + Steps.Summary(r)
  }

  /** The lines of the detailed report, one per step result, each ended by a newline. */
  function NumberedLines(rs: seq<Steps.StepResult>): string {
    Validator.JoinLines(seq(|rs|, i requires 0 <= i < |rs| => NumberedLine(i + 1, rs[i])))
  }

  /** Every step result appears in the detailed report, on a line of its own numbered with its position from 1. */
  lemma ReportListsEachStep(result: ExecutionResult, i: nat)
    requires i < |result.stepResults|
    ensures Text.Contains(result.DetailedReport(), NumberedLine(i + 1, result.stepResults[i]) + "\n")
  {
    var rs := result.stepResults;
    var ls := seq(|rs|, k requires 0 <= k < |rs| => NumberedLine(k + 1, rs[k]));
    Validator.JoinLinesHoldEach(ls, i);
    assert result.DetailedReport() == result.Summary() + "\n\n" + NumberedLines(rs);
    Validator.ContainsAfter(result.Summary() + "\n\n", NumberedLines(rs), ls[i] + "\n");
  }

  /** The number of successful step results. */
  function SuccessCount(rs: seq<Steps.StepResult>): (n: nat)
    ensures n <= |rs|
  {
    if rs == [] then 0 else SuccessCount(rs[..|rs| - 1]) + (if rs[|rs| - 1].success then 1 else 0)
  }

  // ---- The executor's methods

  /** `execute_step`, against the context object; proved to do what `StepSpec` says. */
  method ExecuteStep(step: Steps.WorkflowStep, ctx: SC.ScriptContext, k: nat, o: Oracles)
    returns (r: Result<Steps.StepResult, Errors.Error>)
    modifies ctx
    ensures Outcome(r, ctx.State()) == StepSpec(step, old(ctx.State()), k, o)
  {
    if step.preRequestScript.Some? {
      var hook := ctx.RunHook(step.preRequestScript.value, ScriptTypes.PreRequest, o.engine);
      if hook.Err? {
        return Err(hook.error);
      }
    }
    ghost var st1 := ctx.State();
    assert StepSpec(step, old(ctx.State()), k, o) == Send(step, st1, k, o);

    // The snapshot every placeholder is resolved from.
    var vars := SC.Values(ctx.variables);
    var request := BuildStepRequest(step, vars);
    var sent := o.transport(k, request);
    if sent.Err? {
      return Err(sent.error);
    }
    var resp := sent.value;
    ctx.SetResponseData("status", Text.NatToString(resp.status));
    ctx.SetResponseData("body", resp.body);
    assert ctx.State() == WithResponse(st1, resp);

    if step.postResponseScript.Some? {
      var hook := ctx.RunHook(step.postResponseScript.value, ScriptTypes.PostResponse, o.engine);
      if hook.Err? {
        return Err(hook.error);
      }
    }
    r := ConcludeStep(step, resp, ctx, k, o);
  }

  /** The request-building loops of `execute_step`: each header and query item substituted and added in order, then the body. */
  method BuildStepRequest(step: Steps.WorkflowStep, vars: map<string, string>) returns (request: Request.RequestBuilder)
    ensures request == BuildRequest(step, vars)
  {
    var url := Substitution.Substitute(step.url, vars);
    request := Request.New(step.httpMethod, url);
    var i := 0;
    while i < |step.headers|
      invariant 0 <= i <= |step.headers|
      invariant request == Request.Headers(Request.New(step.httpMethod, url), Substitution.SubstituteMultiple(step.headers[..i], vars))
    {
      var substituted := Substitution.Substitute(step.headers[i], vars);
      SubstituteOneMore(step.headers, i, vars);
      Seqs.AppendAssoc(Request.New(step.httpMethod, url).headers, Substitution.SubstituteMultiple(step.headers[..i], vars), [substituted]);
      request := Request.Header(request, substituted);
      i := i + 1;
    }
    assert step.headers[..i] == step.headers;
    i := 0;
    ghost var withHeaders := request;
    while i < |step.queryParams|
      invariant 0 <= i <= |step.queryParams|
      invariant request == Request.Queries(withHeaders, Substitution.SubstituteMultiple(step.queryParams[..i], vars))
    {
      var substituted := Substitution.Substitute(step.queryParams[i], vars);
      SubstituteOneMore(step.queryParams, i, vars);
      Seqs.AppendAssoc(withHeaders.queryParams, Substitution.SubstituteMultiple(step.queryParams[..i], vars), [substituted]);
      request := Request.Query(request, substituted);
      i := i + 1;
    }
    assert step.queryParams[..i] == step.queryParams;
    if step.body.Some? {
      request := Request.Body(request, Substitution.Substitute(step.body.value, vars));
    }
  }

  /** Substituting one more text appends its substitution. */
  lemma SubstituteOneMore(texts: seq<string>, i: nat, vars: map<string, string>)
    requires i < |texts|
    ensures Substitution.SubstituteMultiple(texts[..i + 1], vars)
      == Substitution.SubstituteMultiple(texts[..i], vars) + [Substitution.Substitute(texts[i], vars)]
  {
    var l, r := Substitution.SubstituteMultiple(texts[..i + 1], vars),
      Substitution.SubstituteMultiple(texts[..i], vars) + [Substitution.Substitute(texts[i], vars)];
    assert |l| == |r|;
    forall n | 0 <= n < |l|
      ensures l[n] == r[n]
    {
      if n < i {
        assert texts[..i + 1][n] == texts[..i][n];
      }
    }
  }

  /** The end of `execute_step`, proved to do what `Conclude` says. */
  method ConcludeStep(step: Steps.WorkflowStep, resp: Response.HttpResponse, ctx: SC.ScriptContext, k: nat, o: Oracles)
    returns (r: Result<Steps.StepResult, Errors.Error>)
    modifies ctx
    ensures Outcome(r, ctx.State()) == Conclude(step, resp, old(ctx.State()), k, o)
  {
    if |step.assertions| > 0 {
      var report := Validator.Validate(resp, step.assertions, o.regex, o.parse);
      if !report.success {
        return Ok(Steps.Failure(step.name, "Assertions failed: " + report.Summary(), o.clock(k)));
      }
    }
    var extracted := ExtractVariables(step, resp, ctx, o);
    r := Ok(Steps.Success(step.name, resp, extracted, o.clock(k)));
  }

  /** One more extracted name: the map of extracted values gains exactly that name's value. */
  lemma ExtractOneMore(paths: map<string, string>, todo: set<string>, name: string, j: Json.Value)
    requires name in todo && todo <= paths.Keys
    ensures Json.ExtractAll(paths - (todo - {name}), j) == Json.ExtractAll(paths - todo, j)[name := Json.Extract(j, paths[name])]
  {
    Maps.RestrictOneMore(paths, todo, name);
    Json.ExtractAllUpdate(paths - todo, name, paths[name], j);
  }

  /** Storing one more extracted value is `set_variable` on the stored pool. */
  lemma StoreOneMore(vars: map<string, SC.ScriptVariable>, e: map<string, string>, name: string, v: string)
    ensures Store(vars, e[name := v]) == Store(vars, e)[name := SC.Plain(v)]
  {
    var l, r := Store(vars, e[name := v]), Store(vars, e)[name := SC.Plain(v)];
    assert l.Keys == r.Keys;
    forall n | n in l
      ensures l[n] == r[n]
    {
    }
  }

  /** Storing nothing leaves the pool as it is. */
  lemma StoreNothing(vars: map<string, SC.ScriptVariable>)
    ensures Store(vars, map[]) == vars
  {
    assert Store(vars, map[]).Keys == vars.Keys;
  }

  /**
   * The extraction loop of `execute_step`: for each name, in whatever order
   * the map yields them, a body that parses gives the value at the name's
   * path, which goes into the pool and into the returned map.
   */
  method ExtractVariables(step: Steps.WorkflowStep, resp: Response.HttpResponse, ctx: SC.ScriptContext, o: Oracles)
    returns (extracted: map<string, string>)
    modifies ctx
    ensures extracted == Extracted(step, resp, o)
    ensures ctx.State() == old(ctx.State()).(variables := Store(old(ctx.variables), extracted))
  {
    ghost var st0 := ctx.State();
    ghost var parsed := o.parse(resp.body);
    extracted := map[];
    StoreNothing(st0.variables);
    var todo := step.extractVariables.Keys;
    while todo != {}
      invariant todo <= step.extractVariables.Keys
      invariant extracted == (if parsed.Ok? then Json.ExtractAll(step.extractVariables - todo, parsed.value) else map[])
      invariant ctx.State() == st0.(variables := Store(st0.variables, extracted))
      decreases |todo|
    {
      var name :| name in todo;
      var json := o.parse(resp.body);
      if json.Ok? {
        var value := Json.ExtractJsonPath(json.value, step.extractVariables[name]);
        ExtractOneMore(step.extractVariables, todo, name, json.value);
        StoreOneMore(st0.variables, extracted, name, value);
        ctx.SetVariable(name, value);
        extracted := extracted[name := value];
      }
      todo := todo - {name};
    }
    assert step.extractVariables - todo == step.extractVariables;
  }

  /** `execute`: the whole run, proved to record exactly the results `Run` describes and to keep the result valid. */
  method Execute(chain: Chains.RequestChain, o: Oracles) returns (result: ExecutionResult)
    ensures result.Valid() && result.chainName == chain.name
    ensures result.stepResults == Run(chain, o).0
    ensures result.finalVariables == SC.Values(Run(chain, o).1.variables)
  {
    result := new ExecutionResult(chain.name);
    var ctx := new SC.ScriptContext();
    RunAll(chain, ctx, result, o);
    CopyVariables(ctx, result);
  }

  /** The iteration loop of `execute`: passes over the steps until the iterations are used up or the time limit is reached. */
  method RunAll(chain: Chains.RequestChain, ctx: SC.ScriptContext, result: ExecutionResult, o: Oracles)
    modifies ctx, result
    requires ctx.State() == EmptyContext() && result.stepResults == []
    requires result.Valid() && result.finalVariables == map[]
    ensures result.Valid() && result.chainName == old(result.chainName) && result.finalVariables == map[]
    ensures (result.stepResults, ctx.State()) == Run(chain, o)
  {
    var iteration := 0;
    ghost var left: nat := chain.config.iterations;
    ghost var target := Run(chain, o);
    while iteration < chain.config.iterations
      invariant 0 <= iteration <= chain.config.iterations && left == chain.config.iterations - iteration
      invariant result.Valid() && result.chainName == old(result.chainName) && result.finalVariables == map[]
      invariant target == RunIterations(chain, left, ctx.State(), result.stepResults, StepFn(o))
      decreases left
    {
      // The delay between iterations only affects the clock.
      ghost var st, done := ctx.State(), result.stepResults;
      RunOnePass(chain, ctx, result, o);
      RunIterationsPass(chain, left, st, done, StepFn(o), result.stepResults, ctx.State());
      if OverTime(chain.config, result.stepResults) {
        break;
      }
      iteration := iteration + 1;
      left := left - 1;
    }
    RunIterationsNone(chain, ctx.State(), result.stepResults, StepFn(o));
  }

  /** One iteration of the run: a pass over the steps, then the time-limit check. */
  lemma RunIterationsPass(chain: Chains.RequestChain, n: nat, st: SC.ContextState, done: seq<Steps.StepResult>, exec: StepRunner,
                          done1: seq<Steps.StepResult>, st1: SC.ContextState)
    requires n > 0 && (done1, st1) == RunSteps(chain.steps, chain.config, st, done, exec)
    ensures OverTime(chain.config, done1) ==> RunIterations(chain, n, st, done, exec) == (done1, st1)
    ensures !OverTime(chain.config, done1) ==> RunIterations(chain, n, st, done, exec) == RunIterations(chain, n - 1, st1, done1, exec)
  {
  }

  /** The pass from position `j` on: the executor records step `j`, then stops or goes on from `j + 1`. */
  lemma RunStepsAt(steps: seq<Steps.WorkflowStep>, j: nat, config: Chains.ChainConfig, st: SC.ContextState,
                   done: seq<Steps.StepResult>, o: Oracles)
    requires j < |steps|
    ensures var (sr, st1) := Record(steps[j], st, |done|, o);
            RunSteps(steps[j..], config, st, done, StepFn(o))
            == if Stops(sr, steps[j], config) then (done + [sr], st1)
               else RunSteps(steps[j + 1..], config, st1, done + [sr], StepFn(o))
  {
    assert steps[j..][0] == steps[j] && steps[j..][1..] == steps[j + 1..];
  }

  /** No iterations left: nothing more is recorded. */
  lemma RunIterationsNone(chain: Chains.RequestChain, st: SC.ContextState, done: seq<Steps.StepResult>, exec: StepRunner)
    ensures RunIterations(chain, 0, st, done, exec) == (done, st)
  {
  }

  /** The inner loop of `execute`: one pass over the steps, with the stop rule. */
  method RunOnePass(chain: Chains.RequestChain, ctx: SC.ScriptContext, result: ExecutionResult, o: Oracles)
    modifies ctx, result
    ensures result.chainName == old(result.chainName) && result.finalVariables == old(result.finalVariables)
    ensures old(result.Valid()) ==> result.Valid()
    ensures (result.stepResults, ctx.State())
      == RunSteps(chain.steps, chain.config, old(ctx.State()), old(result.stepResults), StepFn(o))
  {
    var j := 0;
    while j < |chain.steps|
      invariant 0 <= j <= |chain.steps|
      invariant result.chainName == old(result.chainName) && result.finalVariables == old(result.finalVariables)
      invariant old(result.Valid()) ==> result.Valid()
      invariant RunSteps(chain.steps, chain.config, old(ctx.State()), old(result.stepResults), StepFn(o))
        == RunSteps(chain.steps[j..], chain.config, ctx.State(), result.stepResults, StepFn(o))
    {
      var step := chain.steps[j];
      var k := |result.stepResults|;
      ghost var st := ctx.State();
      ghost var done := result.stepResults;
      RunStepsAt(chain.steps, j, chain.config, st, done, o);
      var out := ExecuteStep(step, ctx, k, o);
      var sr: Steps.StepResult;
      match out {
        case Ok(r) =>
          sr := r;
        case Err(e) =>
          sr := Steps.Failure(step.name, Errors.Display(e), o.clock(k));
      }
      assert (sr, ctx.State()) == Record(step, st, k, o);
      result.AddStepResult(sr);
      if Stops(sr, step, chain.config) {
        return;
      }
      j := j + 1;
    }
  }

  /** The final-variables loop of `execute`: every pool entry's value, by name. */
  method CopyVariables(ctx: SC.ScriptContext, result: ExecutionResult)
    requires result.finalVariables == map[]
    modifies result
    ensures result.finalVariables == SC.Values(ctx.variables)
    ensures result.chainName == old(result.chainName) && result.stepResults == old(result.stepResults)
    ensures result.success == old(result.success) && result.totalDurationMs == old(result.totalDurationMs)
  {
    var todo := ctx.variables.Keys;
    while todo != {}
      invariant todo <= ctx.variables.Keys
      invariant result.finalVariables == SC.Values(ctx.variables - todo)
      invariant result.chainName == old(result.chainName) && result.stepResults == old(result.stepResults)
      invariant result.success == old(result.success) && result.totalDurationMs == old(result.totalDurationMs)
      decreases |todo|
    {
      var name :| name in todo;
      result.finalVariables := result.finalVariables[name := ctx.variables[name].value];
      todo := todo - {name};
    }
  }

  // ---- Properties of a run

  /**
   * One pass appends at most one result per step, in order;
   * it stops early only right after a result the stop rule applies to, and
   * no earlier result of the pass is one.
   */
  lemma {:induction false} RunStepsShape(steps: seq<Steps.WorkflowStep>, config: Chains.ChainConfig, st: SC.ContextState,
                                         done: seq<Steps.StepResult>, exec: StepRunner)
    ensures var rs := RunSteps(steps, config, st, done, exec).0;
      |done| <= |rs| <= |done| + |steps| && rs[..|done|] == done
      && (forall i :: |done| <= i < |rs| - 1 ==> !Stops(rs[i], steps[i - |done|], config))
      && (|rs| < |done| + |steps| ==> |done| < |rs| && Stops(rs[|rs| - 1], steps[|rs| - 1 - |done|], config))
    decreases |steps|
  {
    if steps != [] {
      var (sr, st1) := exec(steps[0], st, |done|);
      var done1 := done + [sr];
      if !Stops(sr, steps[0], config) {
        RunStepsShape(steps[1..], config, st1, done1, exec);
        var rs := RunSteps(steps[1..], config, st1, done1, exec).0;
        assert rs[..|done|] == rs[..|done1|][..|done|];
        forall i | |done| <= i < |rs| - 1
          ensures !Stops(rs[i], steps[i - |done|], config)
        {
          if i > |done| {
            assert steps[1..][i - |done1|] == steps[i - |done|];
          }
        }
        if |rs| < |done| + |steps| {
          assert steps[1..][|rs| - 1 - |done1|] == steps[|rs| - 1 - |done|];
        }
      } else {
        assert done1[..|done|] == done;
      }
    }
  }

  /** A step runner that names each result after its step. */
  ghost predicate NamesResults(exec: StepRunner) {
    forall step, st, k :: exec(step, st, k).0.stepName == step.name
  }

  /** The executor's runner does. */
  lemma StepFnNamesResults(o: Oracles)
    ensures NamesResults(StepFn(o))
  {
  }

  /** With such a runner, the results of a pass carry the names of the steps that produced them, in order. */
  lemma {:induction false} RunStepsNames(steps: seq<Steps.WorkflowStep>, config: Chains.ChainConfig, st: SC.ContextState,
                                         done: seq<Steps.StepResult>, exec: StepRunner)
    requires NamesResults(exec)
    ensures var rs := RunSteps(steps, config, st, done, exec).0;
      forall i :: |done| <= i < |rs| && i - |done| < |steps| ==> rs[i].stepName == steps[i - |done|].name
    decreases |steps|
  {
    if steps != [] {
      var (sr, st1) := exec(steps[0], st, |done|);
      var done1 := done + [sr];
      if !Stops(sr, steps[0], config) {
        RunStepsNames(steps[1..], config, st1, done1, exec);
        RunStepsShape(steps[1..], config, st1, done1, exec);
        var rs := RunSteps(steps[1..], config, st1, done1, exec).0;
        forall i | |done| <= i < |rs| && i - |done| < |steps|
          ensures rs[i].stepName == steps[i - |done|].name
        {
          if i > |done| {
            assert steps[1..][i - |done1|] == steps[i - |done|];
          } else {
            assert rs[i] == rs[..|done1|][i] == sr;
          }
        }
      }
    }
  }

  /** Without the stop rule (the chain does not stop on failure, or every step continues on error) a pass runs every step. */
  lemma RunStepsComplete(steps: seq<Steps.WorkflowStep>, config: Chains.ChainConfig, st: SC.ContextState,
                         done: seq<Steps.StepResult>, exec: StepRunner)
    requires !config.stopOnFailure || forall i :: 0 <= i < |steps| ==> steps[i].continueOnError
    ensures |RunSteps(steps, config, st, done, exec).0| == |done| + |steps|
  {
    RunStepsShape(steps, config, st, done, exec);
  }

  /** `n` passes that never stop early and have no time limit record `n` results per step. */
  lemma {:induction false} RunIterationsCount(chain: Chains.RequestChain, n: nat, st: SC.ContextState,
                                              done: seq<Steps.StepResult>, exec: StepRunner)
    requires !chain.config.stopOnFailure && chain.config.maxDurationMs.None?
    ensures |RunIterations(chain, n, st, done, exec).0| == |done| + n * |chain.steps|
    decreases n
  {
    if n > 0 {
      var (done1, st1) := RunSteps(chain.steps, chain.config, st, done, exec);
      RunStepsComplete(chain.steps, chain.config, st, done, exec);
      RunIterationsCount(chain, n - 1, st1, done1, exec);
    }
  }

  /** A chain that does not stop on failure and has no time limit records iterations × steps results. */
  lemma RunCount(chain: Chains.RequestChain, o: Oracles)
    requires !chain.config.stopOnFailure && chain.config.maxDurationMs.None?
    ensures |Run(chain, o).0| == chain.config.iterations * |chain.steps|
  {
    RunIterationsCount(chain, chain.config.iterations, EmptyContext(), [], StepFn(o));
  }

  /** A pass that records no failure runs every step: it can end early only right after a failed step. */
  lemma RunStepsCompleteOk(steps: seq<Steps.WorkflowStep>, config: Chains.ChainConfig, st: SC.ContextState,
                           done: seq<Steps.StepResult>, exec: StepRunner)
    requires var rs := RunSteps(steps, config, st, done, exec).0;
      forall i :: |done| <= i < |rs| ==> rs[i].success
    ensures |RunSteps(steps, config, st, done, exec).0| == |done| + |steps|
  {
    RunStepsShape(steps, config, st, done, exec);
  }

  /** `n` passes without a time limit that record no failure record `n` results per step, whatever the stop rule. */
  lemma {:induction false} RunIterationsCountOk(chain: Chains.RequestChain, n: nat, st: SC.ContextState,
                                                done: seq<Steps.StepResult>, exec: StepRunner)
    requires chain.config.maxDurationMs.None?
    requires var rs := RunIterations(chain, n, st, done, exec).0;
      forall i :: |done| <= i < |rs| ==> rs[i].success
    ensures |RunIterations(chain, n, st, done, exec).0| == |done| + n * |chain.steps|
    decreases n
  {
    if n > 0 {
      var (done1, st1) := RunSteps(chain.steps, chain.config, st, done, exec);
      var rs := RunIterations(chain, n - 1, st1, done1, exec).0;
      assert RunIterations(chain, n, st, done, exec).0 == rs;
      RunStepsShape(chain.steps, chain.config, st, done, exec);
      RunIterationsExtends(chain, n - 1, st1, done1, exec);
      forall i | |done| <= i < |done1| ensures done1[i].success {
        assert rs[..|done1|][i] == rs[i];
      }
      RunStepsCompleteOk(chain.steps, chain.config, st, done, exec);
      RunIterationsCountOk(chain, n - 1, st1, done1, exec);
    }
  }

  /**
   * The promised count in the default configuration: a chain without a time
   * limit whose run records no failure has iterations × steps results, even
   * when it stops on failure.
   */
  lemma RunCountNoFailures(chain: Chains.RequestChain, o: Oracles)
    requires chain.config.maxDurationMs.None? && AllSucceeded(Run(chain, o).0)
    ensures |Run(chain, o).0| == chain.config.iterations * |chain.steps|
  {
    AllSucceededEach(Run(chain, o).0);
    RunIterationsCountOk(chain, chain.config.iterations, EmptyContext(), [], StepFn(o));
  }

  /** Later passes only append: the results recorded before a run of passes stay, in order. */
  lemma {:induction false} RunIterationsExtends(chain: Chains.RequestChain, n: nat, st: SC.ContextState,
                                                done: seq<Steps.StepResult>, exec: StepRunner)
    ensures |done| <= |RunIterations(chain, n, st, done, exec).0|
    ensures RunIterations(chain, n, st, done, exec).0[..|done|] == done
    decreases n
  {
    if n > 0 {
      var (done1, st1) := RunSteps(chain.steps, chain.config, st, done, exec);
      RunStepsShape(chain.steps, chain.config, st, done, exec);
      if !OverTime(chain.config, done1) {
        RunIterationsExtends(chain, n - 1, st1, done1, exec);
        var rs := RunIterations(chain, n - 1, st1, done1, exec).0;
        assert rs[..|done|] == rs[..|done1|][..|done|];
      }
    }
  }

  /** A chain with no steps, or run zero times, records nothing and leaves the empty context. */
  lemma {:induction false} RunIterationsNoSteps(chain: Chains.RequestChain, n: nat, st: SC.ContextState, exec: StepRunner)
    requires chain.steps == []
    ensures RunIterations(chain, n, st, [], exec) == ([], st)
    decreases n
  {
    if n > 0 {
      assert RunSteps(chain.steps, chain.config, st, [], exec) == ([], st);
      RunIterationsNoSteps(chain, n - 1, st, exec);
    }
  }

  /** Nothing to run: no steps or no iterations. */
  lemma RunEmpty(chain: Chains.RequestChain, o: Oracles)
    requires chain.steps == [] || chain.config.iterations == 0
    ensures Run(chain, o) == ([], EmptyContext())
  {
    if chain.steps == [] {
      RunIterationsNoSteps(chain, chain.config.iterations, EmptyContext(), StepFn(o));
    }
  }

  /** The overall flag is the AND of the step flags. */
  lemma {:induction false} AllSucceededEach(rs: seq<Steps.StepResult>)
    ensures AllSucceeded(rs) <==> forall i :: 0 <= i < |rs| ==> rs[i].success
  {
    if rs != [] {
      var init := rs[..|rs| - 1];
      AllSucceededEach(init);
      assert forall i :: 0 <= i < |init| ==> init[i] == rs[i];
    }
  }

  /** The total time is the sum of the step times: appending adds exactly the new result's time. */
  lemma {:induction false} TotalMsAppend(a: seq<Steps.StepResult>, b: seq<Steps.StepResult>)
    ensures TotalMs(a + b) == TotalMs(a) + TotalMs(b)
    decreases |b|
  {
    if b != [] {
      var init := b[..|b| - 1];
      var ab := a + b;
      assert ab != [] && ab[..|ab| - 1] == a + init && ab[|ab| - 1] == b[|b| - 1];
      assert TotalMs(ab) == TotalMs(a + init) + b[|b| - 1].durationMs;
      TotalMsAppend(a, init);
    } else {
      assert a + b == a;
    }
  }

  /**
   * An error a step raises does not end the run: it is recorded as a failure
   * carrying the error's text, and the stop rule then applies to it.
   */
  lemma ErrorRecorded(step: Steps.WorkflowStep, st: SC.ContextState, k: nat, o: Oracles)
    requires StepSpec(step, st, k, o).result.Err?
    ensures !Record(step, st, k, o).0.success
    ensures Record(step, st, k, o).0.error == Some(Errors.Display(StepSpec(step, st, k, o).result.error))
  {
  }

  /** A URL `before{{name}}after` is sent to `before<value>after` when the pool holds `name`. */
  lemma UrlPlaceholder(next: Steps.WorkflowStep, vars: map<string, string>, name: string, before: string, after: string)
    requires name in vars
    requires Substitution.IsName(name) && '{' !in before && '{' !in after
    requires next.url == before + "{{" + name + "}}" + after
    ensures BuildRequest(next, vars).url == before + vars[name] + after
  {
    var lits, names := [before, after], [name];
    assert next.url == before + Substitution.Token(name) + after;
    assert Substitution.PlainTexts(lits) && Substitution.AllNames(names);
    Substitution.SubstituteTemplate(lits, names, vars);
    assert Substitution.Interleave(lits, Substitution.Tokens(names)) == before + Substitution.Token(name) + after;
    assert Substitution.Interleave(lits, Substitution.Resolved(names, vars, None)) == before + vars[name] + after;
  }

  /**
   * Variables flow from one step to the next: after a successful step that
   * extracted `name`, a following step without a pre-request script whose
   * URL is `before{{name}}after` sends its request to
   * `before<extracted value>after`.
   */
  lemma ExtractedReachesNextUrl(step: Steps.WorkflowStep, next: Steps.WorkflowStep, st: SC.ContextState, k: nat, o: Oracles,
                                name: string, before: string, after: string)
    requires StepSpec(step, st, k, o).result.Ok? && StepSpec(step, st, k, o).result.value.success
    requires name in StepSpec(step, st, k, o).result.value.extractedVariables
    requires next.preRequestScript.None?
    requires Substitution.IsName(name) && '{' !in before && '{' !in after
    requires next.url == before + "{{" + name + "}}" + after
    ensures Send(next, StepSpec(step, st, k, o).state, k + 1, o)
      == StepSpec(next, StepSpec(step, st, k, o).state, k + 1, o)
    ensures BuildRequest(next, SC.Values(StepSpec(step, st, k, o).state.variables)).url
      == before + StepSpec(step, st, k, o).result.value.extractedVariables[name] + after
  {
    var out := StepSpec(step, st, k, o);
    var vars := SC.Values(out.state.variables);
    UrlPlaceholder(next, vars, name, before, after);
  }
}
