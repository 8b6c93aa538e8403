/**
 * One step of a request chain: the request to send (its URL, headers,
 * query items and body may hold `{{NAME}}` placeholders), the scripts around
 * it, the assertions on its response and the JSON values to keep as
 * variables; and the result of running a step.
 */
module Steps {
  import opened Wrappers
  import Text
  import Request
  import Response
  import Assertions
  import ScriptTypes
  import Durations

  datatype WorkflowStep = WorkflowStep(
    name: string,
    httpMethod: Request.HttpMethod,
    url: string,
    headers: seq<string>,
    queryParams: seq<string>,
    body: Option<string>,
    preRequestScript: Option<ScriptTypes.Script>,
    postResponseScript: Option<ScriptTypes.Script>,
    assertions: seq<Assertions.Assertion>,
    continueOnError: bool,
    timeoutMs: Option<nat>,
    extractVariables: map<string, string>)

  /** `WorkflowStep::new`: nothing but the name, method and URL; errors stop the chain. */
  function New(name: string, m: Request.HttpMethod, url: string): (s: WorkflowStep)
    ensures s.name == name && s.httpMethod == m && s.url == url
    ensures s.headers == [] && s.queryParams == [] && s.assertions == [] && s.extractVariables == map[]
    ensures s.body.None? && s.preRequestScript.None? && s.postResponseScript.None? && s.timeoutMs.None?
    ensures !s.continueOnError
  {
    WorkflowStep(name, m, url, [], [], None, None, None, [], false, None, map[])
  }

  /** `with_header`: appends one header line; the others stay, in order. */
  function WithHeader(s: WorkflowStep, h: string): (r: WorkflowStep)
    ensures |r.headers| == |s.headers| + 1 && r.headers[..|s.headers|] == s.headers && r.headers[|s.headers|] == h
    ensures r.(headers := s.headers) == s
  {
    var hs := s.headers + [h];
    assert hs[..|s.headers|] == s.headers;
    s.(headers := hs)
  }

  /** `with_query`: appends one query item; the others stay, in order. */
  function WithQuery(s: WorkflowStep, q: string): (r: WorkflowStep)
    ensures |r.queryParams| == |s.queryParams| + 1 && r.queryParams[..|s.queryParams|] == s.queryParams
    ensures r.queryParams[|s.queryParams|] == q
    ensures r.(queryParams := s.queryParams) == s
  {
    var qs := s.queryParams + [q];
    assert qs[..|s.queryParams|] == s.queryParams;
    s.(queryParams := qs)
  }

  /** `with_body` */
  function WithBody(s: WorkflowStep, body: string): (r: WorkflowStep)
    ensures r.body == Some(body) && r.(body := s.body) == s
  {
    s.(body := Some(body))
  }

  /** `with_pre_request_script` */
  function WithPreRequestScript(s: WorkflowStep, script: ScriptTypes.Script): (r: WorkflowStep)
    ensures r.preRequestScript == Some(script) && r.(preRequestScript := s.preRequestScript) == s
  {
    s.(preRequestScript := Some(script))
  }

  /** `with_post_response_script` */
  function WithPostResponseScript(s: WorkflowStep, script: ScriptTypes.Script): (r: WorkflowStep)
    ensures r.postResponseScript == Some(script) && r.(postResponseScript := s.postResponseScript) == s
  {
    s.(postResponseScript := Some(script))
  }

  /** `with_assertion`: appends one assertion; the others stay, in order. */
  function WithAssertion(s: WorkflowStep, a: Assertions.Assertion): (r: WorkflowStep)
    ensures |r.assertions| == |s.assertions| + 1 && r.assertions[..|s.assertions|] == s.assertions
    ensures r.assertions[|s.assertions|] == a
    ensures r.(assertions := s.assertions) == s
  {
    var as_ := s.assertions + [a];
    assert as_[..|s.assertions|] == s.assertions;
    s.(assertions := as_)
  }

  /** `with_continue_on_error` */
  function WithContinueOnError(s: WorkflowStep, c: bool): (r: WorkflowStep)
    ensures r.continueOnError == c && r.(continueOnError := s.continueOnError) == s
  {
    s.(continueOnError := c)
  }

  /** `with_timeout` */
  function WithTimeout(s: WorkflowStep, ms: nat): (r: WorkflowStep)
    ensures r.timeoutMs == Some(ms) && r.(timeoutMs := s.timeoutMs) == s
  {
    s.(timeoutMs := Some(ms))
  }

  /** `extract_variable`: records the path for that name, replacing an earlier one; other names keep theirs. */
  function ExtractVariable(s: WorkflowStep, name: string, path: string): (r: WorkflowStep)
    ensures name in r.extractVariables && r.extractVariables[name] == path
    ensures r.extractVariables.Keys == s.extractVariables.Keys + {name}
    ensures forall n :: n in s.extractVariables && n != name ==> r.extractVariables[n] == s.extractVariables[n]
    ensures r.(extractVariables := s.extractVariables) == s
  {
    s.(extractVariables := s.extractVariables[name := path])
  }

  // ---- Results

  datatype StepResult = StepResult(
    stepName: string,
    success: bool,
    response: Option<Response.HttpResponse>,
    error: Option<string>,
    extractedVariables: map<string, string>,
    durationMs: nat)

  /** A result holds a response exactly when it succeeded, and an error exactly when it failed. */
  predicate WellFormed(r: StepResult) {
    (r.success <==> r.response.Some?) && (r.success <==> r.error.None?)
  }

  /** `StepResult::success` */
  function Success(name: string, resp: Response.HttpResponse, extracted: map<string, string>, ms: nat): (r: StepResult)
    ensures r.success && WellFormed(r) && r.response == Some(resp)
    ensures r.stepName == name && r.extractedVariables == extracted && r.durationMs == ms
  {
    StepResult(name, true, Some(resp), None, extracted, ms)
  }

  /** `StepResult::failure`: no response and no extracted variables. */
  function Failure(name: string, error: string, ms: nat): (r: StepResult)
    ensures !r.success && WellFormed(r) && r.error == Some(error)
    ensures r.stepName == name && r.extractedVariables == map[] && r.durationMs == ms
  {
    StepResult(name, false, None, Some(error), map[], ms)
  }

  /** `summary`: a check mark, the name and the time; or a cross, the name, the error and the time. */
  function Summary(r: StepResult): (s: string)
    ensures |s| > 0 && (s[0] == '✓' <==> r.success)
    ensures r.success ==> Text.StripPrefix(s, "✓ " + r.stepName + " - ") == Some(Durations.DebugMs(r.durationMs))
    ensures !r.success ==>
      Text.StripPrefix(s, "✗ " + r.stepName + " - ") == Some((if r.error.Some? then r.error.value else "Unknown error") + " (" + Durations.DebugMs(r.durationMs) + ")")
  {
    if r.success then
      var head := "✓ " + r.stepName + " - ";
      var s := head + Durations.DebugMs(r.durationMs);
      assert s[..|head|] == head && s[|head|..] == Durations.DebugMs(r.durationMs);
      s
    else
      var head := "✗ " + r.stepName + " - ";
      var tail := (if r.error.Some? then r.error.value else "Unknown error") + " (" + Durations.DebugMs(r.durationMs) + ")";
      var s := head + tail;
      assert s[..|head|] == head && s[|head|..] == tail;
      s
  }
}
