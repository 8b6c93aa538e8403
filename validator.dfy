/**
 * The response validator: runs each enabled assertion against a response
 * and gathers the results in a report that counts passes and failures.
 */
module Validator {
  import opened Wrappers
  import Text
  import Matchers
  import Json
  import Response
  import A = Assertions

  // ---- What each kind of assertion looks at

  /** `status.as_u16().to_string()`: the decimal status code. */
  function StatusText(resp: Response.HttpResponse): (s: string)
    ensures Text.ParseUnsigned(s) == Some(resp.status as nat)
  {
    var s := Text.NatToString(resp.status);
    Text.NatToStringValue(resp.status);
    assert s[0] != '+';
    s
  }

  /**
   * The value of a header, looked up without regard to ASCII case (the HTTP
   * library keeps header names in lower case), or "" when it is absent.
   */
  function HeaderValue(resp: Response.HttpResponse, name: string): (v: string)
    ensures Text.AsciiLowerStr(name) in resp.headers ==> v == resp.headers[Text.AsciiLowerStr(name)]
    ensures Text.AsciiLowerStr(name) !in resp.headers ==> v == ""
  {
    var key := Text.AsciiLowerStr(name);
    if key in resp.headers then resp.headers[key] else ""
  }

  /** Two names that differ only in ASCII case find the same header value. */
  lemma HeaderCaseInsensitive(resp: Response.HttpResponse, a: string, b: string)
    requires Text.EqIgnoreAsciiCase(a, b)
    ensures HeaderValue(resp, a) == HeaderValue(resp, b)
  {
  }

  /** `duration.as_millis().to_string()`: the response time in whole milliseconds. */
  function MillisText(resp: Response.HttpResponse): (s: string)
    ensures Text.ParseUnsigned(s) == Some(resp.durationMs)
  {
    var s := Text.NatToString(resp.durationMs);
    Text.NatToStringValue(resp.durationMs);
    assert s[0] != '+';
    s
  }

  /**
   * The shared shape of every check: the matcher is applied to `subject`; the
   * result records `actual` and the matcher's description, and on failure
   * the given error message.
   */
  function Check(a: A.Assertion, subject: string, actual: string, error: string, regex: Matchers.RegexOracle): (r: A.AssertionResult)
    ensures r.assertion == a && A.WellFormed(r)
    ensures r.actualValue == actual && r.expectedValue == Matchers.Description(a.matcher)
    ensures r.passed <==> Matchers.Matches(a.matcher, subject, regex)
    ensures !r.passed ==> r.errorMessage == Some(error)
  {
    var expected := Matchers.Description(a.matcher);
    if Matchers.Matches(a.matcher, subject, regex) then A.Pass(a, actual, expected)
    else A.Fail(a, actual, expected, error)
  }

  /** `validate_status_code`: the matcher sees the decimal status, which is also the recorded actual value. */
  function ValidateStatusCode(resp: Response.HttpResponse, a: A.Assertion, regex: Matchers.RegexOracle): (r: A.AssertionResult)
    ensures Text.ParseUnsigned(r.actualValue) == Some(resp.status as nat)
    ensures r.passed <==> Matchers.Matches(a.matcher, r.actualValue, regex)
    ensures !r.passed ==> r.errorMessage == Some("Status code does not match")
  {
    var actual := StatusText(resp);
    Check(a, actual, actual, "Status code does not match", regex)
  }

  /** `validate_header`: the matcher sees the header's value, "" when the response lacks it. */
  function ValidateHeader(resp: Response.HttpResponse, name: string, a: A.Assertion, regex: Matchers.RegexOracle): (r: A.AssertionResult)
    ensures Text.AsciiLowerStr(name) !in resp.headers ==> r.actualValue == ""
    ensures Text.AsciiLowerStr(name) in resp.headers ==> r.actualValue == resp.headers[Text.AsciiLowerStr(name)]
    ensures r.passed <==> Matchers.Matches(a.matcher, r.actualValue, regex)
    ensures !r.passed ==> r.errorMessage == Some("Header '" + name + "' does not match")
  {
    var actual := HeaderValue(resp, name);
    Check(a, actual, actual, "Header '" + name + "' does not match", regex)
  }

  /** `validate_body`: the matcher sees the raw body. */
  function ValidateBody(resp: Response.HttpResponse, a: A.Assertion, regex: Matchers.RegexOracle): (r: A.AssertionResult)
    ensures r.actualValue == resp.body
    ensures r.passed <==> Matchers.Matches(a.matcher, resp.body, regex)
    ensures !r.passed ==> r.errorMessage == Some("Body does not match")
  {
    Check(a, resp.body, resp.body, "Body does not match", regex)
  }

  /**
   * `validate_response_time`: the matcher sees the bare number of
   * milliseconds, while the recorded actual value carries an "ms" suffix.
   */
  function ValidateResponseTime(resp: Response.HttpResponse, a: A.Assertion, regex: Matchers.RegexOracle): (r: A.AssertionResult)
    ensures |r.actualValue| >= 2 && r.actualValue[|r.actualValue| - 2..] == "ms"
    ensures Text.ParseUnsigned(r.actualValue[..|r.actualValue| - 2]) == Some(resp.durationMs)
    ensures r.passed <==> Matchers.Matches(a.matcher, r.actualValue[..|r.actualValue| - 2], regex)
    ensures !r.passed ==> r.errorMessage == Some("Response time does not match")
  {
    var ms := MillisText(resp);
    var actual := ms + "ms";
    assert actual[..|actual| - 2] == ms;
    Check(a, ms, actual, "Response time does not match", regex)
  }

  /**
   * `validate_json_path`: a body that does not parse fails with the raw
   * body as actual value; otherwise the matcher sees the extracted value.
   */
  function ValidateJsonPath(resp: Response.HttpResponse, path: string, a: A.Assertion,
                            regex: Matchers.RegexOracle, parse: Json.Parser): (r: A.AssertionResult)
    ensures r.assertion == a && A.WellFormed(r)
    ensures parse(resp.body).Err? ==>
      !r.passed && r.actualValue == resp.body
      && r.errorMessage == Some("Failed to parse response as JSON: " + parse(resp.body).error)
    ensures parse(resp.body).Ok? ==>
      r.actualValue == Json.Extract(parse(resp.body).value, path)
      && (r.passed <==> Matchers.Matches(a.matcher, r.actualValue, regex))
      && (!r.passed ==> r.errorMessage == Some("JSON path '" + path + "' does not match"))
  {
    match parse(resp.body)
    case Ok(j) =>
      var actual := Json.Extract(j, path);
      Check(a, actual, actual, "JSON path '" + path + "' does not match", regex)
    case Err(e) =>
      A.Fail(a, resp.body, Matchers.Description(a.matcher), "Failed to parse response as JSON: " + e)
  }

  /** `validate_custom`: always passes, with "custom" as actual value and the custom text as expected value. */
  function ValidateCustom(text: string, a: A.Assertion): (r: A.AssertionResult)
    ensures r.passed && A.WellFormed(r) && r.assertion == a
    ensures r.actualValue == "custom" && r.expectedValue == text
  {
    A.Pass(a, "custom", text)
  }

  /** `validate_assertion`: dispatch on the kind of assertion. */
  function ValidateAssertion(resp: Response.HttpResponse, a: A.Assertion,
                             regex: Matchers.RegexOracle, parse: Json.Parser): (r: A.AssertionResult)
    ensures r.assertion == a && A.WellFormed(r)
    ensures r.expectedValue == (if a.assertionType.Custom? then a.assertionType.text else Matchers.Description(a.matcher))
  {
    match a.assertionType
    case StatusCode => ValidateStatusCode(resp, a, regex)
    case Header(name) => ValidateHeader(resp, name, a, regex)
    case Body => ValidateBody(resp, a, regex)
    case ResponseTime => ValidateResponseTime(resp, a, regex)
    case JsonPath(path) => ValidateJsonPath(resp, path, a, regex, parse)
    case Custom(text) => ValidateCustom(text, a)
  }

  // ---- Reports

  /** The number of passed results. */
  function PassedCount(results: seq<A.AssertionResult>): (n: nat)
    ensures n <= |results|
  {
    if results == [] then 0
    else PassedCount(results[..|results| - 1]) + (if results[|results| - 1].passed then 1 else 0)
  }

  /** All results passed exactly when the passed count is the number of results. */
  lemma {:induction false} AllPassedIffCount(results: seq<A.AssertionResult>)
    ensures PassedCount(results) == |results| <==> forall i :: 0 <= i < |results| ==> results[i].passed
  {
    if results != [] {
      var init := results[..|results| - 1];
      AllPassedIffCount(init);
      if PassedCount(results) == |results| {
        forall i | 0 <= i < |results| ensures results[i].passed {
          if i < |init| {
            assert init[i] == results[i];
          }
        }
      }
      if forall i :: 0 <= i < |results| ==> results[i].passed {
        forall i | 0 <= i < |init| ensures init[i].passed {
          assert init[i] == results[i];
        }
        assert results[|results| - 1].passed;
      }
    }
  }

  /** The given lines, each ended by a newline. */
  function JoinLines(ls: seq<string>): string {
    if ls == [] then "" else ls[0] + "\n" + JoinLines(ls[1..])
  }

  /** One result's summary line per result, each ended by a newline. */
  function Lines(results: seq<A.AssertionResult>): string {
    JoinLines(seq(|results|, i requires 0 <= i < |results| => A.Summary(results[i])))
  }

  /** Joining two runs of lines is joining each, one after the other. */
  lemma {:induction false} JoinLinesAppend(a: seq<string>, b: seq<string>)
    ensures JoinLines(a + b) == JoinLines(a) + JoinLines(b)
  {
    if a != [] {
      assert (a + b)[0] == a[0];
      assert (a + b)[1..] == a[1..] + b;
      JoinLinesAppend(a[1..], b);
    } else {
      assert a + b == b;
    }
  }

  /** The lines of two runs of results are the lines of each, one after the other. */
  lemma LinesAppend(a: seq<A.AssertionResult>, b: seq<A.AssertionResult>)
    ensures Lines(a + b) == Lines(a) + Lines(b)
  {
    var sa := seq(|a|, i requires 0 <= i < |a| => A.Summary(a[i]));
    var sb := seq(|b|, i requires 0 <= i < |b| => A.Summary(b[i]));
    var ab := a + b;
    assert seq(|ab|, i requires 0 <= i < |ab| => A.Summary(ab[i])) == sa + sb;
    JoinLinesAppend(sa, sb);
  }

  /** A text found in `t` is still found after something is put in front of it. */
  lemma ContainsAfter(h: string, t: string, sub: string)
    requires Text.Contains(t, sub)
    ensures Text.Contains(h + t, sub)
  {
    var k :| 0 <= k <= |t| - |sub| && Text.OccursAt(t, sub, k);
    assert (h + t)[|h| + k..|h| + k + |sub|] == t[k..k + |sub|];
    assert Text.OccursAt(h + t, sub, |h| + k);
  }

  /** A text is found at the front of anything it starts. */
  lemma ContainsFront(h: string, t: string)
    ensures Text.Contains(h + t, h)
  {
    assert (h + t)[0..|h|] == h;
    assert Text.OccursAt(h + t, h, 0);
  }

  /** Every line appears, ended by its newline, in the joined text. */
  lemma {:induction false} JoinLinesHoldEach(ls: seq<string>, i: nat)
    requires i < |ls|
    ensures Text.Contains(JoinLines(ls), ls[i] + "\n")
  {
    var head := ls[0] + "\n";
    var tail := JoinLines(ls[1..]);
    assert JoinLines(ls) == head + tail;
    if i == 0 {
      ContainsFront(head, tail);
    } else {
      assert ls[1..][i - 1] == ls[i];
      JoinLinesHoldEach(ls[1..], i - 1);
      ContainsAfter(head, tail, ls[i] + "\n");
    }
  }

  /** Every result's summary appears, as a line of its own, in the lines of the results. */
  lemma LinesHoldEach(results: seq<A.AssertionResult>, i: nat)
    requires i < |results|
    ensures Text.Contains(Lines(results), A.Summary(results[i]) + "\n")
  {
    JoinLinesHoldEach(seq(|results|, k requires 0 <= k < |results| => A.Summary(results[k])), i);
  }

  /** The report summary: all passed with the total, or the number failed out of the total. */
  function SummaryText(success: bool, failed: nat, total: nat): (s: string)
    ensures |s| > 0 && (s[0] == '✓' <==> success)
    ensures success ==> Text.StripPrefix(s, "✓ All ") == Some(Text.NatToString(total) + " assertions passed")
    ensures !success ==>
      Text.StripPrefix(s, "✗ ") == Some(Text.NatToString(failed) + " of " + Text.NatToString(total) + " assertions failed")
  {
    if success then
      var rest := Text.NatToString(total) + " assertions passed";
      Text.StripPrefixAppend("✓ All ", rest);
      "✓ All " + rest
    else
      var rest := Text.NatToString(failed) + " of " + Text.NatToString(total) + " assertions failed";
      Text.StripPrefixAppend("✗ ", rest);
      "✗ " + rest
  }


  /** `ValidationReport`: the results in order and the counters kept beside them. */
  class ValidationReport {
    var results: seq<A.AssertionResult>
    var total: nat
    var passed: nat
    var failed: nat
    var success: bool

    /** The counters agree with the results: `total == passed + failed`, and success means nothing failed. */
    ghost predicate Valid()
      reads this
    {
      && total == |results|
      && passed == PassedCount(results)
      && failed == total - passed
      && (success <==> failed == 0)
    }

    /** `ValidationReport::new`: no results, all counters zero, successful. */
    constructor ()
      ensures results == [] && total == 0 && passed == 0 && failed == 0 && success
      ensures Valid()
    {
      results := [];
      total := 0;
      passed := 0;
      failed := 0;
      success := true;
    }

    /** `add_result`: appends the result, counts it as passed or failed, and keeps the counters valid. */
    method AddResult(r: A.AssertionResult)
      modifies this
      ensures results == old(results) + [r]
      ensures total == old(total) + 1
      ensures passed == old(passed) + (if r.passed then 1 else 0)
      ensures failed == old(failed) + (if r.passed then 0 else 1)
      ensures success == (old(success) && r.passed)
      ensures old(Valid()) ==> Valid()
    {
      ghost var before := results;
      if r.passed {
        passed := passed + 1;
      } else {
        failed := failed + 1;
        success := false;
      }
      total := total + 1;
      results := results + [r];
      assert results[..|results| - 1] == before;
    }

    /** `summary` */
    function Summary(): string
      reads this
    {
      SummaryText(success, failed, total)
    }

    /** `detailed_report`: the summary, a blank line, then one line per result. */
    function DetailedReport(): (s: string)
      reads this
      ensures Text.StripPrefix(s, Summary() + "\n\n") == Some(Lines(results))
    {
      var head := Summary() + "\n\n";
      var s := head + Lines(results);
      assert s[..|head|] == head;
      s
    }
  }

  // ---- Validating a list of assertions

  /** How many of the assertions are enabled, counted from the front. */
  function EnabledCount(assertions: seq<A.Assertion>): nat {
    if assertions == [] then 0
    else (if assertions[0].enabled then 1 else 0) + EnabledCount(assertions[1..])
  }

  /** Counting the enabled assertions of two lists one after the other. */
  lemma {:induction false} EnabledCountAppend(xs: seq<A.Assertion>, ys: seq<A.Assertion>)
    ensures EnabledCount(xs + ys) == EnabledCount(xs) + EnabledCount(ys)
  {
    if xs != [] {
      assert (xs + ys)[1..] == xs[1..] + ys;
      EnabledCountAppend(xs[1..], ys);
    } else {
      assert xs + ys == ys;
    }
  }

  /**
   * The enabled assertions, in their original order: an assertion is kept
   * exactly when it is enabled, and there is one entry per enabled one.
   */
  function Enabled(assertions: seq<A.Assertion>): (r: seq<A.Assertion>)
    ensures |r| == EnabledCount(assertions)
    ensures forall i :: 0 <= i < |r| ==> r[i].enabled
    ensures forall a :: a in r <==> a in assertions && a.enabled
  {
    if assertions == [] then []
    else
      var init := assertions[..|assertions| - 1];
      var last := assertions[|assertions| - 1];
      assert assertions == init + [last];
      EnabledCountAppend(init, [last]);
      Enabled(init) + (if last.enabled then [last] else [])
  }

  /** Filtering two lists one after the other keeps each list's enabled assertions, the first's in front. */
  lemma {:induction false} EnabledAppend(xs: seq<A.Assertion>, ys: seq<A.Assertion>)
    ensures Enabled(xs + ys) == Enabled(xs) + Enabled(ys)
    decreases |ys|
  {
    if ys == [] {
      assert xs + ys == xs;
    } else {
      var init := ys[..|ys| - 1];
      var last := ys[|ys| - 1];
      assert (xs + ys)[..|xs + ys| - 1] == xs + init;
      assert (xs + ys)[|xs + ys| - 1] == last;
      EnabledAppend(xs, init);
    }
  }

  /** The results `validate` collects: one per enabled assertion, in order. */
  function ValidateAll(resp: Response.HttpResponse, assertions: seq<A.Assertion>,
                       regex: Matchers.RegexOracle, parse: Json.Parser): (r: seq<A.AssertionResult>)
    ensures |r| == |Enabled(assertions)|
  {
    if assertions == [] then []
    else
      var last := assertions[|assertions| - 1];
      ValidateAll(resp, assertions[..|assertions| - 1], regex, parse)
        + (if last.enabled then [ValidateAssertion(resp, last, regex, parse)] else [])
  }

  /** The i-th result is the i-th enabled assertion's own result; disabled assertions leave no trace. */
  lemma {:induction false} ValidateAllEnabled(resp: Response.HttpResponse, assertions: seq<A.Assertion>,
                                              regex: Matchers.RegexOracle, parse: Json.Parser)
    ensures forall i :: 0 <= i < |Enabled(assertions)| ==>
      ValidateAll(resp, assertions, regex, parse)[i] == ValidateAssertion(resp, Enabled(assertions)[i], regex, parse)
  {
    if assertions != [] {
      var init := assertions[..|assertions| - 1];
      ValidateAllEnabled(resp, init, regex, parse);
    }
  }

  /** One more assertion of the list adds its result, when it is enabled. */
  lemma ValidateAllStep(resp: Response.HttpResponse, assertions: seq<A.Assertion>, i: nat,
                        regex: Matchers.RegexOracle, parse: Json.Parser)
    requires i < |assertions|
    ensures ValidateAll(resp, assertions[..i + 1], regex, parse)
      == ValidateAll(resp, assertions[..i], regex, parse)
         + (if assertions[i].enabled then [ValidateAssertion(resp, assertions[i], regex, parse)] else [])
  {
    assert assertions[..i + 1][..i] == assertions[..i];
  }

  /** `validate`: runs every enabled assertion in order and reports on them. */
  method Validate(resp: Response.HttpResponse, assertions: seq<A.Assertion>,
                  regex: Matchers.RegexOracle, parse: Json.Parser) returns (report: ValidationReport)
    ensures fresh(report) && report.Valid()
    ensures report.results == ValidateAll(resp, assertions, regex, parse)
    ensures report.total == |Enabled(assertions)|
  {
    report := new ValidationReport();
    var i := 0;
    while i < |assertions|
      invariant 0 <= i <= |assertions|
      invariant report.Valid()
      invariant report.results == ValidateAll(resp, assertions[..i], regex, parse)
    {
      ValidateAllStep(resp, assertions, i, regex, parse);
      var a := assertions[i];
      if a.enabled {
        var r := ValidateAssertion(resp, a, regex, parse);
        report.AddResult(r);
      }
      i := i + 1;
    }
    assert assertions[..i] == assertions;
  }

  /** A valid report is successful exactly when every result in it passed. */
  lemma ReportSuccess(report: ValidationReport)
    requires report.Valid()
    ensures report.success <==> forall i :: 0 <= i < |report.results| ==> report.results[i].passed
  {
    AllPassedIffCount(report.results);
  }
}
