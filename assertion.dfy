/**
 * Assertions: what part of a response is checked (status, a header, the
 * body, the response time, a value inside the JSON body, or a free-form
 * custom check), with which matcher, and the result one check produced.
 */
module Assertions {
  import opened Wrappers
  import Text
  import Matchers

  datatype AssertionType =
    | StatusCode
    | Header(headerName: string)
    | Body
    | ResponseTime
    | JsonPath(path: string)
    | Custom(text: string)

  datatype Assertion = Assertion(
    assertionType: AssertionType,
    matcher: Matchers.Matcher,
    description: Option<string>,
    enabled: bool)

  /** `Assertion::new`: enabled, without a description. */
  function New(t: AssertionType, m: Matchers.Matcher): (a: Assertion)
    ensures a.assertionType == t && a.matcher == m
    ensures a.enabled && a.description.None?
  {
    Assertion(t, m, None, true)
  }

  /** `Assertion::status_code` */
  function StatusCodeAssertion(m: Matchers.Matcher): (a: Assertion)
    ensures a.assertionType.StatusCode? && a.matcher == m
    ensures a.enabled && a.description.None?
  {
    New(StatusCode, m)
  }

  /** `Assertion::header` */
  function HeaderAssertion(name: string, m: Matchers.Matcher): (a: Assertion)
    ensures a.assertionType == Header(name) && a.matcher == m
    ensures a.enabled && a.description.None?
  {
    New(Header(name), m)
  }

  /** `Assertion::body` */
  function BodyAssertion(m: Matchers.Matcher): (a: Assertion)
    ensures a.assertionType.Body? && a.matcher == m
    ensures a.enabled && a.description.None?
  {
    New(Body, m)
  }

  /** `Assertion::response_time` */
  function ResponseTimeAssertion(m: Matchers.Matcher): (a: Assertion)
    ensures a.assertionType.ResponseTime? && a.matcher == m
    ensures a.enabled && a.description.None?
  {
    New(ResponseTime, m)
  }

  /** `Assertion::json_path` */
  function JsonPathAssertion(path: string, m: Matchers.Matcher): (a: Assertion)
    ensures a.assertionType == JsonPath(path) && a.matcher == m
    ensures a.enabled && a.description.None?
  {
    New(JsonPath(path), m)
  }

  /** `with_description`: sets the description and keeps every other field. */
  function WithDescription(a: Assertion, d: string): (r: Assertion)
    ensures r.description == Some(d)
    ensures r.assertionType == a.assertionType && r.matcher == a.matcher && r.enabled == a.enabled
  {
    a.(description := Some(d))
  }

  /** `with_enabled`: sets the flag and keeps every other field. */
  function WithEnabled(a: Assertion, enabled: bool): (r: Assertion)
    ensures r.enabled == enabled
    ensures r.assertionType == a.assertionType && r.matcher == a.matcher && r.description == a.description
  {
    a.(enabled := enabled)
  }

  // ---- Results

  datatype AssertionResult = AssertionResult(
    assertion: Assertion,
    passed: bool,
    actualValue: string,
    expectedValue: string,
    errorMessage: Option<string>)

  /** A result carries an error message exactly when it failed. */
  predicate WellFormed(r: AssertionResult) {
    r.passed <==> r.errorMessage.None?
  }

  /** `AssertionResult::pass` */
  function Pass(a: Assertion, actual: string, expected: string): (r: AssertionResult)
    ensures r.passed && WellFormed(r)
    ensures r.assertion == a && r.actualValue == actual && r.expectedValue == expected
  {
    AssertionResult(a, true, actual, expected, None)
  }

  /** `AssertionResult::fail` */
  function Fail(a: Assertion, actual: string, expected: string, error: string): (r: AssertionResult)
    ensures !r.passed && WellFormed(r) && r.errorMessage == Some(error)
    ensures r.assertion == a && r.actualValue == actual && r.expectedValue == expected
  {
    AssertionResult(a, false, actual, expected, Some(error))
  }

  /** The name a summary shows: the description, or "Assertion" without one. */
  function Label(a: Assertion): string {
    match a.description
    case Some(d) => d
    case None => "Assertion"
  }

  /**
   * `AssertionResult::summary`: a check mark and "PASS" for a passed result,
   * a cross, the expected value and the actual value for a failed one.
   */
  function Summary(r: AssertionResult): (s: string)
    ensures |s| > 0 && (s[0] == '✓' <==> r.passed)
    ensures r.passed ==> Text.StripPrefix(s, "✓ " + Label(r.assertion)) == Some(": PASS")
    ensures !r.passed ==>
      Text.StripPrefix(s, "✗ " + Label(r.assertion) + ": FAIL - Expected ")
        == Some(r.expectedValue + ", got " + r.actualValue)
  {
    var d := Label(r.assertion);
    if r.passed then
      var s := "✓ " + d + ": PASS";
      assert s[..|"✓ " + d|] == "✓ " + d;
      s
    else
      var head := "✗ " + d + ": FAIL - Expected ";
      var s := head + r.expectedValue + ", got " + r.actualValue;
      assert s[..|head|] == head;
      assert s[|head|..] == r.expectedValue + ", got " + r.actualValue;
      s
  }
}
