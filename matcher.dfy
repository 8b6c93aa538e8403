/**
 * The closed set of comparisons an assertion applies to the text it
 * extracted from a response. The expected value is always stored as text;
 * the numeric comparisons parse both sides as signed 64-bit decimals.
 */
module Matchers {
  import opened Wrappers
  import Text
  import Utf8

  datatype MatcherType =
    | Equals | NotEquals | Contains | NotContains | StartsWith | EndsWith | Regex
    | LessThan | LessThanOrEqual | GreaterThan | GreaterThanOrEqual
    | IsEmpty | IsNotEmpty | HasLength | IsNull | IsNotNull

  /** `Matcher::new(matcher_type, expected)`; the string constructors (`contains`, `regex`, …) are this constructor with their kind. */
  datatype Matcher = Matcher(matcherType: MatcherType, expected: string)

  /**
   * The regular-expression engine, which is not part of this model: whether
   * the pattern compiles and matches somewhere in the text.
   */
  type RegexOracle = (string, string) -> bool

  /** Both sides parse as i64 and satisfy `cmp`; false as soon as either side does not parse. */
  predicate Compare(actual: string, expected: string, cmp: (int, int) -> bool) {
    match (Text.ParseI64(actual), Text.ParseI64(expected))
    case (Some(a), Some(e)) => cmp(a, e)
    case _ => false
  }

  /** `Matcher::matches` */
  predicate Matches(m: Matcher, actual: string, regex: RegexOracle) {
    match m.matcherType
    case Equals => actual == m.expected
    case NotEquals => actual != m.expected
    case Contains => Text.Contains(actual, m.expected)
    case NotContains => !Text.Contains(actual, m.expected)
    case StartsWith => Text.IsPrefix(m.expected, actual)
    case EndsWith => Text.IsSuffix(m.expected, actual)
    case Regex => regex(m.expected, actual)
    case LessThan => Compare(actual, m.expected, (a, e) => a < e)
    case LessThanOrEqual => Compare(actual, m.expected, (a, e) => a <= e)
    case GreaterThan => Compare(actual, m.expected, (a, e) => a > e)
    case GreaterThanOrEqual => Compare(actual, m.expected, (a, e) => a >= e)
    case IsEmpty => actual == ""
    case IsNotEmpty => actual != ""
    case HasLength =>
      (match Text.ParseUsize(m.expected)
       case Some(n) => Utf8.Len(actual) == n
       case None => false)
    case IsNull => actual == "" || actual == "null"
    case IsNotNull => actual != "" && actual != "null"
  }

  /** The kinds whose description does not show the expected value. */
  predicate ValueFree(t: MatcherType) {
    t == IsEmpty || t == IsNotEmpty || t == IsNull || t == IsNotNull
  }

  /** `Matcher::description` */
  function Description(m: Matcher): string {
    match m.matcherType
    case Equals => "equals '" + m.expected + "'"
    case NotEquals => "not equals '" + m.expected + "'"
    case Contains => "contains '" + m.expected + "'"
    case NotContains => "does not contain '" + m.expected + "'"
    case StartsWith => "starts with '" + m.expected + "'"
    case EndsWith => "ends with '" + m.expected + "'"
    case Regex => "matches regex '" + m.expected + "'"
    case LessThan => "< " + m.expected
    case LessThanOrEqual => "<= " + m.expected
    case GreaterThan => "> " + m.expected
    case GreaterThanOrEqual => ">= " + m.expected
    case IsEmpty => "is empty"
    case IsNotEmpty => "is not empty"
    case HasLength => "has length " + m.expected
    case IsNull => "is null"
    case IsNotNull => "is not null"
  }

  // ---- Integer constructors: the expected value is the decimal rendering

  /** A numeric constructor of the given kind (`equals`, `not_equals`, `less_than`, …). */
  function Numeric(t: MatcherType, v: int): (m: Matcher)
    requires Text.InI64(v)
    ensures m.matcherType == t && Text.ParseI64(m.expected) == Some(v)
  {
    Text.ParseI64IntToString(v);
    Matcher(t, Text.IntToString(v))
  }

  /** `Matcher::has_length` */
  function HasLengthMatcher(n: nat): (m: Matcher)
    requires n <= Text.USIZE_MAX
    ensures m.matcherType == HasLength && Text.ParseUsize(m.expected) == Some(n)
  {
    Text.ParseUsizeNatToString(n);
    Matcher(HasLength, Text.NatToString(n))
  }

  // ---- Properties of `matches`

  /** Each negated kind is the exact complement of its positive kind, for the same expected value. */
  lemma ComplementaryPairs(e: string, a: string, regex: RegexOracle)
    ensures Matches(Matcher(NotEquals, e), a, regex) == !Matches(Matcher(Equals, e), a, regex)
    ensures Matches(Matcher(NotContains, e), a, regex) == !Matches(Matcher(Contains, e), a, regex)
    ensures Matches(Matcher(IsNotEmpty, e), a, regex) == !Matches(Matcher(IsEmpty, e), a, regex)
    ensures Matches(Matcher(IsNotNull, e), a, regex) == !Matches(Matcher(IsNull, e), a, regex)
  {
  }

  /** `StartsWith` holds iff the actual text is the expected text followed by something. */
  lemma StartsWithSpec(e: string, a: string, regex: RegexOracle)
    ensures Matches(Matcher(StartsWith, e), a, regex) <==> exists rest :: a == e + rest
  {
    if exists rest :: a == e + rest {
      var rest :| a == e + rest;
      assert a[..|e|] == e;
    }
    if Matches(Matcher(StartsWith, e), a, regex) {
      assert a == e + a[|e|..];
    }
  }

  /** `EndsWith` holds iff the actual text is something followed by the expected text. */
  lemma EndsWithSpec(e: string, a: string, regex: RegexOracle)
    ensures Matches(Matcher(EndsWith, e), a, regex) <==> exists front :: a == front + e
  {
    if exists front :: a == front + e {
      var front :| a == front + e;
      assert a[|a| - |e|..] == e;
    }
    if Matches(Matcher(EndsWith, e), a, regex) {
      assert a == a[..|a| - |e|] + e;
    }
  }

  /** `e` occurs in `p + e + q`, right after `p`. */
  lemma OccursBetween(p: string, e: string, q: string)
    ensures Text.Contains(p + e + q, e)
  {
    var a := p + e + q;
    assert a[|p|..|p| + |e|] == e;
    assert Text.OccursAt(a, e, |p|);
  }

  /** An occurrence of `e` at `i` splits `a` around it. */
  lemma SplitAtOccurrence(a: string, e: string, i: int)
    requires Text.OccursAt(a, e, i)
    ensures a == a[..i] + e + a[i + |e|..]
  {
    assert a[..i] + a[i..i + |e|] + a[i + |e|..] == a;
  }

  /** The text `e` occurs in `a` exactly when `a` is `e` with something before and after it. */
  lemma ContainsIff(e: string, a: string)
    ensures Text.Contains(a, e) <==> exists p, q :: a == p + e + q
  {
    if exists p, q :: a == p + e + q {
      var p, q :| a == p + e + q;
      OccursBetween(p, e, q);
    }
    if Text.Contains(a, e) {
      var i :| 0 <= i <= |a| - |e| && Text.OccursAt(a, e, i);
      SplitAtOccurrence(a, e, i);
    }
  }

  /** `Contains` holds iff the expected text sits somewhere inside the actual text. */
  lemma ContainsSpec(e: string, a: string, regex: RegexOracle)
    ensures Matches(Matcher(Contains, e), a, regex) <==> exists p, q :: a == p + e + q
  {
    assert Matches(Matcher(Contains, e), a, regex) == Text.Contains(a, e);
    ContainsIff(e, a);
  }

  /**
   * On decimal renderings of i64 values the four ordering kinds are the four
   * integer comparisons, strict and inclusive.
   */
  lemma NumericComparisons(x: int, y: int, regex: RegexOracle)
    requires Text.InI64(x) && Text.InI64(y)
    ensures Matches(Numeric(LessThan, y), Text.IntToString(x), regex) <==> x < y
    ensures Matches(Numeric(LessThanOrEqual, y), Text.IntToString(x), regex) <==> x <= y
    ensures Matches(Numeric(GreaterThan, y), Text.IntToString(x), regex) <==> x > y
    ensures Matches(Numeric(GreaterThanOrEqual, y), Text.IntToString(x), regex) <==> x >= y
  {
    var s, t := Text.IntToString(x), Text.IntToString(y);
    Text.ParseI64IntToString(x);
    Text.ParseI64IntToString(y);
    OrderingsOfParsed(s, t, x, y, regex);
  }

  /** The ordering kinds compare the parsed values. */
  lemma OrderingsOfParsed(s: string, t: string, x: int, y: int, regex: RegexOracle)
    requires Text.ParseI64(s) == Some(x) && Text.ParseI64(t) == Some(y)
    ensures Matches(Matcher(LessThan, t), s, regex) <==> x < y
    ensures Matches(Matcher(LessThanOrEqual, t), s, regex) <==> x <= y
    ensures Matches(Matcher(GreaterThan, t), s, regex) <==> x > y
    ensures Matches(Matcher(GreaterThanOrEqual, t), s, regex) <==> x >= y
  {
  }

  /** `Equals` built from an i64 holds on the rendering of exactly that value. */
  lemma NumericEquals(x: int, y: int, regex: RegexOracle)
    requires Text.InI64(x) && Text.InI64(y)
    ensures Matches(Numeric(Equals, y), Text.IntToString(x), regex) <==> x == y
  {
    Text.ParseI64IntToString(x);
    Text.ParseI64IntToString(y);
    assert Numeric(Equals, y) == Matcher(Equals, Text.IntToString(y));
  }

  /**
   * A text that is not an i64 satisfies no numeric kind, so `LessThan` and
   * `GreaterThanOrEqual` are not complements there.
   */
  lemma NonNumericFailsAll(e: string, a: string, regex: RegexOracle)
    requires Text.ParseI64(a).None?
    ensures !Matches(Matcher(LessThan, e), a, regex) && !Matches(Matcher(GreaterThanOrEqual, e), a, regex)
    ensures !Matches(Matcher(LessThanOrEqual, e), a, regex) && !Matches(Matcher(GreaterThan, e), a, regex)
  {
  }

  /** "abc" is not a number: both `< e` and `>= e` fail on it. */
  lemma NumericNotComplement(e: string, regex: RegexOracle)
    ensures !Matches(Matcher(LessThan, e), "abc", regex) && !Matches(Matcher(GreaterThanOrEqual, e), "abc", regex)
  {
    Text.ParseRejectsNonDigit("abc", 0);
    NonNumericFailsAll(e, "abc", regex);
  }

  /** `has_length(n)` holds exactly for texts of n UTF-8 bytes; an unparsable expected length never holds. */
  lemma HasLengthSpec(n: nat, e: string, a: string, regex: RegexOracle)
    requires n <= Text.USIZE_MAX
    ensures Matches(HasLengthMatcher(n), a, regex) <==> Utf8.Len(a) == n
    ensures Text.ParseUsize(e).None? ==> !Matches(Matcher(HasLength, e), a, regex)
  {
  }

  /** `IsNull` holds for exactly two texts: the empty one and "null". */
  lemma IsNullSpec(e: string, a: string, regex: RegexOracle)
    ensures Matches(Matcher(IsNull, e), a, regex) <==> a in {"", "null"}
  {
  }

  /** The description shows the expected value, except for the four kinds that ignore it. */
  lemma DescriptionShowsExpected(m: Matcher, other: string)
    ensures !ValueFree(m.matcherType) ==> exists p, q :: Description(m) == p + m.expected + q
    ensures ValueFree(m.matcherType) ==> Description(m) == Description(Matcher(m.matcherType, other))
  {
    var e := m.expected;
    var d := Description(m);
    match m.matcherType
    case Equals => assert d == "equals '" + e + "'";
    case NotEquals => assert d == "not equals '" + e + "'";
    case Contains => assert d == "contains '" + e + "'";
    case NotContains => assert d == "does not contain '" + e + "'";
    case StartsWith => assert d == "starts with '" + e + "'";
    case EndsWith => assert d == "ends with '" + e + "'";
    case Regex => assert d == "matches regex '" + e + "'";
    case LessThan => assert d == "< " + e + "";
    case LessThanOrEqual => assert d == "<= " + e + "";
    case GreaterThan => assert d == "> " + e + "";
    case GreaterThanOrEqual => assert d == ">= " + e + "";
    case HasLength => assert d == "has length " + e + "";
    case _ =>
  }

  lemma DescriptionEquals()
    ensures Description(Numeric(Equals, 200)) == "equals '200'"
  {
    assert Text.NatToString(2) == "2";
    assert Text.NatToString(20) == "2" + "0";
    assert Text.NatToString(200) == "20" + "0";
    assert Numeric(Equals, 200) == Matcher(Equals, "200");
  }

  lemma DescriptionLessThan()
    ensures Description(Numeric(LessThan, 100)) == "< 100"
  {
    assert Text.NatToString(1) == "1";
    assert Text.NatToString(10) == "1" + "0";
    assert Text.NatToString(100) == "10" + "0";
    assert Numeric(LessThan, 100) == Matcher(LessThan, "100");
  }

  lemma DescriptionFixed()
    ensures Description(Matcher(Contains, "test")) == "contains 'test'"
    ensures Description(Matcher(IsEmpty, "")) == "is empty"
  {
  }
}
