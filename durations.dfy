/**
 * Elapsed times, kept in whole milliseconds, and the `{:?}` rendering the
 * step and chain summaries print them with: "0ns", then "<n>ms" below one
 * second, then seconds with the non-zero millisecond digits as a fraction
 * ("1.5s", "2s", "1.025s").
 */
module Durations {
  import opened Wrappers
  import Text

  /** The digits of a fraction of a second, without the trailing zeros. */
  function FractionDigits(f: nat): (r: string)
    requires 0 < f < 1000
    ensures 1 <= |r| <= 3 && r[|r| - 1] != '0'
    ensures Text.AllDigits(r)
  {
    var d := [Text.DigitChar(f / 100), Text.DigitChar(f / 10 % 10), Text.DigitChar(f % 10)];
    if f % 100 == 0 then d[..1]
    else if f % 10 == 0 then d[..2]
    else d
  }

  /** `Duration`'s `{:?}` rendering of a whole number of milliseconds. */
  function DebugMs(ms: nat): (r: string)
    ensures |r| >= 2 && r[|r| - 1] == 's'
    ensures ms == 0 ==> r == "0ns"
    ensures 0 < ms < 1000 ==> |r| > 2 && r[|r| - 2..] == "ms" && Text.ParseUnsigned(r[..|r| - 2]) == Some(ms)
    ensures ms >= 1000 && ms % 1000 == 0 ==> Text.ParseUnsigned(r[..|r| - 1]) == Some(ms / 1000)
    ensures ms >= 1000 && ms % 1000 != 0 ==> '.' in r
  {
    if ms == 0 then "0ns"
    else if ms < 1000 then
      var n := Text.NatToString(ms);
      Text.NatToStringValue(ms);
      assert n[0] != '+';
      var r := n + "ms";
      assert r[..|r| - 2] == n;
      r
    else
      var n := Text.NatToString(ms / 1000);
      Text.NatToStringValue(ms / 1000);
      assert n[0] != '+';
      if ms % 1000 == 0 then
        var r := n + "s";
        assert r[..|r| - 1] == n;
        r
      else
        var r := n + "." + FractionDigits(ms % 1000) + "s";
        assert r[|n|] == '.';
        r
  }
}
