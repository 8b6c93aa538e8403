/**
 * The interactive mode's command parser: after the shell-like tokenising
 * (not part of this model), a request command is the URL followed by
 * `-H`/`--header`, `-q`/`--query` and `-b`/`--body` options, each taking
 * the next argument as its value.
 */
module CommandParser {
  import opened Wrappers
  import Errors
  import Request
  import Seqs

  /** The three options a request command takes. */
  datatype Flag = HeaderFlag | QueryFlag | BodyFlag

  /** Which option an argument names, long or short. */
  function FlagOf(arg: string): (f: Option<Flag>)
    ensures f == Some(HeaderFlag) <==> arg == "-H" || arg == "--header"
    ensures f == Some(QueryFlag) <==> arg == "-q" || arg == "--query"
    ensures f == Some(BodyFlag) <==> arg == "-b" || arg == "--body"
  {
    if arg == "-H" || arg == "--header" then Some(HeaderFlag)
    else if arg == "-q" || arg == "--query" then Some(QueryFlag)
    else if arg == "-b" || arg == "--body" then Some(BodyFlag)
    else None
  }

  /** The message for an option given as the last argument. */
  function MissingValue(f: Flag): string {
    match f
    case HeaderFlag => "Missing value for -H flag"
    case QueryFlag => "Missing value for -q flag"
    case BodyFlag => "Missing value for -b flag"
  }

  /** The effect of one option and its value on the request being built. */
  function ApplyFlag(b: Request.RequestBuilder, f: Flag, value: string): Request.RequestBuilder {
    match f
    case HeaderFlag => Request.Header(b, value)
    case QueryFlag => Request.Query(b, value)
    case BodyFlag => Request.Body(b, value)
  }

  /** The options from position `i` on, read two arguments at a time. */
  function ParseOptions(b: Request.RequestBuilder, args: seq<string>, i: nat): Result<Request.RequestBuilder, Errors.Error>
    decreases |args| - i
  {
    if i >= |args| then Ok(b)
    else match FlagOf(args[i])
      case None => Err(Errors.InvalidCommand("Unknown option: " + args[i]))
      case Some(f) =>
        if i + 1 < |args| then ParseOptions(ApplyFlag(b, f, args[i + 1]), args, i + 2)
        else Err(Errors.MissingArgument(MissingValue(f)))
  }

  /** `CommandParser::parse_http_command` as a value. */
  function Parse(httpMethod: string, args: seq<string>): (r: Result<Request.RequestBuilder, Errors.Error>)
    ensures args == [] ==> r == Err(Errors.MissingArgument("Missing URL. Usage: " + httpMethod + " <url> [options]"))
    ensures args != [] && Request.FromStr(httpMethod).Err? ==> r == Err(Request.FromStr(httpMethod).error)
    ensures r.Ok? ==> args != [] && r.value.url == args[0] && Request.FromStr(httpMethod) == Ok(r.value.httpMethod)
  {
    if args == [] then Err(Errors.MissingArgument("Missing URL. Usage: " + httpMethod + " <url> [options]"))
    else match Request.FromStr(httpMethod)
      case Err(e) => Err(e)
      case Ok(m) =>
        var b := Request.New(m, args[0]);
        OptionsKeep(b, args, 1);
        ParseOptions(b, args, 1)
  }

  /** Options never change the method or the URL. */
  lemma {:induction false} OptionsKeep(b: Request.RequestBuilder, args: seq<string>, i: nat)
    ensures ParseOptions(b, args, i).Ok? ==>
      ParseOptions(b, args, i).value.httpMethod == b.httpMethod && ParseOptions(b, args, i).value.url == b.url
    decreases |args| - i
  {
    if i < |args| && FlagOf(args[i]).Some? && i + 1 < |args| {
      OptionsKeep(ApplyFlag(b, FlagOf(args[i]).value, args[i + 1]), args, i + 2);
    }
  }

  /** `CommandParser::parse_http_command`: the loop advances two arguments per option. */
  method ParseHttpCommand(httpMethod: string, args: seq<string>) returns (r: Result<Request.RequestBuilder, Errors.Error>)
    ensures r == Parse(httpMethod, args)
  {
    if |args| == 0 {
      return Err(Errors.MissingArgument("Missing URL. Usage: " + httpMethod + " <url> [options]"));
    }
    var url := args[0];
    var m := Request.FromStr(httpMethod);
    if m.Err? {
      return Err(m.error);
    }
    var builder := Request.New(m.value, url);
    var i := 1;
    while i < |args|
      invariant 1 <= i <= |args|
      invariant ParseOptions(builder, args, i) == Parse(httpMethod, args)
      decreases |args| - i
    {
      var f := FlagOf(args[i]);
      if f.None? {
        return Err(Errors.InvalidCommand("Unknown option: " + args[i]));
      }
      if i + 1 < |args| {
        builder := ApplyFlag(builder, f.value, args[i + 1]);
        i := i + 2;
      } else {
        return Err(Errors.MissingArgument(MissingValue(f.value)));
      }
    }
    r := Ok(builder);
  }

  /** Every option from `i` on is a known flag followed by a value. */
  predicate WellFormed(args: seq<string>, i: nat) {
    forall k :: i <= k < |args| && (k - i) % 2 == 0 ==> FlagOf(args[k]).Some? && k + 1 < |args|
  }

  /** The values given to option `f` from position `i` on, in order. */
  function ValuesOf(args: seq<string>, i: nat, f: Flag): seq<string>
    decreases |args| - i
  {
    if i + 1 >= |args| then []
    else (if FlagOf(args[i]) == Some(f) then [args[i + 1]] else []) + ValuesOf(args, i + 2, f)
  }

  /** The value of the last `-b` from position `i` on. */
  function LastBody(args: seq<string>, i: nat): Option<string>
    decreases |args| - i
  {
    if i + 1 >= |args| then None
    else if LastBody(args, i + 2).Some? then LastBody(args, i + 2)
    else if FlagOf(args[i]) == Some(BodyFlag) then Some(args[i + 1])
    else None
  }

  /**
   * Well-formed options succeed: header and query values accumulate after
   * the builder's own in the order given, and the last `-b` wins.
   */
  lemma {:induction false} OptionsOk(b: Request.RequestBuilder, args: seq<string>, i: nat)
    requires WellFormed(args, i)
    ensures ParseOptions(b, args, i) == Ok(b.(
      headers := b.headers + ValuesOf(args, i, HeaderFlag),
      queryParams := b.queryParams + ValuesOf(args, i, QueryFlag),
      body := if LastBody(args, i).Some? then LastBody(args, i) else b.body))
    decreases |args| - i
  {
    if i < |args| {
      WellFormedStep(args, i);
      var f := FlagOf(args[i]).value;
      var b' := ApplyFlag(b, f, args[i + 1]);
      OptionsOk(b', args, i + 2);
      ValuesStep(b, args, i);
    } else {
      assert b.headers + [] == b.headers && b.queryParams + [] == b.queryParams;
    }
  }

  /** Well-formed options start with a flag and its value, and go on well formed. */
  lemma WellFormedStep(args: seq<string>, i: nat)
    requires WellFormed(args, i) && i < |args|
    ensures FlagOf(args[i]).Some? && i + 1 < |args| && WellFormed(args, i + 2)
  {
    forall k | i + 2 <= k < |args| && (k - (i + 2)) % 2 == 0
      ensures FlagOf(args[k]).Some? && k + 1 < |args|
    {
      assert (k - i) % 2 == 0;
    }
  }

  /** One option moves its value from the pending values onto the builder. */
  lemma ValuesStep(b: Request.RequestBuilder, args: seq<string>, i: nat)
    requires i + 1 < |args| && FlagOf(args[i]).Some?
    ensures var b' := ApplyFlag(b, FlagOf(args[i]).value, args[i + 1]);
      b.headers + ValuesOf(args, i, HeaderFlag) == b'.headers + ValuesOf(args, i + 2, HeaderFlag)
      && b.queryParams + ValuesOf(args, i, QueryFlag) == b'.queryParams + ValuesOf(args, i + 2, QueryFlag)
  {
    var v := args[i + 1];
    match FlagOf(args[i]).value
    case HeaderFlag =>
      Seqs.AppendAssoc(b.headers, [v], ValuesOf(args, i + 2, HeaderFlag));
      assert ValuesOf(args, i, QueryFlag) == [] + ValuesOf(args, i + 2, QueryFlag);
    case QueryFlag =>
      Seqs.AppendAssoc(b.queryParams, [v], ValuesOf(args, i + 2, QueryFlag));
      assert ValuesOf(args, i, HeaderFlag) == [] + ValuesOf(args, i + 2, HeaderFlag);
    case BodyFlag =>
      assert ValuesOf(args, i, HeaderFlag) == [] + ValuesOf(args, i + 2, HeaderFlag);
      assert ValuesOf(args, i, QueryFlag) == [] + ValuesOf(args, i + 2, QueryFlag);
  }

  /**
   * Options that are not well formed fail at the first bad position: an
   * unknown argument is an `InvalidCommand`, an option with nothing after it
   * a `MissingArgument`.
   */
  lemma {:induction false} OptionsErr(b: Request.RequestBuilder, args: seq<string>, i: nat, j: nat)
    requires i <= j < |args| && (j - i) % 2 == 0
    requires forall k :: i <= k < j && (k - i) % 2 == 0 ==> FlagOf(args[k]).Some? && k + 1 < |args|
    requires FlagOf(args[j]).None? || j + 1 == |args|
    ensures ParseOptions(b, args, i) ==
      if FlagOf(args[j]).None? then Err(Errors.InvalidCommand("Unknown option: " + args[j]))
      else Err(Errors.MissingArgument(MissingValue(FlagOf(args[j]).value)))
    decreases |args| - i
  {
    if i < j {
      var f := FlagOf(args[i]).value;
      forall k | i + 2 <= k < j && (k - (i + 2)) % 2 == 0
        ensures FlagOf(args[k]).Some? && k + 1 < |args|
      {
        assert (k - i) % 2 == 0;
      }
      OptionsErr(ApplyFlag(b, f, args[i + 1]), args, i + 2, j);
    }
  }

  /** Parsing succeeds exactly when the arguments after the URL are well formed. */
  lemma {:induction false} OptionsOkIff(b: Request.RequestBuilder, args: seq<string>, i: nat)
    ensures ParseOptions(b, args, i).Ok? <==> WellFormed(args, i)
    decreases |args| - i
  {
    if i < |args| {
      var f := FlagOf(args[i]);
      if f.Some? && i + 1 < |args| {
        OptionsOkIff(ApplyFlag(b, f.value, args[i + 1]), args, i + 2);
        if WellFormed(args, i + 2) {
          forall k | i <= k < |args| && (k - i) % 2 == 0
            ensures FlagOf(args[k]).Some? && k + 1 < |args|
          {
            if k > i {
              assert (k - (i + 2)) % 2 == 0;
            }
          }
        } else {
          var k :| i + 2 <= k < |args| && (k - (i + 2)) % 2 == 0 && !(FlagOf(args[k]).Some? && k + 1 < |args|);
          assert (k - i) % 2 == 0;
        }
      } else {
        assert !(FlagOf(args[i]).Some? && i + 1 < |args|);
      }
    }
  }
}
