/**
 * The `{{NAME}}` placeholder engine. The source finds placeholders with the
 * regular expression `\{\{([A-Za-z_][A-Za-z0-9_]*)\}\}`, scanning left to
 * right for non-overlapping leftmost matches; here that scan is written out
 * as a function that cuts a text into literal characters and tokens.
 */
module Substitution {
  import opened Wrappers
  import Seqs

  /** `[A-Za-z_]` */
  predicate IsIdentStart(c: char) {
    ('A' <= c <= 'Z') || ('a' <= c <= 'z') || c == '_'
  }

  /** `[A-Za-z0-9_]` */
  predicate IsIdentChar(c: char) {
    IsIdentStart(c) || ('0' <= c <= '9')
  }

  /** A variable name the pattern accepts: `[A-Za-z_][A-Za-z0-9_]*`. */
  predicate IsName(n: string) {
    n != [] && IsIdentStart(n[0]) && forall i :: 0 <= i < |n| ==> IsIdentChar(n[i])
  }

  /** The placeholder text for a name. */
  function Token(n: string): string {
    "{{" + n + "}}"
  }

  /** Length of the longest run of identifier characters at the start of `s`. */
  function IdentRun(s: string): (k: nat)
    ensures k <= |s|
    ensures forall i :: 0 <= i < k ==> IsIdentChar(s[i])
    ensures k == |s| || !IsIdentChar(s[k])
  {
    if |s| > 0 && IsIdentChar(s[0]) then 1 + IdentRun(s[1..]) else 0
  }

  /**
   * The match of the pattern that starts at the first character of `s`, as
   * the captured name and the length of the whole match.
   */
  function TokenAt(s: string): (r: Option<(string, nat)>)
    ensures r.Some? ==> 4 <= r.value.1 <= |s|
  {
    if |s| >= 3 && s[0] == '{' && s[1] == '{' && IsIdentStart(s[2]) then
      var k := IdentRun(s[2..]);
      if k + 4 <= |s| && s[k + 2] == '}' && s[k + 3] == '}' then
        Some((s[2..k + 2], k + 4))
      else None
    else None
  }

  /** A match is a placeholder for a valid name, and spans exactly that placeholder's text. */
  lemma TokenAtSpec(s: string)
    ensures TokenAt(s).Some? ==> IsName(TokenAt(s).value.0) && TokenAt(s).value.1 == |TokenAt(s).value.0| + 4
                                 && s[..TokenAt(s).value.1] == Token(TokenAt(s).value.0)
    ensures |s| > 0 && s[0] != '{' ==> TokenAt(s).None?
  {
    if TokenAt(s).Some? {
      var k := IdentRun(s[2..]);
      var name := s[2..k + 2];
      assert name[0] == s[2];
      assert s[..k + 4] == Token(name);
    }
  }

  /** A piece of a scanned text: one literal character, or one placeholder. */
  datatype Piece = Lit(c: char) | Tok(name: string)

  /** The scan the regular-expression search performs: leftmost match first, no overlaps. */
  function Pieces(s: string): seq<Piece>
    decreases |s|
  {
    if |s| == 0 then []
    else match TokenAt(s)
      case Some((name, len)) => [Tok(name)] + Pieces(s[len..])
      case None => [Lit(s[0])] + Pieces(s[1..])
  }

  /** The text a piece was scanned from. */
  function Source(p: Piece): string {
    match p
    case Lit(c) => [c]
    case Tok(n) => Token(n)
  }

  function Flatten(ps: seq<Piece>): string {
    if |ps| == 0 then [] else Source(ps[0]) + Flatten(ps[1..])
  }

  lemma FlattenCons(p: Piece, ps: seq<Piece>)
    ensures Flatten([p] + ps) == Source(p) + Flatten(ps)
  {
    assert ([p] + ps)[0] == p && ([p] + ps)[1..] == ps;
  }

  /** One step of the scan when a placeholder is at the front: it is taken whole. */
  lemma PiecesTok(s: string)
    requires TokenAt(s).Some?
    ensures Pieces(s) == [Tok(TokenAt(s).value.0)] + Pieces(s[TokenAt(s).value.1..])
    ensures Source(Tok(TokenAt(s).value.0)) == s[..TokenAt(s).value.1]
  {
    TokenAtSpec(s);
  }

  /** One step of the scan when no placeholder is at the front: one literal character. */
  lemma PiecesLit(s: string)
    requires |s| > 0 && TokenAt(s).None?
    ensures Pieces(s) == [Lit(s[0])] + Pieces(s[1..])
  {
  }

  lemma SplitAt(s: string, k: nat)
    requires k <= |s|
    ensures s == s[..k] + s[k..]
  {
  }

  /** Scanning loses nothing: the pieces spell the text again. */
  lemma {:induction false} FlattenPieces(s: string)
    ensures Flatten(Pieces(s)) == s
    decreases |s|
  {
    if |s| > 0 {
      if TokenAt(s).Some? {
        var name, len := TokenAt(s).value.0, TokenAt(s).value.1;
        PiecesTok(s);
        FlattenPieces(s[len..]);
        FlattenCons(Tok(name), Pieces(s[len..]));
        SplitAt(s, len);
      } else {
        PiecesLit(s);
        FlattenPieces(s[1..]);
        FlattenCons(Lit(s[0]), Pieces(s[1..]));
        SplitAt(s, 1);
      }
    }
  }

  /** The names of the placeholders, in order, duplicates kept. */
  function Names(ps: seq<Piece>): seq<string> {
    if |ps| == 0 then []
    else (if ps[0].Tok? then [ps[0].name] else []) + Names(ps[1..])
  }

  /**
   * The text with every placeholder replaced: by its value when the name is
   * a key, otherwise by `default` when there is one, otherwise by the
   * placeholder itself.
   */
  function Render(ps: seq<Piece>, vars: map<string, string>, default: Option<string>): string {
    if |ps| == 0 then [] else Replace(ps[0], vars, default) + Render(ps[1..], vars, default)
  }

  function Replace(p: Piece, vars: map<string, string>, default: Option<string>): string {
    match p
    case Lit(c) => [c]
    case Tok(n) => if n in vars then vars[n] else if default.Some? then default.value else Token(n)
  }

  /** `VariableSubstitutor::substitute` */
  function Substitute(text: string, vars: map<string, string>): string {
    Render(Pieces(text), vars, None)
  }

  /** `VariableSubstitutor::substitute_with_default` */
  function SubstituteWithDefault(text: string, vars: map<string, string>, default: string): string {
    Render(Pieces(text), vars, Some(default))
  }

  /** `VariableSubstitutor::find_variables` */
  function FindVariables(text: string): seq<string> {
    Names(Pieces(text))
  }

  /** `VariableSubstitutor::has_variables`: the pattern matches somewhere in the text. */
  predicate HasVariables(text: string) {
    exists i :: 0 <= i < |text| && TokenAt(text[i..]).Some?
  }

  /** `VariableSubstitutor::substitute_multiple` */
  function SubstituteMultiple(texts: seq<string>, vars: map<string, string>): (r: seq<string>)
    ensures |r| == |texts|
    ensures forall i :: 0 <= i < |texts| ==> r[i] == Substitute(texts[i], vars)
  {
    seq(|texts|, i requires 0 <= i < |texts| => Substitute(texts[i], vars))
  }

  /** The referenced names that are not keys, in order of appearance. */
  function Missing(names: seq<string>, vars: map<string, string>): (r: seq<string>)
    ensures |r| <= |names|
  {
    if |names| == 0 then []
    else (if names[0] in vars then [] else [names[0]]) + Missing(names[1..], vars)
  }

  /** A name is reported missing exactly when it is referenced and is not a key. */
  lemma {:induction false} MissingSpec(names: seq<string>, vars: map<string, string>)
    ensures forall n :: n in Missing(names, vars) <==> n in names && n !in vars
  {
    if |names| > 0 {
      MissingSpec(names[1..], vars);
      assert names == [names[0]] + names[1..];
    }
  }

  lemma {:induction false} MissingAppend(a: seq<string>, b: seq<string>, vars: map<string, string>)
    ensures Missing(a + b, vars) == Missing(a, vars) + Missing(b, vars)
  {
    if |a| == 0 {
      assert a + b == b;
    } else {
      assert (a + b)[1..] == a[1..] + b;
      MissingAppend(a[1..], b, vars);
    }
  }

  /** The loop of `validate`: each name that is not a key is collected, in order. */
  method MissingNames(names: seq<string>, vars: map<string, string>) returns (missing: seq<string>)
    ensures missing == Missing(names, vars)
  {
    missing := [];
    var i := 0;
    while i < |names|
      invariant 0 <= i <= |names|
      invariant missing == Missing(names[..i], vars)
    {
      assert names[..i + 1] == names[..i] + [names[i]];
      MissingAppend(names[..i], [names[i]], vars);
      if names[i] !in vars {
        missing := missing + [names[i]];
      }
      i := i + 1;
    }
    assert names[..i] == names;
  }

  /** `VariableSubstitutor::validate` */
  method Validate(text: string, vars: map<string, string>) returns (r: Result<(), seq<string>>)
    ensures r.Ok? <==> forall n :: n in FindVariables(text) ==> n in vars
    ensures r.Err? ==> r.error == Missing(FindVariables(text), vars) && r.error != []
  {
    var names := FindVariables(text);
    var missing := MissingNames(names, vars);
    MissingEmpty(names, vars);
    if |missing| == 0 {
      r := Ok(());
    } else {
      r := Err(missing);
    }
  }

  // ---- How the scan treats literal text and placeholders

  function Lits(s: string): (ps: seq<Piece>)
    ensures |ps| == |s|
  {
    if |s| == 0 then [] else [Lit(s[0])] + Lits(s[1..])
  }

  /** Text without '{' is literal, whatever follows it. */
  lemma {:induction false} PiecesPlain(lit: string, rest: string)
    requires '{' !in lit
    ensures Pieces(lit + rest) == Lits(lit) + Pieces(rest)
    decreases |lit|
  {
    var s := lit + rest;
    if |lit| > 0 {
      assert s[0] == lit[0] && s[1..] == lit[1..] + rest;
      TokenAtSpec(s);
      PiecesLit(s);
      PiecesPlain(lit[1..], rest);
      Seqs.AppendAssoc([Lit(lit[0])], Lits(lit[1..]), Pieces(rest));
    } else {
      assert s == rest;
    }
  }

  /** A placeholder for a valid name is a token, whatever follows it. */
  lemma PiecesToken(n: string, rest: string)
    requires IsName(n)
    ensures Pieces(Token(n) + rest) == [Tok(n)] + Pieces(rest)
  {
    var s := Token(n) + rest;
    TokenShape(n, rest);
    IdentRunName(n, "}}" + rest);
    assert TokenAt(s) == Some((n, |n| + 4));
    PiecesTok(s);
  }

  /** Where the parts of `{{n}}` followed by `rest` sit. */
  lemma TokenShape(n: string, rest: string)
    ensures var s := Token(n) + rest;
      |s| == |n| + 4 + |rest| && s[0] == '{' && s[1] == '{' && s[2..] == n + ("}}" + rest)
      && s[2..|n| + 2] == n && s[|n| + 2] == '}' && s[|n| + 3] == '}' && s[|n| + 4..] == rest
  {
    var s := Token(n) + rest;
    assert s == "{{" + (n + ("}}" + rest));
  }

  lemma {:induction false} IdentRunName(n: string, rest: string)
    requires forall i :: 0 <= i < |n| ==> IsIdentChar(n[i])
    requires rest != [] && !IsIdentChar(rest[0])
    ensures IdentRun(n + rest) == |n|
    decreases |n|
  {
    if |n| > 0 {
      assert (n + rest)[1..] == n[1..] + rest;
      IdentRunName(n[1..], rest);
    } else {
      assert n + rest == rest;
    }
  }

  lemma {:induction false} NamesAppend(a: seq<Piece>, b: seq<Piece>)
    ensures Names(a + b) == Names(a) + Names(b)
  {
    if |a| > 0 {
      assert (a + b)[1..] == a[1..] + b;
      NamesAppend(a[1..], b);
    } else {
      assert a + b == b;
    }
  }

  lemma {:induction false} RenderAppend(a: seq<Piece>, b: seq<Piece>, vars: map<string, string>, d: Option<string>)
    ensures Render(a + b, vars, d) == Render(a, vars, d) + Render(b, vars, d)
  {
    if |a| > 0 {
      var ab := a + b;
      assert ab[0] == a[0] && ab[1..] == a[1..] + b;
      RenderAppend(a[1..], b, vars, d);
      var x := Replace(a[0], vars, d);
      assert Render(ab, vars, d) == x + Render(ab[1..], vars, d);
      assert Render(a, vars, d) == x + Render(a[1..], vars, d);
    } else {
      assert a + b == b;
    }
  }

  lemma {:induction false} RenderLits(s: string, vars: map<string, string>, d: Option<string>)
    ensures Render(Lits(s), vars, d) == s && Names(Lits(s)) == []
  {
    if |s| > 0 {
      assert Lits(s)[1..] == Lits(s[1..]);
      RenderLits(s[1..], vars, d);
    }
  }

  /** `lits[0] + vals[0] + lits[1] + … + vals[n-1] + lits[n]` */
  function Interleave(lits: seq<string>, vals: seq<string>): string
    requires |lits| == |vals| + 1
  {
    if |vals| == 0 then lits[0] else lits[0] + (vals[0] + Interleave(lits[1..], vals[1..]))
  }

  function Tokens(names: seq<string>): (r: seq<string>)
    ensures |r| == |names| && forall i :: 0 <= i < |names| ==> r[i] == Token(names[i])
  {
    seq(|names|, i requires 0 <= i < |names| => Token(names[i]))
  }

  function Resolved(names: seq<string>, vars: map<string, string>, default: Option<string>): (r: seq<string>)
    ensures |r| == |names|
  {
    seq(|names|, i requires 0 <= i < |names| =>
      if names[i] in vars then vars[names[i]] else if default.Some? then default.value else Token(names[i]))
  }

  predicate PlainTexts(lits: seq<string>) {
    forall i :: 0 <= i < |lits| ==> '{' !in lits[i]
  }

  predicate AllNames(names: seq<string>) {
    forall i :: 0 <= i < |names| ==> IsName(names[i])
  }

  /** The pieces of a template: its literal parts as characters, its names as tokens. */
  function TemplatePieces(lits: seq<string>, names: seq<string>): seq<Piece>
    requires |lits| == |names| + 1
  {
    if |names| == 0 then Lits(lits[0])
    else Lits(lits[0]) + ([Tok(names[0])] + TemplatePieces(lits[1..], names[1..]))
  }

  lemma {:induction false} PiecesOfTemplate(lits: seq<string>, names: seq<string>)
    requires |lits| == |names| + 1 && PlainTexts(lits) && AllNames(names)
    ensures Pieces(Interleave(lits, Tokens(names))) == TemplatePieces(lits, names)
    decreases |names|
  {
    var t := Interleave(lits, Tokens(names));
    if |names| == 0 {
      assert t == lits[0] + [];
      PiecesPlain(lits[0], []);
    } else {
      var tail := Interleave(lits[1..], Tokens(names[1..]));
      assert Tokens(names)[1..] == Tokens(names[1..]);
      assert t == lits[0] + (Token(names[0]) + tail);
      PiecesOfTemplate(lits[1..], names[1..]);
      PiecesPlain(lits[0], Token(names[0]) + tail);
      PiecesToken(names[0], tail);
    }
  }

  lemma {:induction false} NamesOfTemplate(lits: seq<string>, names: seq<string>)
    requires |lits| == |names| + 1
    ensures Names(TemplatePieces(lits, names)) == names
    decreases |names|
  {
    RenderLits(lits[0], map[], None);
    if |names| > 0 {
      var rest := [Tok(names[0])] + TemplatePieces(lits[1..], names[1..]);
      NamesAppend(Lits(lits[0]), rest);
      assert rest[1..] == TemplatePieces(lits[1..], names[1..]);
      NamesOfTemplate(lits[1..], names[1..]);
    }
  }

  lemma {:induction false} RenderOfTemplate(lits: seq<string>, names: seq<string>, vars: map<string, string>, d: Option<string>)
    requires |lits| == |names| + 1
    ensures Render(TemplatePieces(lits, names), vars, d) == Interleave(lits, Resolved(names, vars, d))
    decreases |names|
  {
    RenderLits(lits[0], vars, d);
    if |names| > 0 {
      var more := TemplatePieces(lits[1..], names[1..]);
      RenderAppend(Lits(lits[0]), [Tok(names[0])] + more, vars, d);
      RenderCons(Tok(names[0]), more, vars, d);
      ResolvedCons(names, vars, d);
      RenderOfTemplate(lits[1..], names[1..], vars, d);
    }
  }

  lemma RenderCons(p: Piece, ps: seq<Piece>, vars: map<string, string>, d: Option<string>)
    ensures Render([p] + ps, vars, d) == Replace(p, vars, d) + Render(ps, vars, d)
  {
    assert ([p] + ps)[0] == p && ([p] + ps)[1..] == ps;
  }

  lemma ResolvedCons(names: seq<string>, vars: map<string, string>, d: Option<string>)
    requires |names| > 0
    ensures Resolved(names, vars, d)[0] == Replace(Tok(names[0]), vars, d)
    ensures Resolved(names, vars, d)[1..] == Resolved(names[1..], vars, d)
  {
  }

  // ---- Properties the source promises

  /**
   * In a text made of literal parts (no '{') and placeholders, `find_variables`
   * gives the names in order with duplicates, and `substitute` replaces
   * exactly the placeholders: a key by its value, which is not scanned again,
   * an unknown name by the placeholder itself.
   */
  lemma SubstituteTemplate(lits: seq<string>, names: seq<string>, vars: map<string, string>)
    requires |lits| == |names| + 1 && PlainTexts(lits) && AllNames(names)
    ensures FindVariables(Interleave(lits, Tokens(names))) == names
    ensures Substitute(Interleave(lits, Tokens(names)), vars) == Interleave(lits, Resolved(names, vars, None))
  {
    PiecesOfTemplate(lits, names);
    NamesOfTemplate(lits, names);
    RenderOfTemplate(lits, names, vars, None);
  }

  /** The same shape under `substitute_with_default`: unknown names become `default`. */
  lemma SubstituteWithDefaultTemplate(lits: seq<string>, names: seq<string>, vars: map<string, string>, default: string)
    requires |lits| == |names| + 1 && PlainTexts(lits) && AllNames(names)
    ensures SubstituteWithDefault(Interleave(lits, Tokens(names)), vars, default)
            == Interleave(lits, Resolved(names, vars, Some(default)))
  {
    PiecesOfTemplate(lits, names);
    RenderOfTemplate(lits, names, vars, Some(default));
  }

  lemma {:induction false} RenderNoTokens(ps: seq<Piece>, vars: map<string, string>, d: Option<string>)
    requires Names(ps) == []
    ensures Render(ps, vars, d) == Flatten(ps)
  {
    if |ps| > 0 {
      RenderNoTokens(ps[1..], vars, d);
    }
  }

  /** A text with no placeholder comes back unchanged from both substitutions. */
  lemma SubstituteNoVariables(text: string, vars: map<string, string>, default: string)
    requires FindVariables(text) == []
    ensures Substitute(text, vars) == text
    ensures SubstituteWithDefault(text, vars, default) == text
  {
    RenderNoTokens(Pieces(text), vars, None);
    RenderNoTokens(Pieces(text), vars, Some(default));
    FlattenPieces(text);
  }

  lemma {:induction false} RenderUnknown(ps: seq<Piece>, vars: map<string, string>)
    requires forall n :: n in Names(ps) ==> n !in vars
    ensures Render(ps, vars, None) == Flatten(ps)
  {
    if |ps| > 0 {
      assert forall n :: n in Names(ps[1..]) ==> n in Names(ps);
      RenderUnknown(ps[1..], vars);
    }
  }

  /** When no referenced name is a key, `substitute` keeps every placeholder verbatim. */
  lemma SubstituteUnknownKept(text: string, vars: map<string, string>)
    requires forall n :: n in FindVariables(text) ==> n !in vars
    ensures Substitute(text, vars) == text
  {
    RenderUnknown(Pieces(text), vars);
    FlattenPieces(text);
  }

  lemma {:induction false} RenderResolved(ps: seq<Piece>, vars: map<string, string>, d: string)
    requires forall n :: n in Names(ps) ==> n in vars
    ensures Render(ps, vars, Some(d)) == Render(ps, vars, None)
  {
    if |ps| > 0 {
      assert forall n :: n in Names(ps[1..]) ==> n in Names(ps);
      RenderResolved(ps[1..], vars, d);
    }
  }

  /** When every placeholder resolves, the default is never used. */
  lemma SubstituteWithDefaultResolved(text: string, vars: map<string, string>, default: string)
    requires forall n :: n in FindVariables(text) ==> n in vars
    ensures SubstituteWithDefault(text, vars, default) == Substitute(text, vars)
  {
    RenderResolved(Pieces(text), vars, default);
  }

  lemma {:induction false} TokenInPieces(s: string, i: nat)
    requires i < |s| && TokenAt(s[i..]).Some?
    ensures Names(Pieces(s)) != []
    decreases |s|
  {
    if TokenAt(s).None? {
      assert i != 0 by { assert s[0..] == s; }
      assert s[1..][i - 1..] == s[i..];
      TokenInPieces(s[1..], i - 1);
    }
  }

  lemma {:induction false} TokenFromPieces(s: string)
    requires Names(Pieces(s)) != []
    ensures exists i :: 0 <= i < |s| && TokenAt(s[i..]).Some?
    decreases |s|
  {
    assert s != [];
    if TokenAt(s).None? {
      TokenFromPieces(s[1..]);
      var i :| 0 <= i < |s[1..]| && TokenAt(s[1..][i..]).Some?;
      assert s[1..][i..] == s[i + 1..];
    } else {
      assert s[0..] == s;
    }
  }

  /** `has_variables` holds exactly when `find_variables` finds something. */
  lemma HasVariablesFind(text: string)
    ensures HasVariables(text) <==> FindVariables(text) != []
  {
    if HasVariables(text) {
      var i :| 0 <= i < |text| && TokenAt(text[i..]).Some?;
      TokenInPieces(text, i);
    }
    if |FindVariables(text)| > 0 {
      TokenFromPieces(text);
    }
  }

  /** `validate` succeeds exactly when every name is a key; the error lists only missing names. */
  lemma MissingEmpty(names: seq<string>, vars: map<string, string>)
    ensures Missing(names, vars) == [] <==> forall n :: n in names ==> n in vars
  {
    MissingSpec(names, vars);
  }

  /** A name may not start with a digit. */
  lemma DigitStartNotPlaceholder()
    ensures FindVariables("{{1x}}") == []
  {
    NoOpening("{{1x}}");
  }

  /** Spaces inside the braces are not part of a name. */
  lemma SpacesNotPlaceholder()
    ensures FindVariables("{{ A }}") == []
  {
    NoOpening("{{ A }}");
  }

  /** A text where no "{{" is followed by a name's first character holds no placeholder. */
  lemma NoOpening(s: string)
    requires forall i :: 0 <= i < |s| - 2 ==> !(s[i] == '{' && s[i + 1] == '{' && IsIdentStart(s[i + 2]))
    ensures FindVariables(s) == []
  {
    forall i | 0 <= i < |s| ensures TokenAt(s[i..]).None? {
      var t := s[i..];
      if |t| >= 3 {
        assert t[0] == s[i] && t[1] == s[i + 1] && t[2] == s[i + 2];
      }
    }
    HasVariablesFind(s);
  }
}
