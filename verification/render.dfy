/** Rendering of declaration details: attribute chains, modifiers, type
    parameter lists and specification clauses. Expressions and types are
    printed by the resolver; here they arrive as already-printed strings. */
module Render {
  import opened Wrappers
  import opened Strings
  import opened Html

  // ---- attributes ----

  /** An attribute chain: each attribute points at the one written before it. */
  datatype Attributes =
    | NoAttributes
    | Attribute(prev: Attributes, name: string, args: seq<string>)

  /** What follows the name: "}" without arguments, " a, b}" with. */
  function AttributeTail(args: seq<string>): string {
    if |args| == 0 then "}" else " " + Join(args, ", ") + "}"
  }

  /** One attribute as written: "{:name}" or "{:name a, b}". */
  function AttributeBlock(name: string, args: seq<string>): string {
    "{:" + name + AttributeTail(args)
  }

  /** Attributes(a): the earlier attributes first, then this one. */
  function RenderAttributes(a: Attributes): (r: string)
    ensures a.NoAttributes? <==> r == ""
  {
    match a
    case NoAttributes => ""
    case Attribute(prev, name, args) =>
      var result := RenderAttributes(prev) + "{:" + name;
      result + AttributeTail(args)
  }

  /** The chain as a list, oldest first. */
  function Chain(a: Attributes): seq<(string, seq<string>)> {
    match a
    case NoAttributes => []
    case Attribute(prev, name, args) => Chain(prev) + [(name, args)]
  }

  function Blocks(chain: seq<(string, seq<string>)>): (r: seq<string>)
    ensures |r| == |chain| && forall i | 0 <= i < |chain| :: r[i] == AttributeBlock(chain[i].0, chain[i].1)
  {
    seq(|chain|, i requires 0 <= i < |chain| => AttributeBlock(chain[i].0, chain[i].1))
  }

  /** The rendering is the blocks of the chain, oldest first, side by side. */
  lemma {:induction false} AttributesOldestFirst(a: Attributes)
    ensures RenderAttributes(a) == Join(Blocks(Chain(a)), "")
  {
    match a
    case NoAttributes =>
    case Attribute(prev, name, args) =>
      AttributesOldestFirst(prev);
      var p := RenderAttributes(prev);
      var bs := Blocks(Chain(prev));
      var blk := AttributeBlock(name, args);
      assert Blocks(Chain(a)) == bs + [blk];
      JoinSnoc(bs, blk, "");
      ConcatAssoc(p, "{:", name);
      ConcatAssoc(p, "{:" + name, AttributeTail(args));
      assert RenderAttributes(a) == p + blk;
      ConcatEmpty(blk);
      ConcatEmpty(p);
      if |bs| == 0 {
        assert p == "";
      }
  }

  /** No attribute text of its own holds a '{'. */
  ghost predicate BraceFree(a: Attributes) {
    match a
    case NoAttributes => true
    case Attribute(prev, name, args) =>
      BraceFree(prev) && '{' !in name && forall i | 0 <= i < |args| :: '{' !in args[i]
  }

  /** Exactly one "{" per attribute of the chain, when the names and
      arguments bring none of their own. */
  lemma {:induction false} OneBlockPerAttribute(a: Attributes)
    requires BraceFree(a)
    ensures Count(RenderAttributes(a), '{') == |Chain(a)|
  {
    match a
    case NoAttributes =>
    case Attribute(prev, name, args) =>
      OneBlockPerAttribute(prev);
      var tail := AttributeTail(args);
      ConcatAssoc(RenderAttributes(prev), "{:", name);
      ConcatAssoc(RenderAttributes(prev), "{:" + name, tail);
      ConcatAssoc("{:", name, tail);
      CountConcat(RenderAttributes(prev), "{:" + (name + tail), '{');
      CountConcat("{:", name + tail, '{');
      CountConcat(name, tail, '{');
      CountAbsent(name, '{');
      assert '{' !in tail by {
        if |args| > 0 {
          JoinAvoids(args, ", ", '{');
        }
      }
      CountAbsent(tail, '{');
  }

  // ---- modifiers ----

  /** Modifiers(d): "ghost ", "static ", "opaque ", in that order, each
      present exactly when the declaration has it. */
  function Modifiers(isGhost: bool, isStatic: bool, isOpaque: bool): (r: string)
    ensures r == "" <==> !isGhost && !isStatic && !isOpaque
    ensures ParseModifiers(r) == (isGhost, isStatic, isOpaque)
  {
    var g := if isGhost then "ghost " else "";
    var s := if isStatic then "static " else "";
    var o := if isOpaque then "opaque " else "";
    ModifiersParse(g, s, o);
    g + s + o
  }

  /** Reads a modifier text back: each word in turn, each optional. */
  function ParseModifiers(s: string): (bool, bool, bool) {
    var (g, s1) := StripWord(s, "ghost ");
    var (st, s2) := StripWord(s1, "static ");
    (g, st, StripWord(s2, "opaque ").0)
  }

  /** Removes `w` from the front of `s` when it is there, and says whether it was. */
  function StripWord(s: string, w: string): (bool, string) {
    if StartsWith(s, w) then (true, s[|w|..]) else (false, s)
  }

  lemma ModifiersParse(g: string, s: string, o: string)
    requires g == "" || g == "ghost "
    requires s == "" || s == "static "
    requires o == "" || o == "opaque "
    ensures ParseModifiers(g + s + o) == (g != "", s != "", o != "")
  {
    var t1 := s + o;
    if s != "" {
      assert t1[0] == 's';
    } else if o != "" {
      assert t1[0] == 'o';
    }
    ConcatAssoc(g, s, o);
    ConcatEmpty(o);
    StripOptional("ghost ", g, t1);
    StripOptional("static ", s, o);
    StripOptional("opaque ", o, "");
  }

  /** One optional word in front of text that does not start like it. */
  lemma StripOptional(w: string, x: string, rest: string)
    requires |w| > 0 && (x == "" || x == w)
    requires rest == [] || rest[0] != w[0]
    ensures StripWord(x + rest, w) == (x != "", rest)
  {
    var t := x + rest;
    if x != "" {
      assert t[..|w|] == w;
      assert t[|w|..] == rest;
    } else {
      assert t == rest;
      if |w| <= |t| {
        assert t[..|w|][0] == rest[0];
      }
    }
  }

  // ---- type parameter lists ----

  const TypeListOpen := "&lt;"
  const TypeListClose := "&gt;"

  /** Shared shape of TypeFormals and TypeActualParameters: nothing for no
      parameters, otherwise the pieces joined by ',' between escaped angle
      brackets. */
  function TypeParameterList(pieces: seq<string>): (r: string)
    ensures |pieces| == 0 <==> r == ""
    ensures |pieces| > 0 ==> Unwrap(TypeListOpen, TypeListClose, r) == Some(Join(pieces, ","))
    ensures |pieces| > 0 && (forall i | 0 <= i < |pieces| :: ',' !in pieces[i]) ==>
              Split(Unwrap(TypeListOpen, TypeListClose, r).value, ',') == pieces
    ensures |pieces| > 0 && Split(Unwrap(TypeListOpen, TypeListClose, r).value, ',') == pieces ==>
              forall i | 0 <= i < |pieces| :: ',' !in pieces[i]
  {
    if |pieces| == 0 then ""
    else
      UnwrapWrap(TypeListOpen, Join(pieces, ","), TypeListClose);
      ParameterListSplits(pieces);
      TypeListOpen + Join(pieces, ",") + TypeListClose
  }

  lemma ParameterListSplits(pieces: seq<string>)
    ensures |pieces| > 0 && (forall i | 0 <= i < |pieces| :: ',' !in pieces[i]) ==>
              Split(Join(pieces, ","), ',') == pieces
  {
    if |pieces| > 0 && (forall i | 0 <= i < |pieces| :: ',' !in pieces[i]) {
      SplitJoin(pieces, ',');
    }
  }

  /** TypeFormals: the printed type parameters. */
  function TypeFormals(typeParams: seq<string>): (r: string)
    ensures r == TypeParameterList(typeParams)
  {
    if |typeParams| == 0 then "" else TypeListOpen + Join(typeParams, ",") + TypeListClose
  }

  /** TypeActualParameters: the type arguments, each rendered by `typeLink`. */
  function TypeActualParameters<T>(types: seq<T>, typeLink: T -> string): (r: string)
    ensures |types| == 0 <==> r == ""
    ensures |types| > 0 ==>
              Unwrap(TypeListOpen, TypeListClose, r) == Some(Join(seq(|types|, i requires 0 <= i < |types| => typeLink(types[i])), ","))
  {
    TypeParameterList(seq(|types|, i requires 0 <= i < |types| => typeLink(types[i])))
  }

  // ---- specification clauses ----

  /** The specification of a member, with every expression already printed. */
  datatype Spec =
    | MethodSpec(req: seq<string>, ens: seq<string>, dec: seq<string>)
    | FunctionSpec(rds: seq<string>, req: seq<string>, ens: seq<string>, dec: seq<string>)
    | NoSpec

  /** One line of the details: the keyword in bold, then the clause. */
  function ClauseLine(keyword: string, text: string): string {
    space4 + Bold(keyword) + " " + text + br + eol
  }

  /** The lines of a list of (keyword, text) clauses, in order. */
  function RenderClauses(cs: seq<(string, string)>): string {
    if |cs| == 0 then "" else RenderClauses(cs[..|cs| - 1]) + ClauseLine(cs[|cs| - 1].0, cs[|cs| - 1].1)
  }

  lemma {:induction false} RenderClausesAppend(a: seq<(string, string)>, b: seq<(string, string)>)
    ensures RenderClauses(a + b) == RenderClauses(a) + RenderClauses(b)
    decreases |b|
  {
    if |b| == 0 {
      assert a + b == a;
      ConcatEmpty(RenderClauses(a));
    } else {
      var last := b[|b| - 1];
      assert (a + b)[..|a + b| - 1] == a + b[..|b| - 1];
      assert (a + b)[|a + b| - 1] == last;
      RenderClausesAppend(a, b[..|b| - 1]);
      ConcatAssoc(RenderClauses(a), RenderClauses(b[..|b| - 1]), ClauseLine(last.0, last.1));
    }
  }

  function Tagged(keyword: string, texts: seq<string>): (r: seq<(string, string)>)
    ensures |r| == |texts| && forall i | 0 <= i < |texts| :: r[i] == (keyword, texts[i])
  {
    seq(|texts|, i requires 0 <= i < |texts| => (keyword, texts[i]))
  }

  /** The decreases clause: one line with the expressions joined by ", ",
      present only when there is at least one expression. */
  function DecreasesClause(dec: seq<string>): seq<(string, string)> {
    if |dec| > 0 then [("decreases", Join(dec, ", "))] else []
  }

  /** The clauses AppendSpecs writes, in order. */
  function Clauses(spec: Spec): seq<(string, string)> {
    match spec
    case MethodSpec(req, ens, dec) =>
      Tagged("requires", req) + Tagged("ensures", ens) + DecreasesClause(dec)
    case FunctionSpec(rds, req, ens, dec) =>
      Tagged("reads", rds) + Tagged("requires", req) + Tagged("ensures", ens) + DecreasesClause(dec)
    case NoSpec => []
  }

  /** The position of each keyword in the fixed order. */
  function Rank(keyword: string): nat {
    if keyword == "reads" then 0
    else if keyword == "requires" then 1
    else if keyword == "ensures" then 2
    else 3
  }

  /** The clauses come in the fixed keyword order, every clause of the
      member is there, and decreases appears once exactly when it has
      expressions. */
  lemma ClausesOrdered(spec: Spec)
    ensures var cs := Clauses(spec);
      forall i, j | 0 <= i < j < |cs| :: Rank(cs[i].0) <= Rank(cs[j].0)
    ensures spec.MethodSpec? ==>
              |Clauses(spec)| == |spec.req| + |spec.ens| + (if |spec.dec| > 0 then 1 else 0)
    ensures spec.FunctionSpec? ==>
              |Clauses(spec)| == |spec.rds| + |spec.req| + |spec.ens| + (if |spec.dec| > 0 then 1 else 0)
    ensures (spec.MethodSpec? || spec.FunctionSpec?) ==>
              ((exists i | 0 <= i < |Clauses(spec)| :: Clauses(spec)[i].0 == "decreases") <==> |spec.dec| > 0)
  {
    match spec
    case NoSpec =>
    case MethodSpec(req, ens, dec) =>
      TaggedRuns([], req, ens, dec);
    case FunctionSpec(rds, req, ens, dec) =>
      TaggedRuns(rds, req, ens, dec);
  }

  /** Ranks along reads, requires, ensures and decreases runs: each clause's
      rank is the index of its run. */
  lemma TaggedRuns(rds: seq<string>, req: seq<string>, ens: seq<string>, dec: seq<string>)
    ensures var cs := Tagged("reads", rds) + Tagged("requires", req) + Tagged("ensures", ens) + DecreasesClause(dec);
      (forall i, j | 0 <= i < j < |cs| :: Rank(cs[i].0) <= Rank(cs[j].0)) &&
      |cs| == |rds| + |req| + |ens| + (if |dec| > 0 then 1 else 0) &&
      ((exists i | 0 <= i < |cs| :: cs[i].0 == "decreases") <==> |dec| > 0)
    ensures rds == [] ==>
      Tagged("reads", rds) + Tagged("requires", req) + Tagged("ensures", ens) + DecreasesClause(dec) ==
      Tagged("requires", req) + Tagged("ensures", ens) + DecreasesClause(dec)
  {
    var r := Tagged("reads", rds);
    var a := Tagged("requires", req);
    var b := Tagged("ensures", ens);
    var d := DecreasesClause(dec);
    var cs := r + a + b + d;
    RunRanks(r, a, b, d);
    if rds == [] {
      assert r == [];
      ConcatEmpty(a);
    }
  }

  lemma RunRanks(r: seq<(string, string)>, a: seq<(string, string)>, b: seq<(string, string)>, d: seq<(string, string)>)
    requires forall i | 0 <= i < |r| :: r[i].0 == "reads"
    requires forall i | 0 <= i < |a| :: a[i].0 == "requires"
    requires forall i | 0 <= i < |b| :: b[i].0 == "ensures"
    requires forall i | 0 <= i < |d| :: d[i].0 == "decreases"
    ensures var cs := r + a + b + d;
      (forall i, j | 0 <= i < j < |cs| :: Rank(cs[i].0) <= Rank(cs[j].0)) &&
      ((exists i | 0 <= i < |cs| :: cs[i].0 == "decreases") <==> |d| > 0)
  {
    var cs := r + a + b + d;
    assert forall i | 0 <= i < |cs| ::
      Rank(cs[i].0) == (if i < |r| then 0 else if i < |r| + |a| then 1 else if i < |r| + |a| + |b| then 2 else 3);
    if |d| > 0 {
      assert cs[|cs| - 1].0 == "decreases";
    } else {
      assert Rank("decreases") == 3;
    }
  }

  /** One foreach of AppendSpecs: a line per clause text, in order; `some`
      becomes true exactly when there was a clause. */
  method AppendClauses(details: string, some0: bool, keyword: string, texts: seq<string>)
    returns (out: string, some: bool)
    ensures out == details + RenderClauses(Tagged(keyword, texts))
    ensures some <==> some0 || |texts| > 0
  {
    out := details;
    some := some0;
    var i := 0;
    assert Tagged(keyword, texts[..0]) == [];
    while i < |texts|
      invariant 0 <= i <= |texts|
      invariant out == details + RenderClauses(Tagged(keyword, texts[..i]))
      invariant some <==> some0 || i > 0
    {
      assert Tagged(keyword, texts[..i + 1]) == Tagged(keyword, texts[..i]) + [(keyword, texts[i])];
      RenderClausesAppend(Tagged(keyword, texts[..i]), [(keyword, texts[i])]);
      RenderOne((keyword, texts[i]));
      ConcatAssoc(details, RenderClauses(Tagged(keyword, texts[..i])), ClauseLine(keyword, texts[i]));
      out := out + ClauseLine(keyword, texts[i]);
      some := true;
      i := i + 1;
    }
    assert texts[..|texts|] == texts;
  }

  /** The last step of AppendSpecs: one decreases line when there are
      decreases expressions, joined by ", ". */
  method AppendDecreases(front: string, some0: bool, dec: seq<string>) returns (out: string, some: bool)
    ensures out == front + RenderClauses(DecreasesClause(dec))
    ensures some <==> some0 || |dec| > 0
  {
    out, some := front, some0;
    if |dec| > 0 {
      out := out + ClauseLine("decreases", Join(dec, ", "));
      some := true;
      RenderOne(("decreases", Join(dec, ", ")));
    } else {
      ConcatEmpty(front);
    }
  }

  /** AppendSpecs(details, d): appends the member's clauses to `details` and
      reports whether there was any. */
  method AppendSpecs(details: string, spec: Spec) returns (out: string, some: bool)
    ensures out == details + RenderClauses(Clauses(spec))
    ensures some <==> |Clauses(spec)| > 0
  {
    some := false;
    out := details;
    match spec {
      case MethodSpec(req, ens, dec) =>
        var afterReq, someReq := AppendClauses(details, false, "requires", req);
        var afterEns, someEns := AppendClauses(afterReq, someReq, "ensures", ens);
        out, some := AppendDecreases(afterEns, someEns, dec);
        SpecsRendered(details, afterReq, afterEns, out, Tagged("requires", req), Tagged("ensures", ens), DecreasesClause(dec));
      case FunctionSpec(rds, req, ens, dec) =>
        var afterReads, someReads := AppendClauses(details, false, "reads", rds);
        var afterReq, someReq := AppendClauses(afterReads, someReads, "requires", req);
        var afterEns, someEns := AppendClauses(afterReq, someReq, "ensures", ens);
        out, some := AppendDecreases(afterEns, someEns, dec);
        var r, a := Tagged("reads", rds), Tagged("requires", req);
        StagesRendered(details, afterReads, afterReq, r, a);
        SpecsRendered(details, afterReq, afterEns, out, r + a, Tagged("ensures", ens), DecreasesClause(dec));
      case NoSpec =>
    }
  }

  lemma RenderOne(c: (string, string))
    ensures RenderClauses([c]) == ClauseLine(c.0, c.1)
  {
    assert [c][..0] == [];
    ConcatEmpty(ClauseLine(c.0, c.1));
  }

  /** Gluing two stages of AppendSpecs together. */
  lemma StagesRendered(details: string, s1: string, s2: string,
                       a: seq<(string, string)>, b: seq<(string, string)>)
    requires s1 == details + RenderClauses(a)
    requires s2 == s1 + RenderClauses(b)
    ensures s2 == details + RenderClauses(a + b)
  {
    RenderClausesAppend(a, b);
    ConcatAssoc(details, RenderClauses(a), RenderClauses(b));
  }

  /** Gluing the three stages of AppendSpecs together. */
  lemma SpecsRendered(details: string, s1: string, s2: string, s3: string,
                      a: seq<(string, string)>, b: seq<(string, string)>, c: seq<(string, string)>)
    requires s1 == details + RenderClauses(a)
    requires s2 == s1 + RenderClauses(b)
    requires s3 == s2 + RenderClauses(c)
    ensures s3 == details + RenderClauses(a + b + c)
  {
    var ab := a + b;
    RenderClausesAppend(a, b);
    RenderClausesAppend(ab, c);
    ConcatAssoc(details, RenderClauses(a), RenderClauses(b));
    ConcatAssoc(details, RenderClauses(ab), RenderClauses(c));
  }
}
