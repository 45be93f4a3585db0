/** The member lists of a page (WriteMethodsList): how a method, lemma,
    function or constructor is named on the page and in the name index,
    its one-line summary and its detail block. */
module Members {
  import opened Wrappers
  import opened Strings
  import opened Html
  import opened Docstrings
  import opened Render
  import opened NameIndex

  /** The name the resolver gives a constructor declared without a name. */
  const AnonymousCtor := "_ctor"

  /** What a member's signature shows after its name. Formals arrive
      rendered as "x: T" (TypeString), types as the text TypeLink gives. */
  datatype Signature =
    | MethodSignature(typeParams: seq<string>, ins: seq<string>, outs: seq<string>)
    | FunctionSignature(typeParams: seq<string>, formals: seq<string>, resultType: string)

  datatype Member = Member(
    name: string,
    whatKind: string,
    isCtor: bool,
    sig: Signature,
    comment: Option<string>,
    isGhost: bool,
    isStatic: bool,
    isOpaque: bool,
    attributes: Attributes,
    spec: Spec)

  /** A method's signature after its name: the type formals and the
      formals, then " returns (outs)" when it has outs. */
  function MethodTail(tps: seq<string>, ins: seq<string>, outs: seq<string>): (r: string)
    ensures StartsWith(r, TypeFormals(tps) + "(")
    ensures |outs| > 0 ==> EndsWith(r, " returns (" + Join(outs, ", ") + ")")
    ensures |outs| == 0 ==> EndsWith(r, "(" + Join(ins, ", ") + ")")
  {
    var tf, params := TypeFormals(tps), "(" + Join(ins, ", ") + ")";
    var rest := if |outs| == 0 then "" else " returns (" + Join(outs, ", ") + ")";
    EndsWithConcat(tf, params, params);
    StartsWithPrepend(tf, params, "(");
    StartsWithConcat(tf + params, rest, tf + "(");
    EndsWithConcat(tf + params, rest, rest);
    assert rest == "" ==> tf + params + rest == tf + params;
    tf + params + rest
  }

  /** A function's signature after its name: the type formals, the formals
      and ": result". */
  function FunctionTail(tps: seq<string>, formals: seq<string>, resultType: string): (r: string)
    ensures StartsWith(r, TypeFormals(tps) + "(")
    ensures EndsWith(r, "): " + resultType)
  {
    var open, close := TypeFormals(tps) + "(", "): " + resultType;
    StartsWithConcat(open, Join(formals, ", ") + close, open);
    ConcatAssoc(open, Join(formals, ", "), close);
    EndsWithConcat(open + Join(formals, ", "), close, close);
    open + (Join(formals, ", ") + close)
  }

  /** The part of MethodSig after the bold name. */
  function SigTail(sig: Signature): (r: string)
    ensures StartsWith(r, TypeFormals(sig.typeParams) + "(")
    ensures sig.FunctionSignature? ==> EndsWith(r, "): " + sig.resultType)
    ensures sig.MethodSignature? && |sig.outs| > 0 ==> EndsWith(r, " returns (" + Join(sig.outs, ", ") + ")")
    ensures sig.MethodSignature? && |sig.outs| == 0 ==> EndsWith(r, "(" + Join(sig.ins, ", ") + ")")
  {
    match sig
    case MethodSignature(tps, ins, outs) => MethodTail(tps, ins, outs)
    case FunctionSignature(tps, formals, resultType) => FunctionTail(tps, formals, resultType)
  }

  /** MethodSig(m): the member's name in bold, then the rest of its signature. */
  function MethodSig(name: string, sig: Signature): (r: string)
    ensures StartsWith(r, Bold(name) + TypeFormals(sig.typeParams) + "(")
    ensures sig.FunctionSignature? ==> EndsWith(r, "): " + sig.resultType)
    ensures sig.MethodSignature? && |sig.outs| > 0 ==> EndsWith(r, " returns (" + Join(sig.outs, ", ") + ")")
    ensures sig.MethodSignature? && |sig.outs| == 0 ==> EndsWith(r, "(" + Join(sig.ins, ", ") + ")")
  {
    var tail := SigTail(sig);
    StartsWithPrepend(Bold(name), tail, TypeFormals(sig.typeParams) + "(");
    ConcatAssoc(Bold(name), TypeFormals(sig.typeParams), "(");
    if sig.FunctionSignature? then
      EndsWithConcat(Bold(name), tail, "): " + sig.resultType);
      Bold(name) + tail
    else if |sig.outs| > 0 then
      EndsWithConcat(Bold(name), tail, " returns (" + Join(sig.outs, ", ") + ")");
      Bold(name) + tail
    else
      EndsWithConcat(Bold(name), tail, "(" + Join(sig.ins, ", ") + ")");
      Bold(name) + tail
  }

  // ---- naming ----

  /** The name a member is shown, anchored and indexed under: a constructor
      is named after its class, "C" for the anonymous one and "C.m" for one
      called m; any other member keeps its own name. */
  function DisplayName(declName: string, m: Member): string {
    if !m.isCtor then m.name
    else if m.name == AnonymousCtor then declName
    else declName + "." + m.name
  }

  /** The text the index shows for a constructor: "_" for the anonymous one. */
  function CtorIndexText(m: Member): string {
    if m.name == AnonymousCtor then "_" else m.name
  }

  /** AddToIndexC for constructors, AddToIndex for every other member. */
  function MemberRegistration(declName: string, owner: string, m: Member): Registration {
    if m.isCtor then CtorEntry(DisplayName(declName, m), CtorIndexText(m), owner, m.whatKind)
    else AnchorEntry(m.name, owner, m.whatKind)
  }

  /** Two constructors of one class with different names are shown, anchored
      and indexed under different names; other members keep theirs. */
  lemma DisplayNamesDistinct(declName: string, m1: Member, m2: Member)
    ensures !m1.isCtor ==> DisplayName(declName, m1) == m1.name
    ensures m1.isCtor && m2.isCtor && m1.name != m2.name ==>
              DisplayName(declName, m1) != DisplayName(declName, m2)
  {
    if m1.isCtor && m2.isCtor && m1.name != m2.name {
      var d1, d2 := DisplayName(declName, m1), DisplayName(declName, m2);
      if m1.name != AnonymousCtor && m2.name != AnonymousCtor {
        var h := declName + ".";
        assert d1[|h|..] == m1.name && d2[|h|..] == m2.name;
      } else {
        assert |d1| != |d2|;
      }
    }
  }

  // ---- the signature with the name replaced ----

  /** The signature with its bold name replaced by `shown`. */
  function SigWith(m: Member, shown: string): (r: string)
    ensures StartsWith(r, Bold(shown))
    ensures r[|Bold(shown)|..] == MethodSig(m.name, m.sig)[|Bold(m.name)|..]
  {
    Bold(shown) + SigTail(m.sig)
  }

  /** ms.ReplaceFirst(m.Name, shown), as the loop writes it. */
  function SigReplacedAsWritten(m: Member, shown: string): string {
    ReplaceFirst(MethodSig(m.name, m.sig), m.name, shown)
  }

  /** Names whose first occurrence in "<b>name</b>..." is the bold one. */
  predicate NameSafe(name: string) {
    |name| > 0 && '<' !in name && '>' !in name && name != "b"
  }

  /** For such names the search finds the bold name and the two agree. */
  lemma SigReplaceAgrees(m: Member, shown: string)
    requires NameSafe(m.name)
    ensures SigReplacedAsWritten(m, shown) == SigWith(m, shown)
  {
    var name, tail := m.name, SigTail(m.sig);
    var p, q := "<b>", "</b>" + tail;
    ConcatAssoc(p + name, "</b>", tail);
    var s := p + name + q;
    assert MethodSig(name, m.sig) == s;
    assert |p| == 3 && s[0] == '<' && s[1] == 'b' && s[2] == '>';
    forall j | 0 <= j < |p| ensures !OccursAt(s, name, j) {
      if j != 1 {
        MismatchAt(s, name, j, 0);
      } else if name[0] == 'b' {
        assert |name| >= 2 && s[2] != name[1];
        MismatchAt(s, name, 1, 1);
      } else {
        MismatchAt(s, name, 1, 0);
      }
    }
    ReplaceFirstAt(p, name, q, shown);
    ConcatAssoc(p + shown, "</b>", tail);
  }

  /** A member named "b": the search stops at the "b" inside "<b>", so the
      link lands inside the tag and the line starts "<<a href=...". */
  lemma MemberNamedBMangled(m: Member, link: string)
    requires m.name == "b" && |link| > 0 && link[0] == '<'
    ensures StartsWith(SigReplacedAsWritten(m, link), "<" + link)
    ensures SigReplacedAsWritten(m, link) != SigWith(m, link)
  {
    var q := ">b</b>" + SigTail(m.sig);
    var r := SigReplacedAsWritten(m, link);
    LinkInsideTag(m, link);
    PrefixOfConcat("<" + link, q);
    assert r[1] == link[0] == '<';
    var w := SigWith(m, link);
    BoldSecond(link);
    assert w[..|Bold(link)|][1] == 'b';
  }

  /** For a member named "b", the replacement lands right after the "<" of
      the bold tag. */
  lemma LinkInsideTag(m: Member, link: string)
    requires m.name == "b"
    ensures SigReplacedAsWritten(m, link) == "<" + link + (">b</b>" + SigTail(m.sig))
  {
    BoldBReplaced(SigTail(m.sig), link);
  }

  /** In "<b>b</b>" followed by any text, the first "b" is the tag's. */
  lemma BoldBReplaced(tail: string, link: string)
    ensures ReplaceFirst(Bold("b") + tail, "b", link) == "<" + link + (">b</b>" + tail)
  {
    var q := ">b</b>" + tail;
    var s := "<" + "b" + q;
    assert "<" + "b" == "<b" && "<b" + ">b</b>" == "<b>b</b>";
    ConcatAssoc("<b", ">b</b>", tail);
    assert Bold("b") + tail == s;
    MismatchAt(s, "b", 0, 0);
    ReplaceFirstAt("<", "b", q, link);
  }

  /** The second character of any bold text is the "b" of its tag. */
  lemma BoldSecond(x: string)
    ensures |Bold(x)| > 1 && Bold(x)[1] == 'b'
  {
    assert Bold(x) == "<b>" + x + "</b>";
  }

  // ---- summary line ----

  /** What follows the signature: four spaces and the dashed summary when
      there is documentation; `target` is where "(more...)" leads. */
  function DocPart(comment: Option<string>, target: string): (r: string)
    ensures r == "" <==> Docstring(comment) == ""
    ensures r != "" ==> r == space4 + DashShortDocstring(comment, target)
  {
    if Docstring(comment) != "" then space4 + DashShortDocstring(comment, target) else ""
  }

  /** The summary line as written: the signature with the name replaced by a
      link to the details, and a "(more...)" link to the member's own name.
      For a safe name the line opens with the bold link to the details; for a
      member named "b" the link lands inside the "<b>" tag instead. */
  function SummaryAsWritten(declName: string, m: Member): (r: string)
    ensures var name := DisplayName(declName, m);
      NameSafe(m.name) ==> StartsWith(r, Bold(LinkToAnchor(name, name)))
    ensures var name := DisplayName(declName, m);
      m.name == "b" ==> StartsWith(r, "<" + LinkToAnchor(name, name))
  {
    var name := DisplayName(declName, m);
    var link := LinkToAnchor(name, name);
    SigOpens(m, link, DocPart(m.comment, m.name) + br + eol);
    ConcatAssoc(SigReplacedAsWritten(m, link), DocPart(m.comment, m.name), br);
    ConcatAssoc(SigReplacedAsWritten(m, link), DocPart(m.comment, m.name) + br, eol);
    SigReplacedAsWritten(m, link) + DocPart(m.comment, m.name) + br + eol
  }

  /** How a line that starts with the replaced signature opens: with the bold
      replacement for a safe name, with "<" and the replacement for "b". */
  lemma SigOpens(m: Member, link: string, rest: string)
    requires |link| > 0 && link[0] == '<'
    ensures NameSafe(m.name) ==> StartsWith(SigReplacedAsWritten(m, link) + rest, Bold(link))
    ensures m.name == "b" ==> StartsWith(SigReplacedAsWritten(m, link) + rest, "<" + link)
  {
    var sig := SigReplacedAsWritten(m, link);
    if NameSafe(m.name) {
      SigReplaceAgrees(m, link);
      StartsWithConcat(sig, rest, Bold(link));
    }
    if m.name == "b" {
      MemberNamedBMangled(m, link);
      StartsWithConcat(sig, rest, "<" + link);
    }
  }

  /** The summary line: the bold display name linked to its details, the
      rest of the signature, and "(more...)" leading to the same anchor. */
  function Summary(declName: string, m: Member): string {
    var name := DisplayName(declName, m);
    SigWith(m, LinkToAnchor(name, name)) + DocPart(m.comment, name) + br + eol
  }

  /** For a member that is not a constructor and has a safe name, the summary
      is what the code writes. */
  lemma SummaryAgrees(declName: string, m: Member)
    requires !m.isCtor && NameSafe(m.name)
    ensures SummaryAsWritten(declName, m) == Summary(declName, m)
  {
    var name := DisplayName(declName, m);
    SigReplaceAgrees(m, LinkToAnchor(name, name));
  }

  /** A documented constructor whose text goes on past its first sentence:
      the code points "(more...)" at the constructor's own name ("_ctor" or
      "m"), but its details are anchored at "C" or "C.m". */
  lemma CtorMoreLinkMissesAnchor(declName: string, m: Member)
    requires m.isCtor && declName != AnonymousCtor
    requires Occurs(Docstring(m.comment), SentenceEnd)
    ensures DocPart(m.comment, m.name) == space4 + (Mdash + (Shorten(Docstring(m.comment)) + MoreLink(m.name)))
    ensures m.name != DisplayName(declName, m)
  {
    var name := DisplayName(declName, m);
    if m.name != AnonymousCtor {
      assert |name| > |m.name|;
    }
  }

  /** The corrected summary's "(more...)" link reads back as "#" followed by
      exactly the id the member's anchor declares. */
  lemma MoreLinkReachesAnchor(declName: string, m: Member)
    requires '"' !in DisplayName(declName, m)
    requires Occurs(Docstring(m.comment), SentenceEnd)
    ensures var name := DisplayName(declName, m);
      && DocPart(m.comment, name) == space4 + (Mdash + (Shorten(Docstring(m.comment)) + MoreLink(name)))
      && MoreLink(name) == " " + LinkToAnchor(name, "(more...)")
      && ParseHrefLink(LinkToAnchor(name, "(more...)")) == Some(("#" + AnchorId(Anchor(name)).value, "(more...)"))
  {
    var name := DisplayName(declName, m);
    AnchorLinkAgree(name, "(more...)");
  }

  // ---- detail block ----

  /** The detail block after its anchor, up to the spec clauses, around a
      given signature line: the rule with the name, the modifiers line when
      there are modifiers, the kind, the signature line, the attributes line
      when there are attributes, and the indented documentation. */
  function DetailBodyAround(declName: string, m: Member, sigLine: string): string {
    var name := DisplayName(declName, m);
    var modifiers := Modifiers(m.isGhost, m.isStatic, m.isOpaque);
    var attributes := RenderAttributes(m.attributes);
    eol + RuleWithText(name) + eol
      + (if modifiers != "" then modifiers + br + eol else "")
      + m.whatKind + br + eol
      + sigLine + br + eol
      + (if attributes != "" then space4 + attributes + br + eol else "")
      + Indented(Docstring(m.comment), false)
  }

  /** The detail body as written: ms.ReplaceFirst(m.Name, Bold(name)). */
  function DetailBodyAsWritten(declName: string, m: Member): string {
    DetailBodyAround(declName, m, SigReplacedAsWritten(m, Bold(DisplayName(declName, m))))
  }

  /** The corrected detail body: the bold name replaced by the bold display name. */
  function DetailBody(declName: string, m: Member): string {
    DetailBodyAround(declName, m, SigWith(m, Bold(DisplayName(declName, m))))
  }

  /** The whole detail block as written: the anchor of the display name, the
      body, then the member's spec clauses. */
  function DetailsAsWritten(declName: string, m: Member): string {
    Anchor(DisplayName(declName, m)) + DetailBodyAsWritten(declName, m) + RenderClauses(Clauses(m.spec))
  }

  /** The corrected detail block. */
  function Details(declName: string, m: Member): string {
    Anchor(DisplayName(declName, m)) + DetailBody(declName, m) + RenderClauses(Clauses(m.spec))
  }

  /** For a safe name the detail block is what the code writes, constructors
      included. */
  lemma DetailsAgrees(declName: string, m: Member)
    requires NameSafe(m.name)
    ensures DetailsAsWritten(declName, m) == Details(declName, m)
  {
    SigReplaceAgrees(m, Bold(DisplayName(declName, m)));
  }

  /** A block that starts with an anchor is read back as that anchor. */
  lemma AnchorFirst(name: string, b: string, c: string)
    ensures |Anchor(name)| <= |Anchor(name) + b + c|
    ensures AnchorId((Anchor(name) + b + c)[..|Anchor(name)|]) == Some(name)
  {
    ConcatAssoc(Anchor(name), b, c);
    PrefixOfConcat(Anchor(name), b + c);
  }

  /** A detail block, as written and corrected, opens with the anchor of the
      member's display name. */
  lemma DetailsAnchored(declName: string, m: Member)
    ensures var name := DisplayName(declName, m);
      |Anchor(name)| <= |DetailsAsWritten(declName, m)| && AnchorId(DetailsAsWritten(declName, m)[..|Anchor(name)|]) == Some(name)
    ensures var name := DisplayName(declName, m);
      |Anchor(name)| <= |Details(declName, m)| && AnchorId(Details(declName, m)[..|Anchor(name)|]) == Some(name)
  {
    var name := DisplayName(declName, m);
    AnchorFirst(name, DetailBodyAsWritten(declName, m), RenderClauses(Clauses(m.spec)));
    AnchorFirst(name, DetailBody(declName, m), RenderClauses(Clauses(m.spec)));
  }

  /** The index link of a member, read back: its owner's page, at the
      member's display name, showing that name. */
  lemma MemberLinkTarget(declName: string, owner: string, m: Member, n: nat)
    requires Admissible(MemberRegistration(declName, owner, m))
    requires !StartsWith(m.whatKind, "export")
    ensures var r := MemberRegistration(declName, owner, m);
      ParseHrefLink(IndexLink(Entry(EntryKey(r, n), EntryValue(r)))) == Some((owner + ".html#" + DisplayName(declName, m), DisplayName(declName, m)))
  {
    var r := MemberRegistration(declName, owner, m);
    IndexLinkLeadsHome(r, n);
    if m.isCtor {
      assert r == CtorEntry(DisplayName(declName, m), CtorIndexText(m), owner, m.whatKind);
    } else {
      assert r == AnchorEntry(m.name, owner, m.whatKind);
    }
    assert Destination(r) == owner + ".html#" + DisplayName(declName, m);
    assert LinkText(r) == DisplayName(declName, m);
  }

  /** The index entry of a member leads to the anchor its detail block
      declares, on the page of its owner. */
  lemma IndexReachesMember(declName: string, owner: string, m: Member, n: nat)
    requires Admissible(MemberRegistration(declName, owner, m))
    requires !StartsWith(m.whatKind, "export")
    ensures var name := DisplayName(declName, m);
      var r := MemberRegistration(declName, owner, m);
      && |Anchor(name)| <= |DetailsAsWritten(declName, m)|
      && AnchorId(DetailsAsWritten(declName, m)[..|Anchor(name)|]) == Some(name)
      && ParseHrefLink(IndexLink(Entry(EntryKey(r, n), EntryValue(r)))) == Some((owner + ".html#" + name, name))
  {
    DetailsAnchored(declName, m);
    MemberLinkTarget(declName, owner, m, n);
  }

  // ---- the loop ----

  function SummaryOf(declName: string): Member -> string {
    m => SummaryAsWritten(declName, m)
  }

  function DetailsOf(declName: string): Member -> string {
    m => DetailsAsWritten(declName, m)
  }

  function RegistrationOf(declName: string, owner: string): Member -> Registration {
    m => MemberRegistration(declName, owner, m)
  }

  /** The summary lines of the members, in order, as the code writes them. */
  function Summaries(declName: string, ms: seq<Member>): (r: seq<string>)
    ensures |r| == |ms| && forall i | 0 <= i < |ms| :: r[i] == SummaryAsWritten(declName, ms[i])
  {
    Map(SummaryOf(declName), ms)
  }

  /** The detail blocks of the members, in order, as the code writes them. */
  function DetailBlocks(declName: string, ms: seq<Member>): (r: seq<string>)
    ensures |r| == |ms| && forall i | 0 <= i < |ms| :: r[i] == DetailsAsWritten(declName, ms[i])
  {
    Map(DetailsOf(declName), ms)
  }

  /** The index registrations of the members, in order. */
  function Registrations(declName: string, owner: string, ms: seq<Member>): (r: seq<Registration>)
    ensures |r| == |ms| && forall i | 0 <= i < |ms| :: r[i] == MemberRegistration(declName, owner, ms[i])
  {
    Map(RegistrationOf(declName, owner), ms)
  }

  /** Appending one more piece to a builder that holds a concatenation. */
  lemma AppendPiece(start: string, acc: string, xs: seq<string>, x: string)
    requires acc == start + Join(xs, "")
    ensures acc + x == start + Join(xs + [x], "")
  {
    JoinSnoc(xs, x, "");
    if |xs| == 0 {
      ConcatEmpty(start);
      ConcatEmpty(x);
    } else {
      ConcatEmpty(Join(xs, ""));
      ConcatAssoc(start, Join(xs, ""), x);
    }
  }

  lemma LoopStep(declName: string, owner: string, ms: seq<Member>, i: nat)
    requires i < |ms|
    ensures Summaries(declName, ms[..i + 1]) == Summaries(declName, ms[..i]) + [SummaryAsWritten(declName, ms[i])]
    ensures DetailBlocks(declName, ms[..i + 1]) == DetailBlocks(declName, ms[..i]) + [DetailsAsWritten(declName, ms[i])]
    ensures Registrations(declName, owner, ms[..i + 1]) == Registrations(declName, owner, ms[..i]) + [MemberRegistration(declName, owner, ms[i])]
  {
    assert ms[..i + 1] == ms[..i] + [ms[i]];
    MapSnoc(SummaryOf(declName), ms[..i], ms[i]);
    MapSnoc(DetailsOf(declName), ms[..i], ms[i]);
    MapSnoc(RegistrationOf(declName, owner), ms[..i], ms[i]);
  }

  /** WriteMethodsList: for each member in turn, its index registration, its
      summary line and its detail block, appended in list order. */
  method WriteMethodsList(members: seq<Member>, declName: string, owner: string, summaries0: string, details0: string)
    returns (summaries: string, details: string, regs: seq<Registration>)
    ensures summaries == summaries0 + Join(Summaries(declName, members), "")
    ensures details == details0 + Join(DetailBlocks(declName, members), "")
    ensures regs == Registrations(declName, owner, members)
  {
    summaries, details, regs := summaries0, details0, [];
    var i := 0;
    while i < |members|
      invariant 0 <= i <= |members|
      invariant summaries == summaries0 + Join(Summaries(declName, members[..i]), "")
      invariant details == details0 + Join(DetailBlocks(declName, members[..i]), "")
      invariant regs == Registrations(declName, owner, members[..i])
    {
      var m := members[i];
      LoopStep(declName, owner, members, i);
      regs := regs + [MemberRegistration(declName, owner, m)];
      var line := SummaryAsWritten(declName, m);
      AppendPiece(summaries0, summaries, Summaries(declName, members[..i]), line);
      summaries := summaries + line;
      var block, _ := AppendSpecs(Anchor(DisplayName(declName, m)) + DetailBodyAsWritten(declName, m), m.spec);
      AppendPiece(details0, details, DetailBlocks(declName, members[..i]), block);
      details := details + block;
      i := i + 1;
    }
    assert members[..|members|] == members;
  }
}
