/** Naming and linking: breadcrumb links for qualified names, export-set
    anchors, the page-ownership rule, and the links written for imported names. */
module Names {
  import opened Wrappers
  import opened Strings
  import opened Html

  // ---- qualified names with links ----

  /** The i-th breadcrumb: a link to the page named by the first i+1 segments,
      except that the last one is plain text when `alsoLast` is false. */
  function Segment(names: seq<string>, i: nat, alsoLast: bool): string
    requires i < |names|
  {
    if i == |names| - 1 && !alsoLast then names[i]
    else PageLink(Join(names[..i + 1], "."), names[i])
  }

  function Segments(names: seq<string>, alsoLast: bool): (r: seq<string>)
    ensures |r| == |names|
    ensures forall i | 0 <= i < |names| :: r[i] == Segment(names, i, alsoLast)
  {
    seq(|names|, i requires 0 <= i < |names| => Segment(names, i, alsoLast))
  }

  /** The declarative reading of QualifiedNameWithLinks: the '.'-separated
      segments, each a breadcrumb, rejoined with '.', then a link to the
      in-page anchor when there is one. */
  function QualifiedName(fullName: string, inpage: Option<string>, text: string, alsoLast: bool): string {
    Join(Segments(Split(fullName, '.'), alsoLast), ".")
      + (if inpage.Some? then "." + PageAnchorLink(fullName, inpage.value, text) else "")
  }

  /** Extending a prefix of the segments by one element. */
  lemma JoinStep(xs: seq<string>, i: nat)
    requires i < |xs|
    ensures Join(xs[..i + 1], ".") == if i == 0 then xs[0] else Join(xs[..i], ".") + "." + xs[i]
  {
    assert xs[..i + 1] == xs[..i] + [xs[i]];
    JoinSnoc(xs[..i], xs[i], ".");
  }

  /** One turn of the breadcrumb loop keeps the accumulated prefix name and
      output equal to the joins of the first i names and breadcrumbs. */
  lemma BreadcrumbStep(names: seq<string>, alsoLast: bool, i: nat, nameSoFar: string, output: string, sep: string, last: bool)
    requires i < |names|
    requires nameSoFar == Join(names[..i], ".")
    requires output == Join(Segments(names, alsoLast)[..i], ".")
    requires sep == (if i == 0 then "" else ".") && last == (i == |names| - 1)
    ensures nameSoFar + sep + names[i] == Join(names[..i + 1], ".")
    ensures output + sep + (if last && !alsoLast then names[i] else PageLink(nameSoFar + sep + names[i], names[i]))
              == Join(Segments(names, alsoLast)[..i + 1], ".")
  {
    var segs := Segments(names, alsoLast);
    JoinStep(names, i);
    JoinStep(segs, i);
    if i == 0 {
      assert nameSoFar + "" + names[0] == names[0];
      assert output + "" + segs[0] == segs[0];
    }
  }

  /** The loop of QualifiedNameWithLinks over the segments of a name: it
      builds the breadcrumbs left to right while accumulating the prefix name. */
  method Breadcrumbs(names: seq<string>, alsoLast: bool) returns (output: string)
    ensures output == Join(Segments(names, alsoLast), ".")
  {
    var nameSoFar := "";
    output := "";
    var k := |names|;
    var i := 0;
    assert names[..0] == [] && Segments(names, alsoLast)[..0] == [];
    while i < |names|
      invariant 0 <= i <= |names|
      invariant k == |names| - i
      invariant nameSoFar == Join(names[..i], ".")
      invariant output == Join(Segments(names, alsoLast)[..i], ".")
    {
      var name := names[i];
      var sep := if k != |names| then "." else "";
      k := k - 1;
      BreadcrumbStep(names, alsoLast, i, nameSoFar, output, sep, k == 0);
      ghost var next := Join(names[..i + 1], ".");
      nameSoFar := nameSoFar + sep + name;
      assert nameSoFar == next;
      ghost var nextOut := Join(Segments(names, alsoLast)[..i + 1], ".");
      output := output + sep + (if k == 0 && !alsoLast then name else PageLink(nameSoFar, name));
      assert output == nextOut;
      i := i + 1;
    }
    assert Segments(names, alsoLast)[..|names|] == Segments(names, alsoLast);
  }

  /** QualifiedNameWithLinks(fullName, inpage, text, alsoLast): the breadcrumbs
      of the '.'-separated name, then a link to the in-page anchor if any. */
  method QualifiedNameWithLinks(fullName: string, inpage: Option<string>, text: string, alsoLast: bool)
    returns (output: string)
    ensures output == QualifiedName(fullName, inpage, text, alsoLast)
  {
    output := Breadcrumbs(Split(fullName, '.'), alsoLast);
    if inpage.Some? {
      output := output + "." + PageAnchorLink(fullName, inpage.value, text);
    }
  }

  /** The visible text of one breadcrumb: a link's text, or the plain text. */
  function SegmentText(s: string): string {
    match ParseHrefLink(s)
    case Some((_, t)) => t
    case None => s
  }

  /** The page a breadcrumb points at, if it is a link. */
  function SegmentTarget(s: string): Option<string> {
    match ParseHrefLink(s)
    case Some((h, _)) => Some(h)
    case None => None
  }

  /** Joining the pieces of a '.'-split name gives back a prefix of the name. */
  lemma SplitPrefix(fullName: string, i: nat)
    requires i < |Split(fullName, '.')|
    ensures var p := Join(Split(fullName, '.')[..i + 1], ".");
      |p| <= |fullName| && p == fullName[..|p|]
  {
    var names := Split(fullName, '.');
    JoinSplit(fullName, '.');
    if i + 1 < |names| {
      assert names == names[..i + 1] + names[i + 1..];
      JoinConcat(names[..i + 1], names[i + 1..], ".");
    } else {
      assert names[..i + 1] == names;
    }
  }

  /** A character missing from a name is missing from the joined prefix of
      its first i+1 segments. */
  lemma PrefixAvoids(fullName: string, i: nat, c: char)
    requires i < |Split(fullName, '.')| && c !in fullName
    ensures c !in Join(Split(fullName, '.')[..i + 1], ".")
  {
    SplitPrefix(fullName, i);
    var p := Join(Split(fullName, '.')[..i + 1], ".");
    assert forall j | 0 <= j < |p| :: p[j] == fullName[j];
  }

  /** Breadcrumb i of a name without quotes or '<' shows segment i, and links
      to the page of the first i+1 segments unless it is the last one and
      `alsoLast` is false. */
  lemma SegmentShows(fullName: string, alsoLast: bool, i: nat)
    requires '"' !in fullName && '<' !in fullName
    requires i < |Split(fullName, '.')|
    ensures var names := Split(fullName, '.'); var seg := Segment(names, i, alsoLast);
      && SegmentText(seg) == names[i]
      && (SegmentTarget(seg).None? <==> i == |names| - 1 && !alsoLast)
      && (SegmentTarget(seg).Some? ==> SegmentTarget(seg).value == Join(names[..i + 1], ".") + ".html")
  {
    var names := Split(fullName, '.');
    if !(i == |names| - 1 && !alsoLast) {
      PrefixAvoids(fullName, i, '"');
    } else {
      InSplitPiece(fullName, i);
      assert '<' !in names[i];
      assert Unwrap(LinkOpen, LinkClose, names[i]).None? by {
        if |names[i]| >= |LinkOpen| {
          assert names[i][0] != LinkOpen[0];
        }
      }
    }
  }

  /** For a name without quotes or '<', the breadcrumbs show exactly the
      segments of the name, which rejoin to it; segment i links to the page
      named by the first i+1 segments, a prefix of the name; only the last
      segment may be unlinked, and it is unlinked exactly when `alsoLast` is false. */
  lemma QualifiedNameSegments(fullName: string, alsoLast: bool)
    requires '"' !in fullName && '<' !in fullName
    ensures Join(Split(fullName, '.'), ".") == fullName
    ensures var names := Split(fullName, '.'); var segs := Segments(names, alsoLast);
      forall i | 0 <= i < |names| ::
        && SegmentText(segs[i]) == names[i]
        && (SegmentTarget(segs[i]).None? <==> i == |names| - 1 && !alsoLast)
        && (SegmentTarget(segs[i]).Some? ==> SegmentTarget(segs[i]).value == Join(names[..i + 1], ".") + ".html")
  {
    JoinSplit(fullName, '.');
    var names := Split(fullName, '.');
    forall i | 0 <= i < |names|
      ensures var seg := Segment(names, i, alsoLast);
        && SegmentText(seg) == names[i]
        && (SegmentTarget(seg).None? <==> i == |names| - 1 && !alsoLast)
        && (SegmentTarget(seg).Some? ==> SegmentTarget(seg).value == Join(names[..i + 1], ".") + ".html")
    {
      SegmentShows(fullName, alsoLast, i);
    }
  }

  /** A character absent from the name and from the link markup is absent
      from breadcrumb i. */
  lemma SegmentAvoids(fullName: string, alsoLast: bool, c: char, i: nat)
    requires c !in fullName
    requires c !in LinkOpen && c !in ".html\">" && c !in LinkClose
    requires i < |Split(fullName, '.')|
    ensures c !in Segment(Split(fullName, '.'), i, alsoLast)
  {
    var names := Split(fullName, '.');
    InSplitPiece(fullName, i);
    if !(i == |names| - 1 && !alsoLast) {
      var p := Join(names[..i + 1], ".");
      PrefixAvoids(fullName, i, c);
      assert c !in ".html" && c !in "\">";
      assert c !in p + ".html";
      HrefLinkAvoids(p + ".html", names[i], c);
    }
  }

  /** The breadcrumbs add no character of their own beyond the link markup:
      a character absent from the name and from that markup is absent from them. */
  lemma QualifiedNameAvoids(fullName: string, text: string, alsoLast: bool, c: char)
    requires c != '.' && c !in fullName
    requires c !in LinkOpen && c !in ".html\">" && c !in LinkClose
    ensures c !in QualifiedName(fullName, None, text, alsoLast)
  {
    var names := Split(fullName, '.');
    var segs := Segments(names, alsoLast);
    forall i | 0 <= i < |segs| ensures c !in segs[i] {
      SegmentAvoids(fullName, alsoLast, c, i);
    }
    JoinAvoids(segs, ".", c);
  }

  /** Every character of a piece of a split occurs in the split text. */
  lemma {:induction false} InSplitPiece(s: string, i: nat)
    requires i < |Split(s, '.')|
    ensures forall c | c in Split(s, '.')[i] :: c in s
  {
    SplitPrefix(s, i);
    var names := Split(s, '.');
    var p := Join(names[..i + 1], ".");
    if i == 0 {
      assert p == names[0];
    } else {
      assert names[..i + 1] == names[..i] + [names[i]];
      JoinSnoc(names[..i], names[i], ".");
    }
    assert p[|p| - |names[i]|..] == names[i];
    forall c | c in names[i] ensures c in s {
      var j :| 0 <= j < |names[i]| && names[i][j] == c;
      assert p[|p| - |names[i]| + j] == c;
      assert s[|p| - |names[i]| + j] == c;
    }
  }

  // ---- the one-argument form, which reads "page#anchor" references ----

  datatype Crash = ArgumentOutOfRange

  /** QualifiedNameWithLinks(fullName, alsoLast) as written: when a '#' occurs
      after the first character, the name is cut at the '#' first and the
      anchor is then taken from after the '#' of the already-cut text, which
      is past its end, so String.Substring throws. */
  function QualifiedNameWithLinksAsWritten(fullName: string, alsoLast: bool): (r: Result<string, Crash>)
    ensures r.Failure? <==> '#' in fullName && fullName[0] != '#'
  {
    var hash := IndexOfChar(fullName, '#');
    // the name is cut to its first `hash` characters before the anchor is
    // read from index hash + 1 of the cut text, which is out of range
    if hash > 0 then Failure(ArgumentOutOfRange)
    else Success(QualifiedName(fullName, None, "", alsoLast))
  }

  /** A reference into a page crashes the one-argument form. */
  lemma AnchoredReferenceCrashes()
    ensures QualifiedNameWithLinksAsWritten("M.C#f", true) == Failure(ArgumentOutOfRange)
  {
    assert "M.C#f"[3] == '#';
    IndexOfCharSplit("M.C", '#', "f");
    assert "M.C" + ['#'] + "f" == "M.C#f";
  }

  /** The evidently intended one-argument form: the anchor is the text after
      the first '#' of the original reference. */
  function QualifiedNameOfReference(fullName: string, alsoLast: bool): string {
    var hash := IndexOfChar(fullName, '#');
    if hash > 0 then
      QualifiedName(fullName[..hash], Some(fullName[hash + 1..]), fullName[hash + 1..], alsoLast)
    else QualifiedName(fullName, None, "", alsoLast)
  }

  /** A reference "page#anchor" renders as the breadcrumbs of the page followed
      by a link to that anchor on that page; a reference without '#' renders
      as written. */
  lemma QualifiedNameOfReferenceSplits(page: string, anchor: string, alsoLast: bool)
    requires page != "" && '#' !in page
    ensures QualifiedNameOfReference(page + "#" + anchor, alsoLast)
              == QualifiedName(page, Some(anchor), anchor, alsoLast)
    ensures QualifiedNameWithLinksAsWritten(page, alsoLast) == Success(QualifiedNameOfReference(page, alsoLast))
  {
    IndexOfCharSplit(page, '#', anchor);
    var s := page + "#" + anchor;
    assert s == page + ['#'] + anchor;
    assert s[..|page|] == page;
    assert s[|page| + 1..] == anchor;
  }

  // ---- export sets ----

  /** ExportSetAnchor(name): export sets live in their own namespace, so their
      anchors carry a trailing '+'. */
  function ExportSetAnchor(name: string): (r: string)
    ensures |r| == |name| + 1 && r[..|name|] == name && r[|name|] == '+'
  {
    name + "+"
  }

  /** Distinct export sets get distinct anchors, and no export-set anchor
      equals the anchor of a member whose name has no '+'. */
  lemma ExportSetAnchorsDistinct(e1: string, e2: string, member: string)
    requires '+' !in member
    ensures ExportSetAnchor(e1) == ExportSetAnchor(e2) ==> e1 == e2
    ensures ExportSetAnchor(e1) != member
  {
    if ExportSetAnchor(e1) == ExportSetAnchor(e2) {
      assert e1 == ExportSetAnchor(e1)[..|e1|];
    }
  }

  // ---- page ownership ----

  /** The kinds of declaration the generator distinguishes. */
  datatype DeclKind =
    | ModuleKind | ClassKind | TraitKind | DatatypeKind | NewtypeKind | OpaqueTypeKind
    | TypeSynonymKind | SubsetTypeKind
    | ConstKind | FieldKind | FunctionKind | MethodKind | ConstructorKind | LemmaKind
    | ExportSetKind | ImportAliasKind | AbstractImportKind

  /** The kinds that are declarations with members in the resolved tree. */
  predicate IsDeclWithMembers(kind: DeclKind) {
    kind.ClassKind? || kind.TraitKind? || kind.DatatypeKind? || kind.NewtypeKind? || kind.OpaqueTypeKind?
  }

  /** HasOwnPage(t): a declaration with members that is a class or a trait or
      has at least one member. Modules do not satisfy it, although the
      generator writes a page for every module. */
  predicate HasOwnPage(kind: DeclKind, memberCount: nat): (b: bool)
    ensures kind.ModuleKind? ==> !b
    ensures kind.ClassKind? || kind.TraitKind? ==> b
    ensures kind.DatatypeKind? || kind.NewtypeKind? || kind.OpaqueTypeKind? ==> (b <==> memberCount > 0)
    ensures b ==> IsDeclWithMembers(kind)
  {
    IsDeclWithMembers(kind) && (kind.ClassKind? || kind.TraitKind? || memberCount > 0)
  }

  /** The name link in the Types summary table: to the type's own page when
      it has one, otherwise to the type's anchor on the module page. */
  function TypeSummaryLink(fullName: string, name: string, kind: DeclKind, memberCount: nat): (r: string)
    ensures '"' !in fullName + name ==>
              ParseHrefLink(r) == Some((if HasOwnPage(kind, memberCount) then fullName + ".html" else "#" + name, Bold(name)))
  {
    if HasOwnPage(kind, memberCount) then PageLink(fullName, Bold(name))
    else LinkToAnchor(name, Bold(name))
  }

  /** A link in the "Names imported" list of an import: to the declaration's
      page when it has one, otherwise to the page named by the text before the
      last '.' of its full name (or the full name itself when it has no '.'),
      always with the simple name as the anchor. */
  function ImportedNameLink(fullName: string, name: string, kind: DeclKind, memberCount: nat): (r: string)
    ensures '"' !in fullName + name ==> ParseHrefLink(r).Some?
    ensures '"' !in fullName + name ==> ParseHrefLink(r).value.1 == name
    ensures '"' !in fullName + name && (HasOwnPage(kind, memberCount) || '.' !in fullName) ==>
              ParseHrefLink(r).value.0 == fullName + ".html#" + name
    ensures forall owner ::
              !HasOwnPage(kind, memberCount) && fullName == owner + "." + name && '.' !in name && '"' !in fullName ==>
              ParseHrefLink(r).value.0 == owner + ".html#" + name
  {
    if HasOwnPage(kind, memberCount) then PageAnchorLink(fullName, name, name)
    else
      var k := LastIndexOfChar(fullName, '.');
      if k < 0 then PageAnchorLink(fullName, name, name)
      else
        assert '"' !in fullName + name ==> '"' !in fullName[..k] + name by {
          assert forall j | 0 <= j < k :: fullName[..k][j] == fullName[j];
        }
        ImportedNameOwner(fullName, name, k);
        PageAnchorLink(fullName[..k], name, name)
  }

  lemma ImportedNameOwner(fullName: string, name: string, k: int)
    requires k == LastIndexOfChar(fullName, '.')
    ensures forall owner :: fullName == owner + "." + name && '.' !in name ==> k == |owner| && fullName[..k] == owner
  {
    forall owner | fullName == owner + "." + name && '.' !in name
      ensures k == |owner| && fullName[..k] == owner
    {
      OwnerSplit(owner, name, k);
    }
  }

  lemma OwnerSplit(owner: string, name: string, k: int)
    requires '.' !in name && k == LastIndexOfChar(owner + "." + name, '.')
    ensures k == |owner| && (owner + "." + name)[..k] == owner
  {
    assert "." == ['.'];
    LastIndexOfCharSplit(owner, '.', name);
    ConcatAssoc(owner, ".", name);
    PrefixOfConcat(owner, "." + name);
  }
}
