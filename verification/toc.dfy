/** The table of contents (index.html): every module, sorted by full name,
    as a nested list whose nesting follows the number of '.' in the name. */
module Toc {
  import opened Wrappers
  import opened Strings
  import opened Html
  import opened Docstrings
  import opened Sorting
  import opened NameIndex

  /** What the table of contents needs of a module. */
  datatype TocModule = TocModule(fullName: string, isDefault: bool, comment: Option<string>)

  /** The nesting level: the number of '.' in the full name. */
  function Level(m: TocModule): nat {
    Count(m.fullName, '.')
  }

  /** Where a module's table-of-contents link leads: the root page for the
      root module, the module's own page otherwise. */
  function TocTarget(m: TocModule): string {
    if m.isDefault then RootName + ".html" else m.fullName + ".html"
  }

  /** The text of that link: the root's display name, or the full name. */
  function TocText(m: TocModule): string {
    if m.isDefault then RootDisplayName else m.fullName
  }

  /** The list item of one module: "Module ", then a link that reads back as
      the module's page and name, then the dashed first sentence of its
      documentation. */
  function TocItem(m: TocModule): (r: string)
    ensures Unwrap("<li>Module ", "</li>", r).Some?
    ensures var body := Unwrap("<li>Module ", "</li>", r).value;
      var n := |HrefLink(TocTarget(m), TocText(m))|;
      && n <= |body|
      && body[n..] == DashShortDocstringNoMore(m.comment)
      && ('"' !in m.fullName ==> ParseHrefLink(body[..n]) == Some((TocTarget(m), TocText(m))))
  {
    var ds := DashShortDocstringNoMore(m.comment);
    var link := HrefLink(TocTarget(m), TocText(m));
    UnwrapWrap("<li>Module ", link + ds, "</li>");
    PrefixOfConcat(link, ds);
    assert (link + ds)[|link|..] == ds;
    "<li>Module " + (link + ds) + "</li>"
  }

  /** `n` copies of one line. */
  function Repeat(line: string, n: nat): (r: seq<string>)
    ensures |r| == n && forall i | 0 <= i < n :: r[i] == line
  {
    seq(n, _ => line)
  }

  /** The tags that move the list depth from `cur` to `level`. */
  function Tags(cur: nat, level: nat): seq<string> {
    if level > cur then Repeat(ListStart, level - cur) else Repeat(ListEnd, cur - level)
  }

  /** What the list needs of one module: its level and its item line. */
  datatype TocEntry = TocEntry(level: nat, item: string)

  function EntryOf(m: TocModule): TocEntry {
    TocEntry(Level(m), TocItem(m))
  }

  function Entries(ms: seq<TocModule>): (r: seq<TocEntry>)
    ensures |r| == |ms| && forall i | 0 <= i < |ms| :: r[i] == EntryOf(ms[i])
  {
    seq(|ms|, i requires 0 <= i < |ms| => EntryOf(ms[i]))
  }

  /** Item lines are neither list tags. */
  predicate ItemsPlain(es: seq<TocEntry>) {
    forall i | 0 <= i < |es| :: es[i].item != ListStart && es[i].item != ListEnd
  }

  lemma ItemPlain(m: TocModule)
    ensures TocItem(m) != ListStart && TocItem(m) != ListEnd
  {
    assert |TocItem(m)| >= |"<li>Module "| + |"</li>"| > |ListEnd| > |ListStart|;
  }

  lemma EntriesPlain(ms: seq<TocModule>)
    ensures ItemsPlain(Entries(ms))
  {
    forall i | 0 <= i < |ms| ensures TocItem(ms[i]) != ListStart && TocItem(ms[i]) != ListEnd {
      ItemPlain(ms[i]);
    }
  }

  /** The level the list is at after writing `es`, starting at `cur`. */
  function LastLevel(es: seq<TocEntry>, cur: nat): nat {
    if |es| == 0 then cur else es[|es| - 1].level
  }

  /** The reference reading of the loop: for each module, the tags to reach
      its level, then its item. */
  function TocBody(es: seq<TocEntry>, cur: nat): seq<string>
    decreases |es|
  {
    if |es| == 0 then []
    else Tags(cur, es[0].level) + [es[0].item] + TocBody(es[1..], es[0].level)
  }

  /** The lines of the list as the generator writes them: one opening tag, the
      body, one closing tag. */
  function TocLines(es: seq<TocEntry>): seq<string> {
    [ListStart] + TocBody(es, 0) + [ListEnd]
  }

  // ---- list depth ----

  function Delta(line: string): int {
    if line == ListStart then 1 else if line == ListEnd then -1 else 0
  }

  /** The number of lists open after `lines`: opening tags minus closing tags. */
  function Depth(lines: seq<string>): int {
    if |lines| == 0 then 0 else Depth(lines[..|lines| - 1]) + Delta(lines[|lines| - 1])
  }

  lemma {:induction false} DepthConcat(a: seq<string>, b: seq<string>)
    ensures Depth(a + b) == Depth(a) + Depth(b)
    decreases |b|
  {
    if |b| == 0 {
      assert a + b == a;
    } else {
      assert (a + b)[..|a + b| - 1] == a + b[..|b| - 1];
      DepthConcat(a, b[..|b| - 1]);
    }
  }

  lemma DepthSingle(line: string)
    ensures Depth([line]) == Delta(line)
  {
    assert [line][..0] == [];
  }

  lemma {:induction false} RepeatDepth(line: string, n: nat)
    ensures Depth(Repeat(line, n)) == n * Delta(line)
  {
    if n > 0 {
      assert Repeat(line, n)[..n - 1] == Repeat(line, n - 1);
      RepeatDepth(line, n - 1);
    }
  }

  /** The tags move the depth by exactly the difference of the levels. */
  lemma TagsDepth(cur: nat, level: nat)
    ensures Depth(Tags(cur, level)) == level - cur
    ensures |Tags(cur, level)| == if level > cur then level - cur else cur - level
  {
    RepeatDepth(ListStart, if level > cur then level - cur else 0);
    RepeatDepth(ListEnd, if level > cur then 0 else cur - level);
  }

  /** Writing the modules from depth `cur` leaves the list at the level of
      the last one. */
  lemma {:induction false} TocBodyDepth(es: seq<TocEntry>, cur: nat)
    requires ItemsPlain(es)
    ensures Depth(TocBody(es, cur)) == LastLevel(es, cur) - cur
    decreases |es|
  {
    if |es| > 0 {
      var l := es[0].level;
      TocBodyDepth(es[1..], l);
      TagsDepth(cur, l);
      DepthSingle(es[0].item);
      DepthConcat(Tags(cur, l), [es[0].item]);
      DepthConcat(Tags(cur, l) + [es[0].item], TocBody(es[1..], l));
      if |es| > 1 {
        assert es[1..][|es| - 2] == es[|es| - 1];
      }
    }
  }

  /** The body of a concatenation is the concatenation of the bodies. */
  lemma {:induction false} TocBodyAppend(xs: seq<TocEntry>, ys: seq<TocEntry>, cur: nat)
    ensures TocBody(xs + ys, cur) == TocBody(xs, cur) + TocBody(ys, LastLevel(xs, cur))
    decreases |xs|
  {
    if |xs| == 0 {
      assert xs + ys == ys;
    } else {
      var l := xs[0].level;
      var head := Tags(cur, l) + [xs[0].item];
      assert (xs + ys)[0] == xs[0];
      assert (xs + ys)[1..] == xs[1..] + ys;
      TocBodyAppend(xs[1..], ys, l);
      assert LastLevel(xs[1..], l) == LastLevel(xs, cur) by {
        if |xs| > 1 {
          assert xs[1..][|xs| - 2] == xs[|xs| - 1];
        }
      }
      var a := TocBody(xs[1..], l);
      var b := TocBody(ys, LastLevel(xs, cur));
      calc {
        TocBody(xs + ys, cur);
        head + TocBody(xs[1..] + ys, l);
        head + (a + b);
        { assert head + (a + b) == (head + a) + b; }
        (head + a) + b;
        TocBody(xs, cur) + b;
      }
    }
  }

  /** Module k's item is preceded by exactly the tags that take the list from
      the previous module's level to its own, and is written at depth
      1 + its level: one list for the outer <ul>, one per '.'. */
  lemma ItemPosition(es: seq<TocEntry>, k: nat)
    requires ItemsPlain(es)
    requires k < |es|
    ensures var lines := TocLines(es);
      var p := 1 + |TocBody(es[..k], 0)| + |Tags(LastLevel(es[..k], 0), es[k].level)|;
      && p < |lines|
      && lines[p] == es[k].item
      && Depth(lines[..p]) == 1 + es[k].level
  {
    var prev := LastLevel(es[..k], 0);
    var front := TocBody(es[..k], 0);
    var tags := Tags(prev, es[k].level);
    var item := es[k].item;
    assert es == es[..k] + es[k..];
    TocBodyAppend(es[..k], es[k..], 0);
    assert es[k..][0] == es[k];
    var rest := TocBody(es[k + 1..], es[k].level);
    assert es[k..][1..] == es[k + 1..];
    assert TocBody(es[k..], prev) == tags + ([item] + rest);
    var pre := [ListStart] + front + tags;
    var suffix := ([item] + rest) + [ListEnd];
    Regroup([ListStart], front, tags, [item] + rest, [ListEnd]);
    assert TocLines(es) == pre + suffix;
    PrefixOfConcat(pre, suffix);
    assert (pre + suffix)[|pre|] == suffix[0] == item;
    assert ItemsPlain(es[..k]) by {
      assert forall i | 0 <= i < k :: es[..k][i] == es[i];
    }
    TocBodyDepth(es[..k], 0);
    TagsDepth(prev, es[k].level);
    DepthSingle(ListStart);
    DepthConcat([ListStart], front);
    DepthConcat([ListStart] + front, tags);
  }

  /** As written, the page closes only the outermost list: whenever the last
      module is nested, lists are left open, as many as it has '.'. */
  lemma TocLinesUnbalanced(es: seq<TocEntry>)
    requires ItemsPlain(es)
    ensures Depth(TocLines(es)) == LastLevel(es, 0)
  {
    TocBodyDepth(es, 0);
    DepthSingle(ListStart);
    DepthSingle(ListEnd);
    DepthConcat([ListStart], TocBody(es, 0));
    DepthConcat([ListStart] + TocBody(es, 0), [ListEnd]);
  }

  /** A program with a module A and a submodule A.B gets a list left open. */
  lemma NestedLastModuleLeavesListOpen()
    ensures Depth(TocLines(Entries([TocModule("A", false, None), TocModule("A.B", false, None)]))) == 1
  {
    var ms := [TocModule("A", false, None), TocModule("A.B", false, None)];
    EntriesPlain(ms);
    TocLinesUnbalanced(Entries(ms));
    assert "A.B"[1..] == ".B" && ".B"[1..] == "B" && "B"[1..] == "";
    assert Level(ms[1]) == 1;
  }

  /** The evidently intended lines: after the last item, close every list
      opened for it, then the outer one. */
  function TocLinesClosed(es: seq<TocEntry>): seq<string> {
    [ListStart] + TocBody(es, 0) + Tags(LastLevel(es, 0), 0) + [ListEnd]
  }

  /** The corrected lines are balanced and keep every item where it was. */
  lemma TocLinesClosedBalanced(es: seq<TocEntry>)
    requires ItemsPlain(es)
    ensures Depth(TocLinesClosed(es)) == 0
    ensures TocLinesClosed(es)[..1 + |TocBody(es, 0)|] == TocLines(es)[..1 + |TocBody(es, 0)|]
  {
    var body := TocBody(es, 0);
    var closing := Tags(LastLevel(es, 0), 0);
    TocBodyDepth(es, 0);
    TagsDepth(LastLevel(es, 0), 0);
    DepthSingle(ListStart);
    DepthSingle(ListEnd);
    DepthConcat([ListStart], body);
    DepthConcat([ListStart] + body, closing);
    DepthConcat([ListStart] + body + closing, [ListEnd]);
    assert TocLinesClosed(es)[..1 + |body|] == [ListStart] + body;
    assert TocLines(es)[..1 + |body|] == [ListStart] + body;
  }

  /** The two inner loops of WriteTOC: open or close lists one line at a
      time until the depth matches `level`. */
  method MoveToLevel(lines0: seq<string>, currentIndent0: nat, level: nat)
    returns (lines: seq<string>, currentIndent: nat)
    ensures lines == lines0 + Tags(currentIndent0, level)
    ensures currentIndent == level
  {
    lines := lines0;
    currentIndent := currentIndent0;
    assert Tags(currentIndent0, currentIndent0) == [];
    while level > currentIndent
      invariant currentIndent0 <= currentIndent <= level || currentIndent == currentIndent0
      invariant lines == lines0 + Tags(currentIndent0, currentIndent)
    {
      assert Tags(currentIndent0, currentIndent + 1) == Tags(currentIndent0, currentIndent) + [ListStart];
      lines := lines + [ListStart];
      currentIndent := currentIndent + 1;
    }
    while level < currentIndent
      invariant level <= currentIndent
      invariant currentIndent <= currentIndent0 || currentIndent == level
      invariant lines == lines0 + Tags(currentIndent0, currentIndent)
    {
      assert Tags(currentIndent0, currentIndent - 1) == Tags(currentIndent0, currentIndent) + [ListEnd];
      lines := lines + [ListEnd];
      currentIndent := currentIndent - 1;
    }
  }

  /** WriteTOC: sorts the modules by full name and writes the list. */
  method WriteToc(modules: seq<TocModule>, le: (string, string) -> bool) returns (lines: seq<string>)
    ensures lines == TocLines(Entries(SortOn(modules, (m: TocModule) => m.fullName, le)))
  {
    var sorted := SortOn(modules, (m: TocModule) => m.fullName, le);
    lines := WriteList(sorted);
  }

  /** The loop of WriteTOC over the sorted modules: opening and closing
      nested lists one tag per line as the level changes, then the item. */
  method WriteList(sorted: seq<TocModule>) returns (lines: seq<string>)
    ensures lines == TocLines(Entries(sorted))
  {
    ghost var es := Entries(sorted);
    lines := [ListStart];
    var currentIndent: nat := 0;
    var i := 0;
    assert es[..0] == [];
    while i < |sorted|
      invariant 0 <= i <= |sorted|
      invariant currentIndent == LastLevel(es[..i], 0)
      invariant lines == [ListStart] + TocBody(es[..i], 0)
    {
      var m := sorted[i];
      assert es[i] == EntryOf(m);
      ghost var before := lines;
      ghost var start := currentIndent;
      lines, currentIndent := MoveToLevel(lines, currentIndent, Count(m.fullName, '.'));
      lines := lines + [TocItem(m)];
      assert lines == before + Tags(start, es[i].level) + [es[i].item];
      TocStep(es, i, before, start);
      i := i + 1;
    }
    assert es[..|sorted|] == es;
    lines := lines + [ListEnd];
  }

  /** One turn of the WriteTOC loop appends module i's tags and item. */
  lemma TocStep(es: seq<TocEntry>, i: nat, before: seq<string>, start: nat)
    requires i < |es|
    requires start == LastLevel(es[..i], 0)
    requires before == [ListStart] + TocBody(es[..i], 0)
    ensures before + Tags(start, es[i].level) + [es[i].item] == [ListStart] + TocBody(es[..i + 1], 0)
    ensures es[i].level == LastLevel(es[..i + 1], 0)
  {
    assert es[..i + 1] == es[..i] + [es[i]];
    TocBodyAppend(es[..i], [es[i]], 0);
    assert TocBody([es[i]], start) == Tags(start, es[i].level) + [es[i].item] + [];
  }
}
