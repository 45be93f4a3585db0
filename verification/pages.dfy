/** The layout of a module page (WriteModule) and of a class or trait page
    (WriteDecl): a fixed sequence of categories, each written under its own
    heading only when it has declarations, most of them sorted by name. */
module Pages {
  import opened Wrappers
  import opened Html
  import opened Sorting
  import opened Strings

  datatype Category =
    | Exports | Imports | Submodules | Types
    | Constructors | Constants | MutableFields | Functions | Methods | Lemmas

  /** A declaration listed on a page. `isAbstractImport` separates
      `import A : B` from `import A = B`; `isDefaultClass` marks the
      implicit class that holds a module's top-level members. */
  datatype Item = Item(name: string, category: Category, isAbstractImport: bool, isDefaultClass: bool)

  /** The sort key of every list on a page. */
  function Name(x: Item): string {
    x.name
  }

  /** WriteModule: exports, imports, submodules, types, then the default
      class's constants, functions, methods and lemmas. */
  const ModulePageOrder: seq<Category> := [Exports, Imports, Submodules, Types, Constants, Functions, Methods, Lemmas]

  /** WriteDecl: constructors (classes only), constants, mutable fields,
      functions, methods, lemmas. */
  function DeclPageOrder(isClass: bool): (r: seq<Category>)
    ensures Constructors in r <==> isClass
    ensures isClass ==> r[0] == Constructors
    ensures Exports !in r && Imports !in r && Submodules !in r && Types !in r
  {
    (if isClass then [Constructors] else []) + [Constants, MutableFields, Functions, Methods, Lemmas]
  }

  /** The heading text of each category. */
  function Title(c: Category): string {
    match c
    case Exports => "Export sets"
    case Imports => "Imports"
    case Submodules => "Submodules"
    case Types => "Types"
    case Constructors => "Constructors"
    case Constants => "Constants\n"
    case MutableFields => "Mutable Fields\n"
    case Functions => "Functions"
    case Methods => "Methods"
    case Lemmas => "Lemmas"
  }

  /** The heading the summaries get: constants and fields carry their line
      end inside the title, the others get one after the heading. */
  function SummaryHeading(c: Category): string {
    if c == Constants || c == MutableFields then Heading3(Title(c)) else Heading3(Title(c)) + eol
  }

  /** The heading the details get: the same, except that submodules have
      their details on their own pages and get none. */
  function DetailHeading(c: Category): (r: string)
    ensures r == "" <==> c == Submodules
    ensures c != Submodules ==> r == SummaryHeading(c)
  {
    if c == Submodules then "" else SummaryHeading(c)
  }

  // ---- selecting and ordering the entries ----

  /** The items that satisfy `p`, in their order. */
  function Keep(items: seq<Item>, p: Item -> bool): (r: seq<Item>)
    ensures forall i | 0 <= i < |r| :: p(r[i])
    ensures forall x :: multiset(r)[x] == if p(x) then multiset(items)[x] else 0
  {
    if |items| == 0 then []
    else
      assert items == [items[0]] + items[1..];
      (if p(items[0]) then [items[0]] else []) + Keep(items[1..], p)
  }

  /** Keeping the same items from two permutations gives permutations. */
  lemma KeepPermutation(a: seq<Item>, b: seq<Item>, p: Item -> bool)
    requires multiset(a) == multiset(b)
    ensures multiset(Keep(a, p)) == multiset(Keep(b, p))
  {
    forall x ensures multiset(Keep(a, p))[x] == multiset(Keep(b, p))[x] {
    }
  }

  /** Keeping some items of a sorted list leaves it sorted. */
  lemma {:induction false} KeepSorted(items: seq<Item>, p: Item -> bool, le: (string, string) -> bool)
    requires SortedOn(items, Name, le)
    ensures SortedOn(Keep(items, p), Name, le)
    decreases |items|
  {
    if |items| > 0 {
      var rest := Keep(items[1..], p);
      KeepSorted(items[1..], p, le);
      if p(items[0]) {
        HeadBeforeKept(items, p, le);
        ConsSorted(items[0], rest, le);
        assert Keep(items, p) == [items[0]] + rest;
      } else {
        assert Keep(items, p) == rest;
      }
    }
  }

  lemma HeadBeforeKept(items: seq<Item>, p: Item -> bool, le: (string, string) -> bool)
    requires |items| > 0 && SortedOn(items, Name, le)
    ensures forall k | 0 <= k < |Keep(items[1..], p)| :: le(items[0].name, Keep(items[1..], p)[k].name)
  {
    var rest := Keep(items[1..], p);
    forall k | 0 <= k < |rest| ensures le(items[0].name, rest[k].name) {
      assert rest[k] in multiset(rest);
      assert rest[k] in multiset(items[1..]);
      var m :| 0 <= m < |items[1..]| && items[1..][m] == rest[k];
      assert items[m + 1] == rest[k];
    }
  }

  lemma ConsSorted(x: Item, rest: seq<Item>, le: (string, string) -> bool)
    requires SortedOn(rest, Name, le)
    requires forall k | 0 <= k < |rest| :: le(x.name, rest[k].name)
    ensures SortedOn([x] + rest, Name, le)
  {
    var r := [x] + rest;
    forall i, j | 0 <= i < j < |r| ensures le(r[i].name, r[j].name) {
      assert r[j] == rest[j - 1];
      if i > 0 {
        assert r[i] == rest[i - 1];
      }
    }
  }

  function InCategory(c: Category): Item -> bool {
    (x: Item) => x.category == c
  }

  predicate NamedImport(x: Item) {
    !x.isAbstractImport
  }

  predicate AbstractImport(x: Item) {
    x.isAbstractImport
  }

  /** The items a category shows. */
  function ShownIn(c: Category): Item -> bool {
    (x: Item) => x.category == c && Shown(x)
  }

  /** Whether an item of its category is shown: every one but the default
      class, which counts for the Types heading but is skipped. */
  predicate Shown(x: Item) {
    !(x.category == Types && x.isDefaultClass)
  }

  /** Ordered by name, as List.Sort with CompareTo orders them. */
  function ByName(items: seq<Item>, le: (string, string) -> bool): (r: seq<Item>)
    ensures multiset(r) == multiset(items)
    ensures TotalPreorder(le) ==> SortedOn(r, Name, le)
  {
    SortedIfPreorder(items, le);
    SortOn(items, Name, le)
  }

  lemma SortedIfPreorder(items: seq<Item>, le: (string, string) -> bool)
    ensures TotalPreorder(le) ==> SortedOn(SortOn(items, Name, le), Name, le)
  {
    if TotalPreorder(le) {
      SortOnSorted(items, Name, le);
    }
  }

  /** The entries a category lists, in the order the page lists them: export
      sets as declared; named imports by name, then abstract imports by name;
      types by name without the default class; every other category by name. */
  function Entries(c: Category, items: seq<Item>, le: (string, string) -> bool): seq<Item> {
    var its := Keep(items, InCategory(c));
    if c == Exports then its
    else if c == Imports then ByName(Keep(its, NamedImport), le) + ByName(Keep(its, AbstractImport), le)
    else if c == Types then Keep(ByName(its, le), Shown)
    else ByName(its, le)
  }

  /** Every shown item of the category is listed once, and nothing else. */
  lemma EntriesComplete(c: Category, items: seq<Item>, le: (string, string) -> bool)
    ensures multiset(Entries(c, items, le)) == multiset(Keep(items, ShownIn(c)))
  {
    var its := Keep(items, InCategory(c));
    if c == Imports {
      ImportsComplete(items, le);
    } else if c == Types {
      TypesComplete(items, le);
    } else {
      assert multiset(Entries(c, items, le)) == multiset(its);
      SameKept(items, InCategory(c), ShownIn(c));
    }
  }

  /** Two filters that agree on every item keep the same items. */
  lemma SameKept(items: seq<Item>, p: Item -> bool, q: Item -> bool)
    requires forall x :: p(x) == q(x)
    ensures multiset(Keep(items, p)) == multiset(Keep(items, q))
  {
    forall x ensures multiset(Keep(items, p))[x] == multiset(Keep(items, q))[x] {
    }
  }

  /** Splitting by a filter and its negation loses and adds nothing. */
  lemma KeepSplit(items: seq<Item>, p: Item -> bool, q: Item -> bool)
    requires forall x :: q(x) == !p(x)
    ensures multiset(Keep(items, p)) + multiset(Keep(items, q)) == multiset(items)
  {
    var a, b := Keep(items, p), Keep(items, q);
    forall x ensures multiset(a)[x] + multiset(b)[x] == multiset(items)[x] {
      assert multiset(a)[x] == if p(x) then multiset(items)[x] else 0;
      assert multiset(b)[x] == if q(x) then multiset(items)[x] else 0;
    }
  }

  lemma ImportsComplete(items: seq<Item>, le: (string, string) -> bool)
    ensures multiset(Entries(Imports, items, le)) == multiset(Keep(items, ShownIn(Imports)))
  {
    var its := Keep(items, InCategory(Imports));
    var named := Keep(its, NamedImport);
    var abs := Keep(its, AbstractImport);
    assert Entries(Imports, items, le) == ByName(named, le) + ByName(abs, le);
    assert multiset(Entries(Imports, items, le)) == multiset(named) + multiset(abs);
    KeepSplit(its, NamedImport, AbstractImport);
    SameKept(items, InCategory(Imports), ShownIn(Imports));
  }

  lemma TypesComplete(items: seq<Item>, le: (string, string) -> bool)
    ensures multiset(Entries(Types, items, le)) == multiset(Keep(items, ShownIn(Types)))
  {
    var its := Keep(items, InCategory(Types));
    var sorted := ByName(its, le);
    assert Entries(Types, items, le) == Keep(sorted, Shown);
    KeepPermutation(sorted, its, Shown);
    KeepTwice(items, InCategory(Types), Shown, ShownIn(Types));
  }

  /** Filtering twice keeps what both filters admit. */
  lemma KeepTwice(items: seq<Item>, p: Item -> bool, q: Item -> bool, both: Item -> bool)
    requires forall x :: both(x) == (p(x) && q(x))
    ensures multiset(Keep(Keep(items, p), q)) == multiset(Keep(items, both))
  {
    var its := Keep(items, p);
    var a, b := Keep(its, q), Keep(items, both);
    forall x ensures multiset(a)[x] == multiset(b)[x] {
      assert multiset(a)[x] == if q(x) then multiset(its)[x] else 0;
      assert multiset(its)[x] == if p(x) then multiset(items)[x] else 0;
    }
  }

  /** Every category but export sets and imports is listed by name;
      imports are by name within the named and within the abstract ones. */
  lemma EntriesSorted(c: Category, items: seq<Item>, le: (string, string) -> bool)
    requires TotalPreorder(le)
    ensures c != Exports && c != Imports ==> SortedOn(Entries(c, items, le), Name, le)
    ensures c == Imports ==>
              var its := Keep(items, InCategory(c));
              && Entries(c, items, le) == ByName(Keep(its, NamedImport), le) + ByName(Keep(its, AbstractImport), le)
              && SortedOn(ByName(Keep(its, NamedImport), le), Name, le)
              && SortedOn(ByName(Keep(its, AbstractImport), le), Name, le)
  {
    if c == Types {
      KeepSorted(ByName(Keep(items, InCategory(c)), le), Shown, le);
    }
  }

  // ---- the page ----

  datatype Section = Section(category: Category, entries: seq<Item>)

  /** A category gets its heading when it has declarations. */
  predicate HasSection(c: Category, items: seq<Item>) {
    |Keep(items, InCategory(c))| > 0
  }

  function HasSectionIn(items: seq<Item>): Category -> bool {
    c => HasSection(c, items)
  }

  /** The categories of `order` that `has` admits, in order. */
  function Present(order: seq<Category>, has: Category -> bool): (r: seq<Category>)
    ensures |r| <= |order|
  {
    if |order| == 0 then []
    else Present(order[..|order| - 1], has) + (if has(order[|order| - 1]) then [order[|order| - 1]] else [])
  }

  /** Where each category of Present(order, has) sits in `order`. */
  ghost function Positions(order: seq<Category>, has: Category -> bool): (idx: seq<nat>)
    ensures |idx| == |Present(order, has)|
  {
    if |order| == 0 then []
    else
      var n := |order| - 1;
      Positions(order[..n], has) + (if has(order[n]) then [n] else [])
  }

  /** The positions point at the admitted categories. */
  lemma {:induction false} PositionsPoint(order: seq<Category>, has: Category -> bool)
    ensures var idx := Positions(order, has);
      forall k | 0 <= k < |idx| :: idx[k] < |order| && order[idx[k]] == Present(order, has)[k]
    decreases |order|
  {
    if |order| > 0 {
      var n := |order| - 1;
      var front := Positions(order[..n], has);
      var prev := Present(order[..n], has);
      PositionsPoint(order[..n], has);
      var idx := Positions(order, has);
      var r := Present(order, has);
      assert idx == front + (if has(order[n]) then [n] else []);
      assert r == prev + (if has(order[n]) then [order[n]] else []);
      forall k | 0 <= k < |idx| ensures idx[k] < |order| && order[idx[k]] == r[k] {
        if k < |front| {
          assert idx[k] == front[k] && r[k] == prev[k];
          assert order[..n][front[k]] == order[front[k]];
        }
      }
    }
  }

  /** Positions below `n`, strictly increasing. */
  predicate IncreasingBelow(idx: seq<nat>, n: nat) {
    && (forall k | 0 <= k < |idx| :: idx[k] < n)
    && (forall k1, k2 | 0 <= k1 < k2 < |idx| :: idx[k1] < idx[k2])
  }

  /** Appending a position past all others keeps them increasing. */
  lemma IncreasingSnoc(idx: seq<nat>, n: nat)
    requires IncreasingBelow(idx, n)
    ensures IncreasingBelow(idx + [n], n + 1)
  {
    var r := idx + [n];
    forall k1, k2 | 0 <= k1 < k2 < |r| ensures r[k1] < r[k2] {
      assert r[k1] == idx[k1];
    }
  }

  /** The positions strictly increase. */
  lemma {:induction false} PositionsIncrease(order: seq<Category>, has: Category -> bool)
    ensures IncreasingBelow(Positions(order, has), |order|)
    decreases |order|
  {
    if |order| > 0 {
      var n := |order| - 1;
      var front := Positions(order[..n], has);
      PositionsIncrease(order[..n], has);
      assert IncreasingBelow(front, n);
      if has(order[n]) {
        IncreasingSnoc(front, n);
      } else {
        assert Positions(order, has) == front;
      }
    }
  }

  /** Exactly the admitted categories appear. */
  lemma {:induction false} PresentMembers(order: seq<Category>, has: Category -> bool)
    ensures forall k | 0 <= k < |Present(order, has)| :: has(Present(order, has)[k])
    ensures forall c | c in order && has(c) :: c in Present(order, has)
    decreases |order|
  {
    if |order| > 0 {
      var n := |order| - 1;
      var prev := Present(order[..n], has);
      PresentMembers(order[..n], has);
      var r := Present(order, has);
      assert r == prev + (if has(order[n]) then [order[n]] else []);
      forall k | 0 <= k < |r| ensures has(r[k]) {
        if k < |prev| {
          assert r[k] == prev[k];
        }
      }
      forall c | c in order && has(c) ensures c in r {
        if c != order[n] {
          var j :| 0 <= j < |order| && order[j] == c;
          assert order[..n][j] == c;
          assert c in prev;
        }
      }
    }
  }

  /** An admitted first category comes first. */
  lemma {:induction false} PresentFirst(order: seq<Category>, has: Category -> bool)
    requires |order| > 0 && has(order[0])
    ensures |Present(order, has)| > 0 && Present(order, has)[0] == order[0]
    decreases |order|
  {
    var n := |order| - 1;
    if n > 0 {
      assert order[..n][0] == order[0];
      PresentFirst(order[..n], has);
    }
  }

  /** The sections of a page: one per category of the order that has
      declarations, with the entries that category lists. */
  function PageSections(order: seq<Category>, items: seq<Item>, le: (string, string) -> bool): (r: seq<Section>)
    ensures var cats := Present(order, HasSectionIn(items));
      |r| == |cats| && forall k | 0 <= k < |r| :: r[k] == Section(cats[k], Entries(cats[k], items, le))
  {
    Map(SectionOf(items, le), Present(order, HasSectionIn(items)))
  }

  function SectionOf(items: seq<Item>, le: (string, string) -> bool): Category -> Section {
    c => Section(c, Entries(c, items, le))
  }

  /** Every section is of a category with declarations and lists that
      category's entries. */
  lemma SectionsAdmitted(order: seq<Category>, items: seq<Item>, le: (string, string) -> bool)
    ensures var r := PageSections(order, items, le);
      forall k | 0 <= k < |r| :: HasSection(r[k].category, items) && r[k].entries == Entries(r[k].category, items, le)
  {
    var has := HasSectionIn(items);
    var cats := Present(order, has);
    var r := PageSections(order, items, le);
    PresentMembers(order, has);
    forall k | 0 <= k < |r| ensures HasSection(r[k].category, items) {
      assert has(cats[k]);
    }
  }

  /** Every category of the order with declarations has a section. */
  lemma SectionsComplete(order: seq<Category>, items: seq<Item>, le: (string, string) -> bool)
    ensures var r := PageSections(order, items, le);
      forall c | c in order && HasSection(c, items) :: exists k | 0 <= k < |r| :: r[k].category == c
  {
    var has := HasSectionIn(items);
    var cats := Present(order, has);
    var r := PageSections(order, items, le);
    PresentMembers(order, has);
    forall c | c in order && HasSection(c, items) ensures exists k | 0 <= k < |r| :: r[k].category == c {
      assert has(c);
      var k :| 0 <= k < |cats| && cats[k] == c;
      assert r[k].category == c;
    }
  }

  /** Section k sits at position idx[k] of the order, and the positions
      strictly increase. */
  lemma SectionsOrdered(order: seq<Category>, items: seq<Item>, le: (string, string) -> bool)
    ensures var r := PageSections(order, items, le);
      var idx := Positions(order, HasSectionIn(items));
      && |idx| == |r|
      && IncreasingBelow(idx, |order|)
      && (forall k | 0 <= k < |r| :: order[idx[k]] == r[k].category)
  {
    var has := HasSectionIn(items);
    PositionsPoint(order, has);
    PositionsIncrease(order, has);
  }

  /** The sections follow the category order, each category present exactly
      when it has declarations, with the entries that category lists. */
  lemma PageSectionsLayout(order: seq<Category>, items: seq<Item>, le: (string, string) -> bool)
    ensures var r := PageSections(order, items, le);
      var idx := Positions(order, HasSectionIn(items));
      && (forall k | 0 <= k < |r| :: HasSection(r[k].category, items) && r[k].entries == Entries(r[k].category, items, le))
      && (forall c | c in order && HasSection(c, items) :: exists k | 0 <= k < |r| :: r[k].category == c)
      && |idx| == |r|
      && IncreasingBelow(idx, |order|)
      && (forall k | 0 <= k < |r| :: order[idx[k]] == r[k].category)
  {
    SectionsAdmitted(order, items, le);
    SectionsComplete(order, items, le);
    SectionsOrdered(order, items, le);
  }

  /** The page after one more Write* call. */
  lemma PageSectionsSnoc(order: seq<Category>, c: Category, items: seq<Item>, le: (string, string) -> bool)
    ensures PageSections(order + [c], items, le) ==
              PageSections(order, items, le) + (if HasSection(c, items) then [Section(c, Entries(c, items, le))] else [])
  {
    var has := HasSectionIn(items);
    var o := order + [c];
    assert o[..|o| - 1] == order && o[|o| - 1] == c;
    var cats := Present(order, has);
    assert Present(o, has) == cats + (if has(c) then [c] else []);
    if has(c) {
      MapSnoc(SectionOf(items, le), cats, c);
    } else {
      assert Present(o, has) == cats;
    }
  }

  /** WriteModule and WriteDecl: each Write* call in turn appends its
      section when its category has declarations. */
  method WritePage(order: seq<Category>, items: seq<Item>, le: (string, string) -> bool) returns (sections: seq<Section>)
    ensures sections == PageSections(order, items, le)
  {
    sections := [];
    var i := 0;
    while i < |order|
      invariant 0 <= i <= |order|
      invariant sections == PageSections(order[..i], items, le)
    {
      var c := order[i];
      assert order[..i + 1] == order[..i] + [c];
      PageSectionsSnoc(order[..i], c, items, le);
      if |Keep(items, InCategory(c))| > 0 {
        sections := sections + [Section(c, Entries(c, items, le))];
      }
      i := i + 1;
    }
    assert order[..|order|] == order;
  }

  /** Every section's category comes from the order. */
  lemma SectionsFromOrder(order: seq<Category>, items: seq<Item>, le: (string, string) -> bool)
    ensures forall k | 0 <= k < |PageSections(order, items, le)| :: PageSections(order, items, le)[k].category in order
  {
    PageSectionsLayout(order, items, le);
  }

  /** A module page never lists constructors or mutable fields. */
  lemma ModulePageCategories(items: seq<Item>, le: (string, string) -> bool)
    ensures forall k | 0 <= k < |PageSections(ModulePageOrder, items, le)| ::
              PageSections(ModulePageOrder, items, le)[k].category != Constructors &&
              PageSections(ModulePageOrder, items, le)[k].category != MutableFields
  {
    var r := PageSections(ModulePageOrder, items, le);
    SectionsFromOrder(ModulePageOrder, items, le);
    assert forall k | 0 <= k < |r| :: r[k].category in ModulePageOrder;
  }

  /** A class or trait page lists only member categories; only a class page
      lists constructors, and before everything else. */
  lemma DeclPageCategories(isClass: bool, items: seq<Item>, le: (string, string) -> bool)
    ensures forall k | 0 <= k < |PageSections(DeclPageOrder(isClass), items, le)| ::
              PageSections(DeclPageOrder(isClass), items, le)[k].category in DeclPageOrder(isClass)
    ensures isClass && HasSection(Constructors, items) ==>
              |PageSections(DeclPageOrder(isClass), items, le)| > 0 && PageSections(DeclPageOrder(isClass), items, le)[0].category == Constructors
  {
    var order := DeclPageOrder(isClass);
    SectionsFromOrder(order, items, le);
    if isClass && HasSection(Constructors, items) {
      assert HasSectionIn(items)(order[0]);
      PresentFirst(order, HasSectionIn(items));
    }
  }
}
