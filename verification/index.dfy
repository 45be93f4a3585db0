/** The name index: every documented name is registered under a key
    "name ordinal owner", where the ordinal is the number of entries already
    present, and the value is the kind followed by the breadcrumbs of the
    name. The index page lists the entries in key order, each as a link built
    back from the key alone. */
module NameIndex {
  import opened Wrappers
  import opened Strings
  import opened Html
  import opened Names
  import opened Sorting

  /** The file name of the root module's page, and the name shown for it. */
  const RootName := "_"
  const RootDisplayName := " (root module)"

  /** The kind every export set is registered with. */
  const ExportSetKindName := "export set"

  /** One request for an index entry, one variant per registering routine. */
  datatype Registration =
      /** AddToIndexF: a name with a page of its own, `target` naming that page. */
    | PageEntry(name: string, target: string, kind: string)
      /** AddToIndex: an anchor `inpageId` on the page of `owner`. */
    | AnchorEntry(inpageId: string, owner: string, kind: string)
      /** AddToIndexC: as AnchorEntry, but shown with the text `text`. */
    | CtorEntry(inpageId: string, text: string, owner: string, kind: string)
      /** The entry WriteModule adds for the root module. */
    | RootEntry

  datatype Entry = Entry(key: string, value: string)

  /** The dictionary, as its entries in order of insertion. */
  type Index = seq<Entry>

  /** Adding an existing key to the dictionary throws. */
  datatype IndexError = DuplicateKey(key: string)

  function KeyName(r: Registration): string {
    match r
    case PageEntry(name, _, _) => name
    case AnchorEntry(id, _, _) => id
    case CtorEntry(id, _, _, _) => id
    case RootEntry => RootDisplayName
  }

  function KeyOwner(r: Registration): string {
    match r
    case PageEntry(_, target, _) => target
    case AnchorEntry(_, owner, _) => owner
    case CtorEntry(_, _, owner, _) => owner
    case RootEntry => RootName
  }

  function MakeKey(name: string, n: nat, owner: string): string {
    name + " " + NatToString(n) + " " + owner
  }

  /** The key of registration `r` when the index already holds `n` entries. */
  function EntryKey(r: Registration, n: nat): string {
    MakeKey(KeyName(r), n, KeyOwner(r))
  }

  /** The value: the kind, then the breadcrumbs of the page and, for an
      anchor, a link to it. */
  function EntryValue(r: Registration): string {
    match r
    case PageEntry(name, target, kind) => kind + " " + QualifiedName(target, None, name, true)
    case AnchorEntry(id, owner, kind) => kind + " " + QualifiedName(owner, Some(id), id, true)
    case CtorEntry(id, text, owner, kind) => kind + " " + QualifiedName(owner, Some(id), text, true)
    case RootEntry => "module " + PageLink(RootName, RootDisplayName)
  }

  function Keys(idx: Index): (r: seq<string>)
    ensures |r| == |idx| && forall i | 0 <= i < |idx| :: r[i] == idx[i].key
  {
    seq(|idx|, i requires 0 <= i < |idx| => idx[i].key)
  }

  /** nameIndex.Add(key, value) for registration `r`. */
  function Register(idx: Index, r: Registration): (res: Result<Index, IndexError>)
    ensures res.Failure? <==> exists i | 0 <= i < |idx| :: idx[i].key == EntryKey(r, |idx|)
    ensures res.Failure? ==> res.error == DuplicateKey(EntryKey(r, |idx|))
    ensures res.Success? ==> |res.value| == |idx| + 1 && res.value[..|idx|] == idx
    ensures res.Success? ==> res.value[|idx|] == Entry(EntryKey(r, |idx|), EntryValue(r))
  {
    var key := EntryKey(r, |idx|);
    if key in Keys(idx) then Failure(DuplicateKey(key))
    else Success(idx + [Entry(key, EntryValue(r))])
  }

  /** The registrations of a whole run, in order; the first failure ends it. */
  function RegisterAll(idx: Index, regs: seq<Registration>): Result<Index, IndexError>
    decreases |regs|
  {
    if |regs| == 0 then Success(idx)
    else match Register(idx, regs[0])
      case Failure(e) => Failure(e)
      case Success(next) => RegisterAll(next, regs[1..])
  }

  // ---- reading a key back ----

  /** The owner: the text after the last space (WriteIndex's `owner`). */
  function KeyOwnerPart(key: string): string {
    key[LastIndexOfChar(key, ' ') + 1..]
  }

  /** The name: the text before the first space (WriteIndex's `keyn`). */
  function KeyNamePart(key: string): string
    requires ' ' in key
  {
    key[..IndexOfChar(key, ' ')]
  }

  /** The ordinal: the digits between the last two spaces. */
  function KeyOrdinal(key: string): Option<nat> {
    var l1 := LastIndexOfChar(key, ' ');
    if l1 < 0 then None
    else
      var l2 := LastIndexOfChar(key[..l1], ' ');
      if l2 < 0 then None
      else
        var d := key[l2 + 1..l1];
        if |d| > 0 && IsDigits(d) then Some(ParseNat(d)) else None
  }

  /** Owners are full Dafny names, which hold no space. */
  predicate SpaceFreeOwner(r: Registration) {
    ' ' !in KeyOwner(r)
  }

  /** The key layout read back over any digit string `d`. */
  lemma {:induction false} KeyLayout(name: string, d: string, owner: string)
    requires |d| > 0 && IsDigits(d) && ' ' !in owner
    ensures var key := name + " " + d + " " + owner;
      && ' ' in key
      && KeyOwnerPart(key) == owner
      && KeyOrdinal(key) == Some(ParseNat(d))
  {
    var key := name + " " + d + " " + owner;
    var front := name + " " + d;
    assert key == front + [' '] + owner;
    LastIndexOfCharSplit(front, ' ', owner);
    assert ' ' !in d by {
      assert forall i | 0 <= i < |d| :: d[i] != ' ';
    }
    assert key[..|front|] == front;
    assert front == name + [' '] + d;
    LastIndexOfCharSplit(name, ' ', d);
    assert front[|name| + 1..] == d;
  }

  /** The ordinal and owner of a key read back when the owner has no space. */
  lemma KeyOrdinalOwner(name: string, n: nat, owner: string)
    requires ' ' !in owner
    ensures ' ' in MakeKey(name, n, owner)
    ensures KeyOwnerPart(MakeKey(name, n, owner)) == owner
    ensures KeyOrdinal(MakeKey(name, n, owner)) == Some(n)
  {
    ParseNatToString(n);
    KeyLayout(name, NatToString(n), owner);
  }

  /** The name of a key reads back when it has no space. */
  lemma KeyNameOf(name: string, n: nat, owner: string)
    requires ' ' !in name
    ensures ' ' in MakeKey(name, n, owner)
    ensures KeyNamePart(MakeKey(name, n, owner)) == name
  {
    var rest := NatToString(n) + " " + owner;
    assert MakeKey(name, n, owner) == name + [' '] + rest;
    IndexOfCharSplit(name, ' ', rest);
  }

  /** A key reads back to its ordinal and owner whenever the owner has no
      space, and to its name when the name has none either. */
  lemma KeyParts(name: string, n: nat, owner: string)
    requires ' ' !in owner
    ensures ' ' in MakeKey(name, n, owner)
    ensures KeyOwnerPart(MakeKey(name, n, owner)) == owner
    ensures KeyOrdinal(MakeKey(name, n, owner)) == Some(n)
    ensures ' ' !in name ==> KeyNamePart(MakeKey(name, n, owner)) == name
  {
    KeyOrdinalOwner(name, n, owner);
    if ' ' !in name {
      KeyNameOf(name, n, owner);
    }
  }

  /** Every entry carries its own position as the ordinal of its key. */
  ghost predicate WellFormed(idx: Index) {
    forall i | 0 <= i < |idx| :: KeyOrdinal(idx[i].key) == Some(i)
  }

  /** In a well-formed index a registration with a space-free owner never
      collides. */
  lemma RegisterSucceeds(idx: Index, r: Registration)
    requires WellFormed(idx) && SpaceFreeOwner(r)
    ensures Register(idx, r).Success?
  {
    var key := EntryKey(r, |idx|);
    KeyOrdinalOwner(KeyName(r), |idx|, KeyOwner(r));
    forall i | 0 <= i < |idx| ensures idx[i].key != key {
      assert KeyOrdinal(idx[i].key) == Some(i);
    }
  }

  /** Appending an entry whose key carries the next position keeps an index
      well formed. */
  lemma WellFormedSnoc(idx: Index, e: Entry)
    requires WellFormed(idx) && KeyOrdinal(e.key) == Some(|idx|)
    ensures WellFormed(idx + [e])
  {
    var next := idx + [e];
    forall i | 0 <= i < |next| ensures KeyOrdinal(next[i].key) == Some(i) {
      if i < |idx| {
        assert next[i] == idx[i];
      }
    }
  }

  /** ... and the index it leaves is well formed. */
  lemma RegisterFresh(idx: Index, r: Registration)
    requires WellFormed(idx) && SpaceFreeOwner(r)
    ensures Register(idx, r).Success?
    ensures WellFormed(Register(idx, r).value)
  {
    RegisterSucceeds(idx, r);
    var e := Entry(EntryKey(r, |idx|), EntryValue(r));
    KeyOrdinalOwner(KeyName(r), |idx|, KeyOwner(r));
    assert Register(idx, r).value == idx + [e];
    WellFormedSnoc(idx, e);
  }

  /** The rest of a run has space-free owners too. */
  lemma RestSpaceFree(regs: seq<Registration>)
    requires |regs| > 0 && forall i | 0 <= i < |regs| :: SpaceFreeOwner(regs[i])
    ensures forall i | 0 <= i < |regs| - 1 :: SpaceFreeOwner(regs[1..][i])
  {
    forall i | 0 <= i < |regs| - 1 ensures SpaceFreeOwner(regs[1..][i]) {
      assert regs[1..][i] == regs[i + 1];
    }
  }

  /** A run from a well-formed index succeeds, keeps what was there, adds one
      entry per registration and leaves the index well formed. */
  lemma {:induction false} RegisterAllShape(idx: Index, regs: seq<Registration>)
    requires WellFormed(idx)
    requires forall i | 0 <= i < |regs| :: SpaceFreeOwner(regs[i])
    ensures RegisterAll(idx, regs).Success?
    ensures |RegisterAll(idx, regs).value| == |idx| + |regs|
    ensures RegisterAll(idx, regs).value[..|idx|] == idx
    ensures WellFormed(RegisterAll(idx, regs).value)
    decreases |regs|
  {
    if |regs| > 0 {
      RegisterFresh(idx, regs[0]);
      var next := Register(idx, regs[0]).value;
      RestSpaceFree(regs);
      RegisterAllShape(next, regs[1..]);
      var out := RegisterAll(next, regs[1..]).value;
      assert RegisterAll(idx, regs) == RegisterAll(next, regs[1..]);
      assert out[..|idx|] == out[..|next|][..|idx|];
    }
  }

  /** The entries a run appends, the first of them at position n. */
  function NewEntries(regs: seq<Registration>, n: nat): (r: seq<Entry>)
    ensures |r| == |regs|
    decreases |regs|
  {
    if |regs| == 0 then []
    else [Entry(EntryKey(regs[0], n), EntryValue(regs[0]))] + NewEntries(regs[1..], n + 1)
  }

  /** The i-th appended entry is keyed by its position n + i. */
  lemma {:induction false} NewEntriesAt(regs: seq<Registration>, n: nat, i: nat)
    requires i < |regs|
    ensures NewEntries(regs, n)[i] == Entry(EntryKey(regs[i], n + i), EntryValue(regs[i]))
    decreases i
  {
    if i > 0 {
      NewEntriesAt(regs[1..], n + 1, i - 1);
      assert regs[1..][i - 1] == regs[i];
    }
  }

  /** A run that succeeds appends exactly its new entries. */
  lemma {:induction false} RegisterAllEntries(idx: Index, regs: seq<Registration>)
    requires RegisterAll(idx, regs).Success?
    ensures RegisterAll(idx, regs).value == idx + NewEntries(regs, |idx|)
    decreases |regs|
  {
    if |regs| == 0 {
      ConcatEmpty(idx);
    } else {
      var e := Entry(EntryKey(regs[0], |idx|), EntryValue(regs[0]));
      var next := Register(idx, regs[0]).value;
      assert next == idx + [e];
      assert RegisterAll(idx, regs) == RegisterAll(next, regs[1..]);
      RegisterAllEntries(next, regs[1..]);
      ConcatAssoc(idx, [e], NewEntries(regs[1..], |idx| + 1));
    }
  }

  /** In a well-formed index all keys are distinct. */
  lemma WellFormedDistinct(idx: Index)
    requires WellFormed(idx)
    ensures forall i, j | 0 <= i < j < |idx| :: idx[i].key != idx[j].key
  {
    forall i, j | 0 <= i < j < |idx| ensures idx[i].key != idx[j].key {
      assert KeyOrdinal(idx[i].key) == Some(i) && KeyOrdinal(idx[j].key) == Some(j);
    }
  }

  /** Starting from a well-formed index (the empty one, say), a run whose
      owners have no spaces never throws: it appends one entry per
      registration, the i-th carrying ordinal i, so all keys are distinct. */
  lemma RegisterAllSucceeds(idx: Index, regs: seq<Registration>)
    requires WellFormed(idx)
    requires forall i | 0 <= i < |regs| :: SpaceFreeOwner(regs[i])
    ensures RegisterAll(idx, regs).Success?
    ensures var out := RegisterAll(idx, regs).value;
      && |out| == |idx| + |regs|
      && out[..|idx|] == idx
      && WellFormed(out)
      && (forall i | 0 <= i < |regs| :: out[|idx| + i] == Entry(EntryKey(regs[i], |idx| + i), EntryValue(regs[i])))
      && (forall i, j | 0 <= i < j < |out| :: out[i].key != out[j].key)
  {
    RegisterAllShape(idx, regs);
    RegisterAllEntries(idx, regs);
    var out := RegisterAll(idx, regs).value;
    var added := NewEntries(regs, |idx|);
    forall i | 0 <= i < |regs|
      ensures out[|idx| + i] == Entry(EntryKey(regs[i], |idx| + i), EntryValue(regs[i]))
    {
      NewEntriesAt(regs, |idx|, i);
      assert out[|idx| + i] == added[i];
    }
    WellFormedDistinct(out);
  }

  // ---- the index page ----

  /** The link at the head of an index line: built from the key's name and
      owner; to the owner's page when the value holds no '#', to the
      export-set anchor when the value starts with "export", and to the
      name's anchor otherwise. */
  function IndexLink(e: Entry): string
    requires ' ' in e.key
  {
    var keyn := KeyNamePart(e.key);
    var owner := KeyOwnerPart(e.key);
    if IndexOfChar(e.value, '#') == -1 then HrefLink(owner + ".html", keyn)
    else if StartsWith(e.value, "export") then HrefLink(owner + ".html#" + ExportSetAnchor(keyn), keyn)
    else HrefLink(owner + ".html#" + keyn, keyn)
  }

  /** One line of the index page. */
  function IndexLine(e: Entry): string
    requires ' ' in e.key
  {
    IndexLink(e) + Mdash + e.value + br + eol
  }

  /** The body of the index page: the entries sorted by key, one line each. */
  function IndexLines(idx: Index, le: (string, string) -> bool): (r: seq<string>)
    requires forall i | 0 <= i < |idx| :: ' ' in idx[i].key
    ensures |r| == |idx|
    ensures var sorted := SortOn(idx, (e: Entry) => e.key, le);
      forall i | 0 <= i < |r| :: ' ' in sorted[i].key && r[i] == IndexLine(sorted[i])
  {
    var sorted := SortOn(idx, (e: Entry) => e.key, le);
    assert forall i | 0 <= i < |sorted| :: ' ' in sorted[i].key by {
      forall i | 0 <= i < |sorted| ensures ' ' in sorted[i].key {
        assert sorted[i] in multiset(sorted);
        var j :| 0 <= j < |idx| && idx[j] == sorted[i];
      }
    }
    seq(|sorted|, i requires 0 <= i < |sorted| => IndexLine(sorted[i]))
  }

  /** Every entry appears on the index page exactly once per registration,
      and, under a total preorder, in key order. */
  lemma IndexLinesOrdered(idx: Index, le: (string, string) -> bool)
    requires TotalPreorder(le)
    ensures var sorted := SortOn(idx, (e: Entry) => e.key, le);
      && multiset(sorted) == multiset(idx)
      && forall i, j | 0 <= i < j < |sorted| :: le(sorted[i].key, sorted[j].key)
  {
    SortOnSorted(idx, (e: Entry) => e.key, le);
  }

  /** "Not a proper prefix of "export"": true of every kind name the
      generator uses; it makes "the value starts with export" mean "the kind
      starts with export". */
  predicate KindIsWord(kind: string) {
    |kind| >= 6 || !StartsWith("export", kind)
  }

  lemma ExportPrefix(kind: string, rest: string)
    requires KindIsWord(kind)
    ensures StartsWith(kind + rest, "export") <==> StartsWith(kind, "export")
  {
    if |kind| >= 6 {
      assert (kind + rest)[..6] == kind[..6];
    } else {
      var j :| 0 <= j < |kind| && kind[j] != "export"[j];
      assert (kind + rest)[j] == kind[j];
    }
  }

  /** Where an index entry's link should lead: a page entry to its page, the
      root entry to the root page, an export set to its '+'-mangled anchor,
      any other anchor to itself on its owner's page. */
  function Destination(r: Registration): string {
    match r
    case PageEntry(_, target, _) => target + ".html"
    case RootEntry => RootName + ".html"
    case AnchorEntry(id, owner, kind) =>
      owner + ".html#" + (if StartsWith(kind, "export") then ExportSetAnchor(id) else id)
    case CtorEntry(id, _, owner, kind) =>
      owner + ".html#" + (if StartsWith(kind, "export") then ExportSetAnchor(id) else id)
  }

  /** The text an entry's link shows: its key name, except for the root,
      whose key starts with a space, so the link text is empty. */
  function LinkText(r: Registration): string {
    if r.RootEntry? then "" else KeyName(r)
  }

  /** What a registration needs for its index link to be read back: names
      without spaces, quotes or '#', and a kind that is a word. */
  predicate Admissible(r: Registration) {
    match r
    case PageEntry(name, target, kind) =>
      ' ' !in target + name && '"' !in target + name && '#' !in target + kind && KindIsWord(kind)
    case AnchorEntry(id, owner, kind) =>
      ' ' !in owner + id && '"' !in owner + id && KindIsWord(kind)
    case CtorEntry(id, _, owner, kind) =>
      ' ' !in owner + id && '"' !in owner + id && KindIsWord(kind)
    case RootEntry => true
  }

  /** The three targets of IndexLink, read from the key's name and owner. */
  lemma IndexLinkOf(key: string, value: string, name: string, owner: string)
    requires ' ' in key && KeyNamePart(key) == name && KeyOwnerPart(key) == owner
    requires '"' !in owner + name
    ensures '#' !in value ==>
              ParseHrefLink(IndexLink(Entry(key, value))) == Some((owner + ".html", name))
    ensures '#' in value && StartsWith(value, "export") ==>
              ParseHrefLink(IndexLink(Entry(key, value))) == Some((owner + ".html#" + ExportSetAnchor(name), name))
    ensures '#' in value && !StartsWith(value, "export") ==>
              ParseHrefLink(IndexLink(Entry(key, value))) == Some((owner + ".html#" + name, name))
  {
    assert '"' !in ExportSetAnchor(name) by {
      assert ExportSetAnchor(name) == name + "+";
    }
  }

  /** The breadcrumbs of an anchor carry a '#'. */
  lemma AnchorEntryParts(id: string, text: string, owner: string)
    ensures '#' in QualifiedName(owner, Some(id), text, true)
  {
    var link := PageAnchorLink(owner, id, text);
    assert link == LinkOpen + (owner + ".html#" + id) + "\">" + text + LinkClose;
    assert '#' in owner + ".html#" + id by {
      assert (owner + ".html#" + id)[|owner| + 5] == '#';
    }
  }

  /** The link of an entry whose value is a kind, a space and text with a '#'. */
  lemma AnchoredValueLink(id: string, owner: string, kind: string, q: string, n: nat)
    requires ' ' !in owner + id && '"' !in owner + id && KindIsWord(kind) && '#' in q
    ensures ' ' in MakeKey(id, n, owner)
    ensures ParseHrefLink(IndexLink(Entry(MakeKey(id, n, owner), kind + " " + q))) ==
              Some((owner + ".html#" + (if StartsWith(kind, "export") then ExportSetAnchor(id) else id), id))
  {
    KeyParts(id, n, owner);
    assert kind + " " + q == kind + (" " + q);
    ExportPrefix(kind, " " + q);
    IndexLinkOf(MakeKey(id, n, owner), kind + " " + q, id, owner);
  }

  /** The link of an anchor entry. */
  lemma AnchorLinkLeadsHome(id: string, text: string, owner: string, kind: string, n: nat)
    requires ' ' !in owner + id && '"' !in owner + id && KindIsWord(kind)
    ensures var e := Entry(MakeKey(id, n, owner), kind + " " + QualifiedName(owner, Some(id), text, true));
      && ' ' in e.key
      && ParseHrefLink(IndexLink(e)) ==
           Some((owner + ".html#" + (if StartsWith(kind, "export") then ExportSetAnchor(id) else id), id))
  {
    AnchorEntryParts(id, text, owner);
    AnchoredValueLink(id, owner, kind, QualifiedName(owner, Some(id), text, true), n);
  }

  /** The link of a page entry. */
  lemma PageLinkLeadsHome(name: string, target: string, kind: string, n: nat)
    requires ' ' !in target + name && '"' !in target + name && '#' !in target + kind
    ensures var e := Entry(MakeKey(name, n, target), kind + " " + QualifiedName(target, None, name, true));
      && ' ' in e.key
      && ParseHrefLink(IndexLink(e)) == Some((target + ".html", name))
  {
    KeyParts(name, n, target);
    LinkMarkupPlain();
    QualifiedNameAvoids(target, name, true, '#');
    assert '#' !in " ";
    IndexLinkOf(MakeKey(name, n, target), kind + " " + QualifiedName(target, None, name, true), name, target);
  }

  /** The link of the root entry: to the root page, with empty text. */
  lemma RootLinkLeadsHome(n: nat)
    ensures var e := Entry(MakeKey(RootDisplayName, n, RootName), "module " + PageLink(RootName, RootDisplayName));
      && ' ' in e.key
      && ParseHrefLink(IndexLink(e)) == Some((RootName + ".html", ""))
  {
    var key := MakeKey(RootDisplayName, n, RootName);
    KeyParts(RootDisplayName, n, RootName);
    assert key[0] == ' ';
    assert KeyNamePart(key) == "";
    LinkMarkupPlain();
    assert '#' !in RootName + ".html";
    assert '#' !in RootDisplayName;
    HrefLinkAvoids(RootName + ".html", RootDisplayName, '#');
    assert '#' !in "module ";
    IndexLinkOf(key, "module " + PageLink(RootName, RootDisplayName), "", RootName);
  }

  /** The index line built from a registration's key and value links to the
      registration's destination, showing its name: the decoding of the key
      agrees with what was registered. */
  lemma IndexLinkLeadsHome(r: Registration, n: nat)
    requires Admissible(r)
    ensures ' ' in EntryKey(r, n)
    ensures ParseHrefLink(IndexLink(Entry(EntryKey(r, n), EntryValue(r)))) == Some((Destination(r), LinkText(r)))
  {
    match r {
      case RootEntry => RootLinkLeadsHome(n);
      case PageEntry(name, target, kind) => PageLinkLeadsHome(name, target, kind, n);
      case AnchorEntry(id, owner, kind) => AnchorLinkLeadsHome(id, id, owner, kind, n);
      case CtorEntry(id, text, owner, kind) => AnchorLinkLeadsHome(id, text, owner, kind, n);
    }
  }
}
