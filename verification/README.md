# dafnydoc naming, linking and index logic in Dafny

This project models the core of `dafny doc`, the HTML documentation generator
of the Dafny toolchain: `Source/DafnyDriver/DafnyDoc.cs` and the markup
builders of `Source/DafnyDriver/DafnyDocHtml.cs`. The model covers how the
generator:

- shortens documentation comments and adds "(more...)" links;
- builds breadcrumb links for qualified names, export-set anchors and the
  links of imported names;
- registers every documented name in the global name index under a key
  "name ordinal owner", and decodes the sorted keys into links on the index
  page;
- nests the table of contents by the number of '.' in a module's name;
- renders attributes, modifiers, type-parameter lists and specification
  clauses;
- names constructors and builds the summary line and detail block of each
  member;
- finds the traits a class extends transitively;
- lays out the fixed order of categories on module and class/trait pages.

Each markup builder puts its argument verbatim between fixed texts. So each
one has a decoder (`Html.Unwrap`, `Html.ParseHrefLink`, `Html.AnchorId`,
`Html.ParseCells`), and the contracts state the round trip rather than the
concatenation. Every link the generator writes, whether in a breadcrumb, the
index, a summary or a "(more...)" link, is stated through what
`ParseHrefLink` reads back from it: its target and its text.

Modules:

- `Strings`: the .NET string operations used, as ordinal operations on
  `seq<char>`: IndexOf, LastIndexOf, Split, Join, Trim, ReplaceFirst, and the
  decimal text of a number.
- `Sorting`: `List.Sort` with `CompareTo`. The comparison is a parameter `le`,
  and the sorting properties hold whenever `le` is a total preorder.
- `Html`: the markup builders and their decoders.
- `Docstrings`: `Docstring`, `Shorten`, `ShortAndMore`, `ShortAndMoreForDecl`,
  `DashShortDocstring`, `DashShortDocstringNoMore` and `Indented`.
- `Names`: `QualifiedNameWithLinks`, `ExportSetAnchor`, `HasOwnPage`, the
  type-summary link and the imported-name link.
- `NameIndex`: `AddToIndexF`, `AddToIndex`, `AddToIndexC`, the root entry
  and `WriteIndex`. The dictionary is a sequence of entries in insertion order.
- `Toc`: `WriteTOC`.
- `Render`: `Attributes`, `Modifiers`, `TypeFormals`, `TypeActualParameters`
  and `AppendSpecs`.
- `Members`: `MethodSig`, constructor naming, and `WriteMethodsList`.
- `Traits`: the transitive parent-trait worklist of `WriteDecl`.
- `Pages`: the category order of `WriteModule` and `WriteDecl`, and the
  selection and ordering of each category's entries.

## Model

| member | source | states |
|---|---|---|
| `Docstrings.Docstring` | Source/DafnyDriver/DafnyDoc.cs:917-926 | A missing comment gives ""; otherwise the result is the trimmed comment, with no white space at either end. |
| `Docstrings.Shorten` | Source/DafnyDriver/DafnyDoc.cs:954-964 | The result is a prefix of the text. It equals the text exactly when ". " does not occur. Otherwise it ends at the '.' of the first ". ", and no earlier ". " exists. |
| `Docstrings.ShortenIdempotent` | Source/DafnyDriver/DafnyDoc.cs:954-964 | Shortening already-shortened text changes nothing. |
| `Docstrings.SummaryText` | Source/DafnyDriver/DafnyDoc.cs:980-991 | Empty text gives "". Text without a sentence end is returned whole. Otherwise the result is the text up to the first sentence's '.', then the "(more...)" link to the target. |
| `Docstrings.ShortAndMoreForDecl` | Source/DafnyDriver/DafnyDoc.cs:967-978 | The page-level summary is ShortAndMore with the target fixed to the "decl-detail" anchor of the same page. |
| `Docstrings.DashShortDocstring` | Source/DafnyDriver/DafnyDoc.cs:935-941 | Empty exactly when there is no documentation; otherwise an em dash followed by the summary with its "(more...)" link to the declaration's name. |
| `Docstrings.DashShortDocstringNoMore` | Source/DafnyDriver/DafnyDoc.cs:944-950 | Empty exactly when there is no documentation; otherwise an em dash and the shortened text. When the text has no sentence end, it coincides with DashShortDocstring. |
| `Docstrings.Indented` | Source/DafnyDriver/DafnyDoc.cs:777-789 | Non-empty text reads back from the indented paragraph. Without text the result is empty exactly when `nothingIfNull` holds (a line break otherwise). |
| `Html.HrefLink` | Source/DafnyDriver/DafnyDocHtml.cs:52-62 | Every hyperlink reads back as its target and text, provided the target has no quote. |
| `Html.PageLink` | Source/DafnyDriver/DafnyDocHtml.cs:52-54 | The two-argument Link targets `fullName.html`, with no fragment. |
| `Html.PageAnchorLink` | Source/DafnyDriver/DafnyDoc.cs:1044-1046 | The three-argument Link targets `fullName.html#inpage`. |
| `Html.LinkToAnchor` | Source/DafnyDriver/DafnyDocHtml.cs:143-145 | The link targets `#name`. |
| `Html.Link` | Source/DafnyDriver/DafnyDocHtml.cs:56-62 | With no page, the link is LinkToAnchor of the anchor; with a page, it is the page-and-anchor link. |
| `Html.Anchor` | Source/DafnyDriver/DafnyDocHtml.cs:139-141 | The anchor declares exactly the identifier `name`. |
| `Html.AnchorLinkAgree` | Source/DafnyDriver/DafnyDocHtml.cs:139-145 | For every quote-free name, the link to an anchor targets '#' followed by exactly the identifier the anchor declares. |
| `Html.Heading1` | Source/DafnyDriver/DafnyDocHtml.cs:64-66 | The argument reads back verbatim from between the fixed prefix and suffix. |
| `Html.Heading2` | Source/DafnyDriver/DafnyDocHtml.cs:68-70 | The argument reads back verbatim from between the fixed prefix and suffix. |
| `Html.Heading3` | Source/DafnyDriver/DafnyDocHtml.cs:72-74 | The argument reads back verbatim from between the fixed prefix and suffix. |
| `Html.Smaller` | Source/DafnyDriver/DafnyDocHtml.cs:77-79 | The argument reads back verbatim from the font element. |
| `Html.Bold` | Source/DafnyDriver/DafnyDocHtml.cs:80-82 | The argument reads back verbatim from `<b>…</b>`. |
| `Html.Italics` | Source/DafnyDriver/DafnyDocHtml.cs:84-86 | The argument reads back verbatim from `<i>…</i>`. |
| `Html.Code` | Source/DafnyDriver/DafnyDocHtml.cs:88-90 | The argument reads back verbatim from the code span. |
| `Html.Keyword` | Source/DafnyDriver/DafnyDocHtml.cs:91-93 | A keyword is exactly its bold form. |
| `Html.ListItem` | Source/DafnyDriver/DafnyDocHtml.cs:131-133 | The argument reads back verbatim from `<li>…</li>`. |
| `Html.Indent` | Source/DafnyDriver/DafnyDocHtml.cs:48-50 | The argument reads back verbatim from the indented paragraph. |
| `Html.RuleWithText` | Source/DafnyDriver/DafnyDocHtml.cs:147-149 | The argument reads back verbatim from the rule. |
| `Html.Row` | Source/DafnyDriver/DafnyDocHtml.cs:99-121 | A row is always one `<tr>` element. When no cell holds `</td>`, the cells read back from it exactly as given, in order. |
| `Html.ParseCellsRoundTrip` | Source/DafnyDriver/DafnyDocHtml.cs:103-121 | Cells that hold no `</td>` are read back exactly, one per `<td>`, in order. |
| `Names.Breadcrumbs` | Source/DafnyDriver/DafnyDoc.cs:1021-1033 | The loop's running prefix name and output always equal the joins of the first i segments and breadcrumbs, so the output is the breadcrumbs joined by '.'. |
| `Names.QualifiedNameWithLinks` | Source/DafnyDriver/DafnyDoc.cs:1020-1038 | The output is the breadcrumbs of the '.'-split name, followed by ".", and the link to `fullName.html#inpage` when an anchor is given. |
| `Names.QualifiedNameSegments` | Source/DafnyDriver/DafnyDoc.cs:1020-1033 | The segments rejoin to the name. Breadcrumb i shows segment i and links to `prefix.html`, where the prefix is the first i+1 segments. Only the last breadcrumb may be unlinked, and it is unlinked exactly when `alsoLast` is false. |
| `Names.QualifiedNameAvoids` | Source/DafnyDriver/DafnyDoc.cs:1020-1038 | Without an anchor, the breadcrumbs add no character beyond the name and the link markup; in particular they hold no '#'. |
| `Names.QualifiedNameWithLinksAsWritten` | Source/DafnyDriver/DafnyDoc.cs:1010-1018 | The one-argument form throws exactly when the name holds a '#' and does not start with one. |
| `Names.AnchoredReferenceCrashes` | Source/DafnyDriver/DafnyDoc.cs:1011-1015 | The reference "M.C#f" makes the one-argument form throw. |
| `Names.QualifiedNameOfReferenceSplits` | Source/DafnyDriver/DafnyDoc.cs:1010-1018 | Corrected form: "page#anchor" renders as the breadcrumbs of the page plus a link to that anchor. A name without '#' renders as the code renders it. |
| `Names.ExportSetAnchor` | Source/DafnyDriver/DafnyDoc.cs:441-443 | The anchor is the name followed by one '+'. |
| `Names.ExportSetAnchorsDistinct` | Source/DafnyDriver/DafnyDoc.cs:438-443 | Distinct export sets get distinct anchors. No export-set anchor equals the name of a member without '+'. |
| `Names.TypeSummaryLink` | Source/DafnyDriver/DafnyDoc.cs:533-537 | The link goes to the type's own page exactly when HasOwnPage holds (a class or trait, or a declaration with members that has at least one member). Otherwise it goes to the type's anchor; the bold name is the text either way. |
| `Names.HasOwnPage` | Source/DafnyDriver/DafnyDoc.cs:912-914 | Modules never have their own page; classes and traits always do. Datatypes, newtypes and opaque types have one exactly when they have members. Only declarations with members can have one. |
| `Names.ImportedNameLink` | Source/DafnyDriver/DafnyDoc.cs:469-482 | The link always shows the simple name. A declaration for which HasOwnPage holds, or whose full name has no '.', links to `fullName.html#name`. A declaration `owner.name` without its own page links to `owner.html#name`. |
| `Names.ImportedNameOwner` | Source/DafnyDriver/DafnyDoc.cs:474-480 | The last '.' of `owner.name`, where `name` has no '.', sits right after `owner`. |
| `NameIndex.Register` | Source/DafnyDriver/DafnyDoc.cs:1138-1149 | Dictionary.Add fails exactly when the key is already present. Otherwise it appends one entry: the key "name count owner" with the registration's value. |
| `NameIndex.KeyParts` | Source/DafnyDriver/DafnyDoc.cs:1163-1168 | When the owner has no space, the key reads back as that owner (after the last space) and that ordinal. When the name has no space too, the text before the first space is that name. |
| `NameIndex.RegisterFresh` | Source/DafnyDriver/DafnyDoc.cs:1138-1149 | In an index whose keys carry their own positions, registering an owner without spaces never throws, and the index keeps that shape. |
| `NameIndex.RegisterAllEntries` | Source/DafnyDriver/DafnyDoc.cs:1138-1149 | A successful run of registrations appends exactly one entry per registration, in order, after what was there. |
| `NameIndex.WellFormedDistinct` | Source/DafnyDriver/DafnyDoc.cs:1139-1148 | Keys that carry their own positions as ordinals are pairwise distinct. |
| `NameIndex.RegisterAllSucceeds` | Source/DafnyDriver/DafnyDoc.cs:1137-1149 | From the empty index (or any well-formed one), registrations with space-free owners never throw. Each adds exactly one entry, even for a repeated name and owner. Entry i is keyed with ordinal i, and all keys are distinct. |
| `NameIndex.IndexLinesOrdered` | Source/DafnyDriver/DafnyDoc.cs:1152-1153 | The index page lists every entry once per occurrence (a permutation), in key order. |
| `NameIndex.IndexLines` | Source/DafnyDriver/DafnyDoc.cs:1152-1179 | The page has exactly one line per entry. Line i is the decoded link, the dash and the value of the i-th entry in key order. |
| `NameIndex.IndexLinkOf` | Source/DafnyDriver/DafnyDoc.cs:1163-1177 | The decoded link has no fragment when the value has no '#'. It goes to the export-set anchor `name+` when the value starts with "export", and to `#name` otherwise. |
| `NameIndex.PageLinkLeadsHome` | Source/DafnyDriver/DafnyDoc.cs:1138-1140 | An AddToIndexF entry links to its target's page, with no fragment, showing its name. |
| `NameIndex.AnchorLinkLeadsHome` | Source/DafnyDriver/DafnyDoc.cs:1143-1149 | An AddToIndex or AddToIndexC entry links to its anchor on the owner's page, or to the '+' anchor for export sets, showing the anchor name. |
| `NameIndex.RootLinkLeadsHome` | Source/DafnyDriver/DafnyDoc.cs:185 | The root entry links to `_.html`. Its key starts with a space, so the link text is empty. |
| `NameIndex.IndexLinkLeadsHome` | Source/DafnyDriver/DafnyDoc.cs:1163-1177 | For every admissible registration, the line built from its key and value links to where it was registered for, showing its name. |
| `Strings.ReplaceFirst` | Source/DafnyDriver/DafnyDoc.cs:1265-1273 | Without an occurrence the text is unchanged. Otherwise the length changes by the difference of the two values. |
| `Strings.ReplaceFirstAt` | Source/DafnyDriver/DafnyDoc.cs:1265-1273 | When the first occurrence follows `p`, exactly that occurrence is swapped and the rest is kept. |
| `Strings.TrimIdempotent` | Source/DafnyDriver/DafnyDoc.cs:925 | Trimming trimmed text changes nothing. |
| `Strings.ParseNatToString` | Source/DafnyDriver/DafnyDoc.cs:1139 | The decimal text of the entry count reads back as that count. |
| `Strings.SplitJoin` | Source/DafnyDriver/DafnyDoc.cs:1021 | Pieces without the separator, joined and split again, come back unchanged. |
| `Strings.NatToStringInjective` | Source/DafnyDriver/DafnyDoc.cs:1139 | Distinct entry counts give distinct ordinal texts. |
| `Strings.Trim` | Source/DafnyDriver/DafnyDoc.cs:925 | The result is a contiguous slice of the input. Everything cut off before and after it is white space, and it has no white space at either end. |
| `Sorting.SortOnSorted` | Source/DafnyDriver/DafnyDoc.cs:601 | Under a total preorder, the sorted list is ordered by the key. |
| `Sorting.SortOn` | Source/DafnyDriver/DafnyDoc.cs:640 | Sorting yields a permutation of the input. |
| `Members.MethodSig` | Source/DafnyDriver/DafnyDoc.cs:698-714 | A signature opens with the bold name, the type formals and "(". A function's signature ends with "): " and its result type. A method's ends with " returns (outs)" when it has outs, and with "(ins)" when it has none. |
| `Members.DisplayNamesDistinct` | Source/DafnyDriver/DafnyDoc.cs:728-739 | A member that is not a constructor keeps its name. Two constructors with different names get different display names ("C" for `_ctor`, "C.m" for `m`). |
| `Members.SigReplaceAgrees` | Source/DafnyDriver/DafnyDoc.cs:741-742 | For a name that is not "b" and has no angle brackets, the code's ReplaceFirst replaces the bold name, as the corrected form does. |
| `Members.MemberNamedBMangled` | Source/DafnyDriver/DafnyDoc.cs:742 | For a member named "b", ReplaceFirst replaces the "b" of the "<b>" tag. With a link starting with '<', the line starts with "<" followed by the link, and it differs from the corrected form. |
| `Members.SigWith` | Source/DafnyDriver/DafnyDoc.cs:756-757 | The signature with the name replaced starts with the bold replacement. Everything after it is the original signature's text after the bold name, unchanged. |
| `Members.DocPart` | Source/DafnyDriver/DafnyDoc.cs:745-747 | The summary tail is empty exactly when the member has no documentation. Otherwise it is four spaces and the dashed first sentence with its "(more...)" link to the target. |
| `Members.SummaryAgrees` | Source/DafnyDriver/DafnyDoc.cs:741-748 | For a non-constructor with a safe name, the code's summary line equals the corrected one. |
| `Members.SummaryAsWritten` | Source/DafnyDriver/DafnyDoc.cs:741-748 | For a safe name, the code's summary line opens with the bold link to the member's details. For a member named "b", it opens with "<" followed by that link instead. |
| `Members.DetailsAgrees` | Source/DafnyDriver/DafnyDoc.cs:750-763 | For a safe name, constructors included, the code's detail block equals the corrected one. |
| `Members.CtorMoreLinkMissesAnchor` | Source/DafnyDriver/DafnyDoc.cs:745-750 | For a constructor with more than one sentence of documentation, the "(more...)" link goes to the constructor's own name. That name differs from the display name its details are anchored at. |
| `Members.MoreLinkReachesAnchor` | Source/DafnyDriver/DafnyDoc.cs:745-750 | In the corrected summary, the "(more...)" link targets '#' followed by exactly the identifier the member's anchor declares. |
| `Members.DetailsAnchored` | Source/DafnyDriver/DafnyDoc.cs:750-763 | A detail block, as the code writes it and as corrected, opens with the anchor of the member's display name. |
| `Members.MemberLinkTarget` | Source/DafnyDriver/DafnyDoc.cs:729-739 | A member's index entry decodes to a link to `owner.html#displayName`, showing the display name. |
| `Members.IndexReachesMember` | Source/DafnyDriver/DafnyDoc.cs:729-750 | The index link of a member leads to the anchor that the code's detail block declares, on its owner's page. |
| `Members.WriteMethodsList` | Source/DafnyDriver/DafnyDoc.cs:721-765 | Each member, in list order, contributes one index registration, the code's summary line and the code's detail block. The summary and detail signatures use ReplaceFirst, and the "(more...)" link goes to the member's own name. The builders accumulate these pieces in that order. |
| `Toc.TocItem` | Source/DafnyDriver/DafnyDoc.cs:862-867 | Each module is one `<li>Module …</li>` line. Inside it, a link reads back as the module's page and full name (for the root: `_.html` and " (root module)"). The rest of the line is exactly the dashed first sentence of its documentation. |
| `Toc.MoveToLevel` | Source/DafnyDriver/DafnyDoc.cs:854-861 | The inner loops append the tags that lead from the current indent to the level, and leave the indent at the level. |
| `Toc.TagsDepth` | Source/DafnyDriver/DafnyDoc.cs:854-861 | The tags change the list depth by exactly the difference of the levels. |
| `Toc.WriteList` | Source/DafnyDriver/DafnyDoc.cs:849-869 | The loop writes one opening tag, then for each module the tags to its level and its item, then one closing tag. |
| `Toc.WriteToc` | Source/DafnyDriver/DafnyDoc.cs:836-869 | The modules are sorted by full name and written as WriteList writes them. |
| `Toc.ItemPosition` | Source/DafnyDriver/DafnyDoc.cs:850-866 | Each module's item follows exactly the tags from the previous level to its own. It is written at depth 1 + the number of '.' in its name. |
| `Toc.TocLinesUnbalanced` | Source/DafnyDriver/DafnyDoc.cs:849-869 | As written, the page leaves open as many lists as the last module has '.'. |
| `Toc.NestedLastModuleLeavesListOpen` | Source/DafnyDriver/DafnyDoc.cs:869 | With modules A and A.B, one list is left open. |
| `Toc.TocLinesClosedBalanced` | Source/DafnyDriver/DafnyDoc.cs:849-869 | Corrected form: closing every list after the last item balances the page, and every line before that point is unchanged. |
| `Render.RenderAttributes` | Source/DafnyDriver/DafnyDoc.cs:1107-1119 | The rendering is empty exactly when there are no attributes. |
| `Render.AttributesOldestFirst` | Source/DafnyDriver/DafnyDoc.cs:1107-1119 | The rendering is the blocks "{:name}" or "{:name a, b}" of the chain, oldest first. |
| `Render.OneBlockPerAttribute` | Source/DafnyDriver/DafnyDoc.cs:1107-1119 | When names and arguments bring no '{' of their own, there is exactly one '{' per attribute. |
| `Render.Modifiers` | Source/DafnyDriver/DafnyDoc.cs:1092-1105 | The text is empty exactly when no flag is set. Reading it back word by word recovers the ghost, static and opaque flags, in that order. |
| `Render.ModifiersParse` | Source/DafnyDriver/DafnyDoc.cs:1092-1105 | Each optional word, present or not, reads back in the fixed order. |
| `Render.TypeParameterList` | Source/DafnyDriver/DafnyDoc.cs:1121-1129 | No parameters give "". Otherwise the parameters joined by ',' sit between the escaped angle brackets, and they split back exactly when none holds a ','. |
| `Render.TypeFormals` | Source/DafnyDriver/DafnyDoc.cs:1121-1124 | The type formals are the shared parameter-list shape of their names. |
| `Render.TypeActualParameters` | Source/DafnyDriver/DafnyDoc.cs:1126-1129 | Empty exactly when there are no arguments. Otherwise the rendered types, joined by ',', read back from between the brackets. |
| `Render.ClausesOrdered` | Source/DafnyDriver/DafnyDoc.cs:792-834 | Clauses come in the fixed order reads, requires, ensures, decreases, and all of them appear. Decreases appears at most once, and exactly when it has expressions. |
| `Render.AppendClauses` | Source/DafnyDriver/DafnyDoc.cs:796-799 | One foreach appends one line per clause, in order, and sets `some` exactly when there was a clause. |
| `Render.AppendDecreases` | Source/DafnyDriver/DafnyDoc.cs:808-812 | One decreases line, with the expressions joined by ", ", exactly when there are expressions. |
| `Render.AppendSpecs` | Source/DafnyDriver/DafnyDoc.cs:792-834 | It appends the member's clause lines in order and returns true exactly when it appended at least one. |
| `Traits.TransitiveTraits` | Source/DafnyDriver/DafnyDoc.cs:289-310 | The worklist terminates. It finds every trait the declaration extends transitively but not directly, each exactly once. |
| `Traits.ExpandKeepsInv` | Source/DafnyDriver/DafnyDoc.cs:300-309 | Expanding a type not found before keeps the loop invariant. |
| `Traits.Unfold` | Source/DafnyDriver/DafnyDoc.cs:296-305 | Replacing a type in the worklist by its parents removes one unit of remaining work. |
| `Traits.SortedTransitiveTraits` | Source/DafnyDriver/DafnyDoc.cs:289-316 | The "[Transitively: …]" list has the same traits, each once, sorted by name. |
| `Pages.DeclPageOrder` | Source/DafnyDriver/DafnyDoc.cs:329-336 | Constructors appear exactly on class pages, and first. A class or trait page has no module categories. |
| `Pages.DetailHeading` | Source/DafnyDriver/DafnyDoc.cs:497-508 | Submodules alone get no details heading; every other category has the same heading in summaries and details. |
| `Pages.ByName` | Source/DafnyDriver/DafnyDoc.cs:600-601 | A category's list is a permutation of its declarations, ordered by name under a total preorder. |
| `Pages.EntriesComplete` | Source/DafnyDriver/DafnyDoc.cs:396-775 | Each category lists every shown declaration of its kind exactly once and nothing else. The default class is skipped in Types. |
| `Pages.ImportsComplete` | Source/DafnyDriver/DafnyDoc.cs:446-450 | The named imports, then the abstract ones, together list every import once. |
| `Pages.TypesComplete` | Source/DafnyDriver/DafnyDoc.cs:516-525 | The Types list is every type except the default class, once each. |
| `Pages.EntriesSorted` | Source/DafnyDriver/DafnyDoc.cs:446-450 | Every category but export sets is in name order; imports are in name order within the named and within the abstract ones. |
| `Pages.SectionsComplete` | Source/DafnyDriver/DafnyDoc.cs:229-236 | Every category of the page order that has declarations gets a section. |
| `Pages.SectionsOrdered` | Source/DafnyDriver/DafnyDoc.cs:229-236 | Sections follow the page order strictly. |
| `Pages.PageSectionsLayout` | Source/DafnyDriver/DafnyDoc.cs:227-236 | The sections appear in the category order. A category is present exactly when it has declarations, and it holds the entries that category lists. |
| `Pages.WritePage` | Source/DafnyDriver/DafnyDoc.cs:327-336 | Calling the Write* routines in order yields exactly those sections. |
| `Pages.ModulePageCategories` | Source/DafnyDriver/DafnyDoc.cs:227-236 | A module page never lists constructors or mutable fields. |
| `Pages.DeclPageCategories` | Source/DafnyDriver/DafnyDoc.cs:327-336 | A class or trait page lists only member categories. On a class page, constructors come first when there are any. |

Where the code and its documentation disagree, the model follows the code:

- `HasOwnPage` is false for modules, although every module gets a page. Pages
  are written only for classes and traits, although `HasOwnPage` also holds
  for other declarations with members.
- The root module's index entry shows an empty link text.
- Export sets are listed in declaration order, not by name.
- The default class counts towards whether the Types heading is written, but
  gets no row of its own.
- The worklist of `WriteDecl` re-expands a direct parent each time it meets it
  again. This costs time only: the result is unchanged and the loop still ends.

## Left out

- The driver (`DoDocumenting`, `GenerateDocs`, `CollectDecls`) and all file
  output (`StreamWriter`, `AnnounceFile`) are I/O. Pages are modelled as the
  sections, lines and strings they would hold.
- `FileInfo` and `GetFileReference` read the file system (modification times,
  path functions).
- The HTML head, style and body constants are fixed text with no logic.
- Printing of expressions, types (`TypeLink`, `TypeString`) and attribute
  arguments is done by the resolver. Those texts arrive as strings.
- `CompareTo` and `List.Sort` are culture-sensitive. They are a comparison
  parameter, and the ordering results assume a total preorder. `SortOn` is an
  insertion sort, so its order among equal keys is one possible order;
  `List.Sort` leaves that order unspecified.
- `String.IndexOf(string)` and `String.StartsWith(string)` are
  culture-sensitive in .NET; the model searches and compares ordinally.
- `Docstrings.Docstring` gives "" where the code returns null for a missing
  declaration. Every caller tests the result with `IsNullOrEmpty`, so the two
  are treated alike.
- `Names.DeclKind` has no iterator kind. In the resolved tree an iterator is
  a class declaration, so `HasOwnPage` holds for it; its page is not modelled.
- The page text around the lists is not modelled: the headings with
  breadcrumbs, the docstring and attribute blocks of a page, and the detail
  text of export sets (provides/reveals), imports, types, constants and
  mutable fields. Of the "Extends traits" line, only the list of traits found
  transitively is modelled.
- The second `ReplaceFirst` overload (a count of occurrences) is never called.
- The `link` variable in `WriteIndex` is computed and never used.
- `Traits.TransitiveTraits` assumes the resolved hierarchy is acyclic (a
  height function witnesses it) and that every parent resolves to a trait. A
  name the hierarchy does not know has no parents.
- `Html.Row` takes any number of cells; the source has overloads for 0 and
  for 2 to 6 cells.
- `Names.QualifiedNameSegments` is stated for names without '"' or '<', so
  that each breadcrumb can be read back as a link or as plain text.
- `NameIndex.IndexLinkLeadsHome` is stated for admissible registrations:
  names and owners without spaces or quotes. The key decoding cannot recover a
  name that contains a space.
- `Members.SigReplaceAgrees` is stated for names other than "b" without angle
  brackets; the finding below covers "b".
- `Members.SummaryAgrees` is stated for members that are not constructors. A
  constructor's "(more...)" link differs (see Findings), so the code's summary
  and the corrected `Members.Summary` are not claimed equal for it.

## Findings

| source | as written | input that shows it | evidently intended | confidence | as-written member | corrected member |
|---|---|---|---|---|---|---|
| Source/DafnyDriver/DafnyDoc.cs:1011-1015 | `fullName` is cut to its first `hash` characters, and then `Substring(hash + 1)` is taken from the cut text, which is past its end | `QualifiedNameWithLinks("M.C#f")` | take the anchor from after the '#' of the original reference | not executed; the out-of-range Substring is certain, but no caller in the file passes a '#' | `Names.AnchoredReferenceCrashes` | `Names.QualifiedNameOfReferenceSplits` |
| Source/DafnyDriver/DafnyDoc.cs:742 | `ms.ReplaceFirst(m.Name, link)` replaces the first occurrence of the name in "<b>name</b>…" | a method named `b` | replace the bold name | not executed | `Members.MemberNamedBMangled` | `Members.SigReplaceAgrees` |
| Source/DafnyDriver/DafnyDoc.cs:745-750 | the "(more...)" link of a summary targets `#` + the member's own name, but a constructor's details are anchored at "C" or "C.m" | constructor `_ctor` of class `C` documented "Makes one. Then more." | link to the anchor the details declare | not executed | `Members.CtorMoreLinkMissesAnchor` | `Members.MoreLinkReachesAnchor` |
| Source/DafnyDriver/DafnyDoc.cs:869 | one `</ul>` closes only the outermost list after the loop | modules `A` and `A.B` | close every list the last item opened, then the outer one | not executed | `Toc.NestedLastModuleLeavesListOpen` | `Toc.TocLinesClosedBalanced` |

`Members.WriteMethodsList` writes the code's summary and detail lines.
`Members.Summary` and `Members.Details` are the corrected lines.
`Members.SummaryAgrees` and `Members.DetailsAgrees` state that the two
coincide for every member with a safe name (for the summary, every member
that is not a constructor). `Toc.WriteToc` keeps the code's single closing
tag, and `Toc.TocLinesClosed` is the corrected list.
