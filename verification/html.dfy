/** The markup builders of the generator (DafnyDocHtml and their copies in
    DafnyDoc). Each builder puts its argument verbatim between fixed text, so
    each has a decoder here that recovers the argument; the contracts state
    that round trip rather than the concatenation itself. */
module Html {
  import opened Wrappers
  import opened Strings

  const eol := "\n"
  const br := "<br>"
  const Mdash := " &mdash; "
  const space4 := "&nbsp;&nbsp;&nbsp;&nbsp;"

  const TableStart := "<table>"
  const TableEnd := "</table>"
  const ListStart := "<ul>"
  const ListEnd := "</ul>"

  /** Strips a fixed prefix and suffix, if both are there. */
  function Unwrap(open: string, close: string, s: string): (r: Option<string>)
    ensures r.Some? <==> |open| + |close| <= |s| && StartsWith(s, open) && s[|s| - |close|..] == close
    ensures r.Some? ==> s == open + r.value + close
  {
    if |open| + |close| <= |s| && s[..|open|] == open && s[|s| - |close|..] == close then
      assert s == s[..|open|] + s[|open|..|s| - |close|] + s[|s| - |close|..];
      Some(s[|open|..|s| - |close|])
    else None
  }

  lemma UnwrapWrap(open: string, body: string, close: string)
    ensures Unwrap(open, close, open + body + close) == Some(body)
  {
    var s := open + body + close;
    assert s[..|open|] == open;
    assert s[|s| - |close|..] == close;
    assert s[|open|..|s| - |close|] == body;
  }

  // ---- links and anchors ----

  const LinkOpen := "<a href=\""
  const LinkClose := "</a>"

  /** Reads `<a href="H">T</a>` back into (H, T); H is the text up to the first quote. */
  function ParseHrefLink(s: string): Option<(string, string)> {
    match Unwrap(LinkOpen, LinkClose, s)
    case None => None
    case Some(body) =>
      var k := IndexOfChar(body, '"');
      if k < 0 || k + 1 >= |body| || body[k + 1] != '>' then None
      else Some((body[..k], body[k + 2..]))
  }

  /** The body of a link splits at the quote that ends the target. */
  lemma LinkBodySplits(href: string, text: string)
    requires '"' !in href
    ensures var body := href + "\">" + text;
      IndexOfChar(body, '"') == |href| && |href| + 1 < |body| && body[|href| + 1] == '>' &&
      body[..|href|] == href && body[|href| + 2..] == text
  {
    var body := href + "\">" + text;
    assert body == href + ['"'] + (">" + text);
    IndexOfCharSplit(href, '"', ">" + text);
    assert body[..|href|] == href;
    assert body[|href| + 2..] == text;
  }

  lemma HrefLinkParses(href: string, text: string)
    ensures '"' !in href ==>
              ParseHrefLink(LinkOpen + href + "\">" + text + LinkClose) == Some((href, text))
  {
    if '"' !in href {
      var body := href + "\">" + text;
      assert LinkOpen + href + "\">" + text + LinkClose == LinkOpen + body + LinkClose;
      UnwrapWrap(LinkOpen, body, LinkClose);
      LinkBodySplits(href, text);
    }
  }

  /** The one shape of every hyperlink the generator writes. */
  function HrefLink(href: string, text: string): (r: string)
    ensures '"' !in href ==> ParseHrefLink(r) == Some((href, text))
  {
    HrefLinkParses(href, text);
    LinkOpen + href + "\">" + text + LinkClose
  }

  /** A character the link markup does not use appears in a link only
      through its target or its text. */
  lemma HrefLinkAvoids(href: string, text: string, c: char)
    requires c !in LinkOpen && c !in "\">" && c !in LinkClose
    ensures c in HrefLink(href, text) <==> c in href || c in text
  {
  }

  /** The link markup holds no '#', no space and no '.'. */
  lemma LinkMarkupPlain()
    ensures '#' !in LinkOpen && '#' !in "\">" && '#' !in LinkClose && '#' !in ".html"
  {
  }

  /** Link(fullName, text): a link to the page of `fullName`, with no fragment. */
  function PageLink(fullName: string, text: string): (r: string)
    ensures '"' !in fullName ==> ParseHrefLink(r) == Some((fullName + ".html", text))
  {
    HrefLink(fullName + ".html", text)
  }

  /** DafnyDoc's three-argument Link: a link to an anchor on the page of `fullName`. */
  function PageAnchorLink(fullName: string, inpage: string, text: string): (r: string)
    ensures '"' !in fullName + inpage ==> ParseHrefLink(r) == Some((fullName + ".html#" + inpage, text))
  {
    HrefLink(fullName + ".html#" + inpage, text)
  }

  /** LinkToAnchor(name, text): a link to an anchor on the current page. */
  function LinkToAnchor(name: string, text: string): (r: string)
    ensures '"' !in name ==> ParseHrefLink(r) == Some(("#" + name, text))
  {
    HrefLink("#" + name, text)
  }

  /** DafnyDocHtml's three-argument Link: a null page means the current page. */
  function Link(fullName: Option<string>, inpage: string, text: string): (r: string)
    ensures fullName.None? ==> r == LinkToAnchor(inpage, text)
    ensures fullName.Some? ==> r == PageAnchorLink(fullName.value, inpage, text)
  {
    if fullName.None? then HrefLink("#" + inpage, text)
    else HrefLink(fullName.value + ".html#" + inpage, text)
  }

  const AnchorOpen := "<a id=\""
  const AnchorClose := "\"/>"

  function AnchorId(s: string): Option<string> {
    Unwrap(AnchorOpen, AnchorClose, s)
  }

  /** Anchor(name): declares the in-page identifier `name`. */
  function Anchor(name: string): (r: string)
    ensures AnchorId(r) == Some(name)
  {
    UnwrapWrap(AnchorOpen, name, AnchorClose);
    AnchorOpen + name + AnchorClose
  }

  /** An anchor and a link to it agree on the identifier: the link's target is
      `#` followed by exactly the id the anchor declares. */
  lemma AnchorLinkAgree(name: string, text: string)
    requires '"' !in name
    ensures AnchorId(Anchor(name)).Some?
    ensures ParseHrefLink(LinkToAnchor(name, text)) == Some(("#" + AnchorId(Anchor(name)).value, text))
  {
  }

  // ---- text wrappers ----

  function Heading1(text: string): (r: string)
    ensures Unwrap("<div>\n<h1>", "</h1>\n</div>", r) == Some(text)
  {
    UnwrapWrap("<div>\n<h1>", text, "</h1>\n</div>");
    "<div>\n<h1>" + text + "</h1>\n</div>"
  }

  function Heading2(text: string): (r: string)
    ensures Unwrap("<div>\n<h2>", "</h2>\n</div>", r) == Some(text)
  {
    UnwrapWrap("<div>\n<h2>", text, "</h2>\n</div>");
    "<div>\n<h2>" + text + "</h2>\n</div>"
  }

  function Heading3(text: string): (r: string)
    ensures Unwrap("<div>\n<h3>", "</h3>\n</div>", r) == Some(text)
  {
    UnwrapWrap("<div>\n<h3>", text, "</h3>\n</div>");
    "<div>\n<h3>" + text + "</h3>\n</div>"
  }

  function Smaller(text: string): (r: string)
    ensures Unwrap("<font size=\"-1\">", "</font>", r) == Some(text)
  {
    UnwrapWrap("<font size=\"-1\">", text, "</font>");
    "<font size=\"-1\">" + text + "</font>"
  }

  function Bold(text: string): (r: string)
    ensures Unwrap("<b>", "</b>", r) == Some(text)
  {
    UnwrapWrap("<b>", text, "</b>");
    "<b>" + text + "</b>"
  }

  function Italics(text: string): (r: string)
    ensures Unwrap("<i>", "</i>", r) == Some(text)
  {
    UnwrapWrap("<i>", text, "</i>");
    "<i>" + text + "</i>"
  }

  function Code(text: string): (r: string)
    ensures Unwrap("<span class=\"code\">", "</span>", r) == Some(text)
  {
    UnwrapWrap("<span class=\"code\">", text, "</span>");
    "<span class=\"code\">" + text + "</span>"
  }

  /** Keywords are set in bold and nothing else. */
  function Keyword(text: string): (r: string)
    ensures r == Bold(text)
    ensures Unwrap("<b>", "</b>", r) == Some(text)
  {
    Bold(text)
  }

  function ListItem(text: string): (r: string)
    ensures Unwrap("<li>", "</li>", r) == Some(text)
  {
    UnwrapWrap("<li>", text, "</li>");
    "<li>" + text + "</li>"
  }

  const IndentOpen := "<p style=\"margin-left: 25px;\">"
  const IndentClose := "</p>"

  function Indent(text: string): (r: string)
    ensures Unwrap(IndentOpen, IndentClose, r) == Some(text)
  {
    UnwrapWrap(IndentOpen, text, IndentClose);
    IndentOpen + text + IndentClose
  }

  const RuleOpen := "<div style=\"width: 100%; height: 10px; border-bottom: 1px solid black; text-align: center\"><span style=\"font-size: 20px; background-color: #F3F5F6; padding: 0 10px;\">"
  const RuleClose := "</span></div><br>"

  function RuleWithText(text: string): (r: string)
    ensures Unwrap(RuleOpen, RuleClose, r) == Some(text)
  {
    UnwrapWrap(RuleOpen, text, RuleClose);
    RuleOpen + text + RuleClose
  }

  // ---- table rows ----

  const CellClose := "</td>"

  /** A cell can be read back when it holds no `</td>` of its own. */
  ghost predicate CellSafe(c: string) {
    !Occurs(c, CellClose)
  }

  function Cells(cells: seq<string>): string {
    if |cells| == 0 then "" else "<td>" + cells[0] + CellClose + Cells(cells[1..])
  }

  /** Reads back a run of `<td>c</td>` cells, each ending at its first `</td>`. */
  function ParseCells(s: string): Option<seq<string>>
    decreases |s|
  {
    if |s| == 0 then Some([])
    else if !StartsWith(s, "<td>") then None
    else
      var rest := s[4..];
      var k := IndexOf(rest, CellClose);
      if k < 0 then None
      else match ParseCells(rest[k + 5..])
        case None => None
        case Some(more) => Some([rest[..k]] + more)
  }

  lemma {:induction false} ParseCellsRoundTrip(cells: seq<string>)
    requires forall i | 0 <= i < |cells| :: CellSafe(cells[i])
    ensures ParseCells(Cells(cells)) == Some(cells)
  {
    if |cells| > 0 {
      var tail := Cells(cells[1..]);
      var s := Cells(cells);
      assert s == "<td>" + (cells[0] + CellClose + tail);
      var rest := s[4..];
      assert rest == cells[0] + CellClose + tail;
      assert CellClose[1..] == "/td>";
      IndexOfAfter(cells[0], CellClose, tail);
      assert rest[..|cells[0]|] == cells[0];
      assert rest[|cells[0]| + 5..] == tail;
      ParseCellsRoundTrip(cells[1..]);
      assert [cells[0]] + cells[1..] == cells;
    }
  }

  lemma RowParses(cells: seq<string>)
    ensures Unwrap("<tr>", "</tr>", "<tr>" + Cells(cells) + "</tr>") == Some(Cells(cells))
    ensures (forall i | 0 <= i < |cells| :: CellSafe(cells[i])) ==> ParseCells(Cells(cells)) == Some(cells)
  {
    UnwrapWrap("<tr>", Cells(cells), "</tr>");
    if forall i | 0 <= i < |cells| :: CellSafe(cells[i]) {
      ParseCellsRoundTrip(cells);
    }
  }

  /** Row(s1, ..., sk): one table row holding the arguments as cells, in
      order; the source has the overloads k = 0 and 2 to 6. */
  function Row(cells: seq<string>): (r: string)
    ensures Unwrap("<tr>", "</tr>", r).Some?
    ensures (forall i | 0 <= i < |cells| :: CellSafe(cells[i])) ==>
              ParseCells(Unwrap("<tr>", "</tr>", r).value) == Some(cells)
  {
    RowParses(cells);
    "<tr>" + Cells(cells) + "</tr>"
  }
}
