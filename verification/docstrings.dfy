/** Documentation text of a declaration: fetching and trimming it, cutting it
    at the end of its first sentence, and the "(more...)" summaries. */
module Docstrings {
  import opened Wrappers
  import opened Strings
  import opened Html

  /** The sentence boundary Shorten looks for. */
  const SentenceEnd := ". "

  /** Docstring(d): the trimmed comment, or "" when the declaration has none. */
  function Docstring(comment: Option<string>): (r: string)
    ensures comment.None? ==> r == ""
    ensures comment.Some? ==> r == Trim(comment.value)
    ensures |r| > 0 ==> !IsWhiteSpace(r[0]) && !IsWhiteSpace(r[|r| - 1])
  {
    if comment.None? then "" else Trim(comment.value)
  }

  /** Shorten(docstring): the text up to and including the '.' of the first
      ". ", or the whole text when there is no such boundary. */
  function Shorten(docstring: string): (r: string)
    ensures |r| <= |docstring| && r == docstring[..|r|]
    ensures r == docstring <==> !Occurs(docstring, SentenceEnd)
    ensures r != docstring ==>
              && OccursAt(docstring, SentenceEnd, |r| - 1)
              && forall j | 0 <= j < |r| - 1 :: !OccursAt(docstring, SentenceEnd, j)
  {
    var k := IndexOf(docstring, SentenceEnd);
    if k == -1 then docstring else docstring[..k + 1]
  }

  /** Shortening text that has already been shortened changes nothing. */
  lemma {:induction false} ShortenIdempotent(docstring: string)
    ensures Shorten(Shorten(docstring)) == Shorten(docstring)
  {
    var s := Shorten(docstring);
    if s != docstring {
      var k := |s| - 1;
      forall j ensures !OccursAt(s, SentenceEnd, j) {
        if OccursAt(s, SentenceEnd, j) {
          assert j + 2 <= k + 1;
          assert docstring[j..j + 2] == s[j..j + 2];
          assert OccursAt(docstring, SentenceEnd, j);
        }
      }
    }
  }

  /** Where there is a sentence end, Shorten cuts right after the '.' of the
      first one. */
  lemma ShortenCut(docstring: string)
    ensures Occurs(docstring, SentenceEnd) ==>
              IndexOf(docstring, SentenceEnd) + 1 <= |docstring| &&
              Shorten(docstring) == docstring[..IndexOf(docstring, SentenceEnd) + 1]
  {
  }

  /** The "(more...)" link to the details anchor `target`. */
  function MoreLink(target: string): string {
    " " + LinkToAnchor(target, "(more...)")
  }

  /** The summary of a documentation text: "" for no text; otherwise the
      first sentence, followed by a link to `target` exactly when the text
      goes on. */
  function SummaryText(docstring: string, target: string): (r: string)
    ensures docstring == "" ==> r == ""
    ensures docstring != "" && !Occurs(docstring, SentenceEnd) ==> r == docstring
    ensures var k := IndexOf(docstring, SentenceEnd);
      docstring != "" && Occurs(docstring, SentenceEnd) ==> r == docstring[..k + 1] + MoreLink(target)
  {
    var shortstring := Shorten(docstring);
    ShortenCut(docstring);
    if docstring == "" then ""
    else if shortstring != docstring then shortstring + MoreLink(target)
    else shortstring
  }

  /** ShortAndMore(d, target): the summary of the declaration's documentation. */
  function ShortAndMore(comment: Option<string>, target: string): string {
    SummaryText(Docstring(comment), target)
  }

  /** The anchor at the head of the details section of every page. */
  const DeclDetail := "decl-detail"

  /** ShortAndMoreForDecl(d): the page-level summary, whose "(more...)" link
      goes to the details section of the same page. */
  function ShortAndMoreForDecl(comment: Option<string>): (r: string)
    ensures r == ShortAndMore(comment, DeclDetail)
  {
    var docstring := Docstring(comment);
    var shortstring := Shorten(docstring);
    if docstring == "" then ""
    else if shortstring != docstring then
      ConcatAssoc(shortstring, " ", LinkToAnchor(DeclDetail, "(more...)"));
      shortstring + " " + LinkToAnchor(DeclDetail, "(more...)")
    else shortstring
  }

  /** DashShortDocstring(d): a dash and the summary, or "" without documentation. */
  function DashShortDocstring(comment: Option<string>, name: string): (r: string)
    ensures r == "" <==> Docstring(comment) == ""
    ensures r != "" ==> r == Mdash + ShortAndMore(comment, name)
  {
    if Docstring(comment) != "" then Mdash + ShortAndMore(comment, name) else ""
  }

  /** DashShortDocstringNoMore(d): a dash and the first sentence, never a link. */
  function DashShortDocstringNoMore(comment: Option<string>): (r: string)
    ensures r == "" <==> Docstring(comment) == ""
    ensures r != "" ==> r == Mdash + Shorten(Docstring(comment))
    ensures !Occurs(Docstring(comment), SentenceEnd) ==> r == DashShortDocstring(comment, "")
  {
    var docstring := Shorten(Docstring(comment));
    if docstring != "" then Mdash + docstring else ""
  }

  /** Indented(docstring, nothingIfNull): the text in an indented paragraph,
      or, without text, a line break unless `nothingIfNull` asks for nothing. */
  function Indented(docstring: string, nothingIfNull: bool): (r: string)
    ensures docstring != "" ==> Unwrap(IndentOpen, IndentClose + eol, r) == Some(docstring)
    ensures docstring == "" ==> (r == "" <==> nothingIfNull)
    ensures docstring == "" && !nothingIfNull ==> r == br + eol
  {
    UnwrapWrap(IndentOpen, docstring, IndentClose + eol);
    if docstring != "" then IndentOpen + docstring + (IndentClose + eol)
    else if !nothingIfNull then br + eol
    else ""
  }
}
