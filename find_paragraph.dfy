/**
 * `find_fragment_in_pdf` of the paragraph finder: the earlier copy of the
 * matching step, without page numbers or sections. The document text is
 * built from the pages, both texts are normalised, and the match is reported
 * with its context window.
 */
module FindParagraph {
  import opened Wrappers
  import opened PyText
  import opened PageMarkers
  import opened Locator

  /** `{"found": False}`, or a hit with its span (partial hits carry the word count) and its context. */
  datatype Paragraph = NotFound | Found(span: Span, ctx: Context)

  /** The result for a fragment and the text of the document's pages. */
  function ParagraphFor(fragment: string, pages: seq<string>): Paragraph {
    var cleanFragment := CleanText(fragment);
    var cleanPdf := CleanText(FullText(pages));
    match LocateSpan(cleanFragment, cleanPdf)
    case None => NotFound
    case Some(sp) => Found(sp, ContextAround(cleanPdf, sp.start, sp.end, Window(sp.kind)))
  }

  /** The script's steps: build the text page by page, normalise, match, cut the window. */
  method FindFragmentInPdf(fragment: string, pages: seq<string>) returns (r: Paragraph)
    ensures r == ParagraphFor(fragment, pages)
  {
    var fullText := BuildFullText(pages);
    var cleanFragment := CleanText(fragment);
    var cleanPdf := CleanText(fullText);
    var span := LocateInText(cleanFragment, cleanPdf);
    if span.None? {
      return NotFound;
    }
    var sp := span.value;
    r := Found(sp, ContextAround(cleanPdf, sp.start, sp.end, Window(sp.kind)));
  }

  /**
   * A hit's parts rebuild its context, the matched part is the normalised
   * fragment itself for an exact hit, and a partial hit always leaves out at
   * least one word of the fragment.
   */
  lemma FoundParagraph(fragment: string, pages: seq<string>)
    requires ParagraphFor(fragment, pages).Found?
    ensures var p := ParagraphFor(fragment, pages);
      && p.ctx.before + p.ctx.matched + p.ctx.after == p.ctx.context
      && (p.span.kind.Exact? ==> p.ctx.matched == CleanText(fragment))
      && (p.span.kind.Partial? ==> p.span.kind.matchedWords < |Words(CleanText(fragment))|)
      && |p.ctx.before| <= Window(p.span.kind) && |p.ctx.after| <= Window(p.span.kind)
  {
    var cleanFragment := CleanText(fragment);
    var cleanPdf := CleanText(FullText(pages));
    LocateSpanMeaning(cleanFragment, cleanPdf);
    CleanTextIsNormal(fragment);
    var sp := LocateSpan(cleanFragment, cleanPdf).value;
    if sp.kind.Partial? {
      PartialIsStrict(cleanFragment, cleanPdf);
    } else {
      assert Occurs(cleanFragment, cleanPdf);
    }
  }

  /** A fragment that is all whitespace normalises to "" and is an exact hit at position 0. */
  lemma BlankFragmentFoundAtStart(fragment: string, pages: seq<string>)
    requires AllSpace(fragment)
    ensures ParagraphFor(fragment, pages).Found?
    ensures ParagraphFor(fragment, pages).span == Span(Exact, 0, 0)
  {
    CleanTextEmptyIff(fragment);
    EmptyFragmentIsExact(CleanText(FullText(pages)));
  }
}
