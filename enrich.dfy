/**
 * The enrichment script's own steps around the matcher: locating a fragment in
 * a filing (with its page and section), turning the result into metadata
 * updates, processing one chunk, choosing the chunks to process, and
 * processing them in batches against the vector index.
 */
module Enrich {
  import opened Wrappers
  import opened PyText
  import opened PyValue
  import opened PageMarkers
  import opened Sections
  import opened FragmentSelector
  import opened Locator

  /** What opening the filing gives: no file, a reader failure, or the text of each page. */
  datatype Pdf = Missing | Unreadable(reason: string) | Pages(pages: seq<string>)

  /**
   * The dict `find_fragment_in_pdf` returns: `found` False (with or without an
   * `error`), or a hit with its span, page, context window and, when one was
   * attached, its section.
   */
  datatype PdfResult =
    | NotLocated(error: Option<string>)
    | Located(span: Span, page: nat, ctx: Context, section: Option<SectionInfo>)

  const PdfNotFound: string := "PDF file not found"
  const PdfReadError: string := "PDF read error: "

  /**
   * The section attached to a hit: looked up only when the table is non-empty
   * and the page is non-zero, and kept only when the lookup's value is truthy.
   */
  function SectionFor(rows: seq<Section>, page: nat): (r: Option<SectionInfo>)
    ensures r.Some? <==> rows != [] && page != 0 && FindSectionForPage(rows, page).value.Truthy()
    ensures r.Some? ==> r == FindSectionForPage(rows, page)
  {
    if rows != [] && page != 0 then
      var info := FindSectionForPage(rows, page);
      if info.value.Truthy() then info else None
    else None
  }

  /** `find_fragment_in_pdf(fragment, source_file)` with the file and the section table as inputs. */
  function LocateInPdf(fragment: string, pdf: Pdf, rows: seq<Section>): PdfResult {
    match pdf
    case Missing => NotLocated(Some(PdfNotFound))
    case Unreadable(e) => NotLocated(Some(PdfReadError + e))
    case Pages(pages) =>
      var cleanFragment := CleanText(fragment);
      var cleanPdf := CleanText(FullText(pages));
      match LocateSpan(cleanFragment, cleanPdf)
      case None => NotLocated(None)
      case Some(sp) =>
        var page := ExtractPageNumber(cleanPdf, sp.start);
        Located(sp, page, ContextAround(cleanPdf, sp.start, sp.end, Window(sp.kind)), SectionFor(rows, page))
  }

  /** The function's steps as the script takes them: the two failures, the page loop, normalising, matching. */
  method FindFragmentInPdf(fragment: string, pdf: Pdf, rows: seq<Section>) returns (r: PdfResult)
    ensures r == LocateInPdf(fragment, pdf, rows)
  {
    if pdf.Missing? {
      return NotLocated(Some(PdfNotFound));
    }
    if pdf.Unreadable? {
      return NotLocated(Some(PdfReadError + pdf.reason));
    }
    var fullText := BuildFullText(pdf.pages);
    var cleanFragment := CleanText(fragment);
    var cleanPdf := CleanText(fullText);
    var span := LocateInText(cleanFragment, cleanPdf);
    if span.None? {
      return NotLocated(None);
    }
    var sp := span.value;
    var page := ExtractPageNumber(cleanPdf, sp.start);
    var info: Option<SectionInfo> := None;
    if rows != [] && page != 0 {
      info := FindSectionForPage(rows, page);
    }
    var section := if info.Some? && info.value.Truthy() then info else None;
    r := Located(sp, page, ContextAround(cleanPdf, sp.start, sp.end, Window(sp.kind)), section);
  }

  /** The result carries an error exactly when the file is missing or could not be read. */
  lemma ErrorsComeFromTheFile(fragment: string, pdf: Pdf, rows: seq<Section>)
    ensures var r := LocateInPdf(fragment, pdf, rows);
      r.NotLocated? && r.error.Some? <==> !pdf.Pages?
    ensures pdf.Missing? ==> LocateInPdf(fragment, pdf, rows).error == Some("PDF file not found")
    ensures pdf.Unreadable? ==> LocateInPdf(fragment, pdf, rows).error == Some("PDF read error: " + pdf.reason)
  {
  }

  /**
   * A hit in a readable filing: the page is the one `extract_page_number`
   * reads at the hit's start, the window's parts rebuild the context, an
   * exact hit matches the normalised fragment at its first occurrence, and the
   * section is there exactly when the table is non-empty, the page non-zero
   * and the lookup truthy.
   */
  lemma LocatedInPdf(fragment: string, pages: seq<string>, rows: seq<Section>)
    requires LocateInPdf(fragment, Pages(pages), rows).Located?
    ensures var r := LocateInPdf(fragment, Pages(pages), rows);
      var cleanPdf := CleanText(FullText(pages));
      && r.span.end <= |cleanPdf|
      && r.page == ExtractPageNumber(cleanPdf, r.span.start)
      && r.ctx.before + r.ctx.matched + r.ctx.after == r.ctx.context
      && r.ctx.matched == cleanPdf[r.span.start..r.span.end]
      && |r.ctx.before| <= Window(r.span.kind) && |r.ctx.after| <= Window(r.span.kind)
      && (r.span.kind.Exact? ==> r.ctx.matched == CleanText(fragment) && r.span.start == Find(CleanText(fragment), cleanPdf))
      && (r.section.Some? <==> rows != [] && r.page != 0 && FindSectionForPage(rows, r.page).value.Truthy())
      && (r.section.Some? ==> r.section == FindSectionForPage(rows, r.page))
  {
    var cleanFragment := CleanText(fragment);
    var cleanPdf := CleanText(FullText(pages));
    var sp := LocateSpan(cleanFragment, cleanPdf).value;
    if sp.kind.Exact? {
      ExactSpan(cleanFragment, cleanPdf);
    }
  }

  /** An exact span is the first occurrence of the fragment. */
  lemma ExactSpan(fragment: string, text: string)
    requires LocateSpan(fragment, text).Some? && LocateSpan(fragment, text).value.kind.Exact?
    ensures var sp := LocateSpan(fragment, text).value;
      text[sp.start..sp.end] == fragment && sp.start == Find(fragment, text)
  {
    LocateSpanMeaning(fragment, text);
    assert Occurs(fragment, text);
  }

  /**
   * A readable filing yields `found` False only when neither the normalised
   * fragment nor its first word occurs in the normalised text.
   */
  lemma NotLocatedInPages(fragment: string, pages: seq<string>, rows: seq<Section>)
    requires CleanText(fragment) != []
    ensures |Words(CleanText(fragment))| >= 1
    ensures LocateInPdf(fragment, Pages(pages), rows).NotLocated? <==>
      var cleanFragment := CleanText(fragment);
      var cleanPdf := CleanText(FullText(pages));
      !Occurs(cleanFragment, cleanPdf) && !Occurs(Words(cleanFragment)[0], cleanPdf)
  {
    CleanTextIsNormal(fragment);
    JoinWordsOfNormal(CleanText(fragment));
    NotFoundIffFirstWordMissing(CleanText(fragment), CleanText(FullText(pages)));
  }

  /** Metadata as it is sent to the index: field name to value. */
  type Metadata = map<string, MetaValue>

  /** The main side of an attached section, when there is one and it is truthy. */
  function MainOf(r: PdfResult): Option<Section> {
    if r.Located? && r.section.Some? && r.section.value.Active?
       && r.section.value.main.Some? && r.section.value.main.value.Truthy()
    then r.section.value.main else None
  }

  /** The subsection side of an attached section, when there is one and it is truthy. */
  function SubOf(r: PdfResult): Option<Section> {
    if r.Located? && r.section.Some? && r.section.value.Active?
       && r.section.value.sub.Some? && r.section.value.sub.value.Truthy()
    then r.section.value.sub else None
  }

  /**
   * `create_metadata_from_result(result)`: the page when there is one, and for
   * an attached section its display and the name and title of each side that
   * is present.
   */
  function MetadataFor(r: PdfResult): (md: Metadata)
    ensures r.NotLocated? ==> md == map[]
    ensures r.Located? ==> "page_number" in md && md["page_number"] == IntVal(r.page)
    ensures "hierarchical_section" in md <==> r.Located? && r.section.Some? && r.section.value.Truthy()
    ensures "hierarchical_section" in md ==> md["hierarchical_section"] == StrVal(FormatSectionInfo(r.section))
    ensures ("main_section_name" in md <==> MainOf(r).Some?) && ("main_section_title" in md <==> MainOf(r).Some?)
    ensures MainOf(r).Some? ==>
      && md["main_section_name"] == StrVal(MainOf(r).value.name.GetOr(""))
      && md["main_section_title"] == StrVal(MainOf(r).value.title.GetOr(""))
    ensures ("subsection_name" in md <==> SubOf(r).Some?) && ("subsection_title" in md <==> SubOf(r).Some?)
    ensures SubOf(r).Some? ==>
      && md["subsection_name"] == StrVal(SubOf(r).value.name.GetOr(""))
      && md["subsection_title"] == StrVal(SubOf(r).value.title.GetOr(""))
    ensures md.Keys <= MetadataKeys
  {
    var withPage := if r.Located? then map["page_number" := IntVal(r.page)] else map[];
    var withSection :=
      if r.Located? && r.section.Some? && r.section.value.Truthy()
      then withPage["hierarchical_section" := StrVal(FormatSectionInfo(r.section))]
      else withPage;
    var withMain :=
      if MainOf(r).Some?
      then withSection["main_section_name" := StrVal(MainOf(r).value.name.GetOr(""))]
                      ["main_section_title" := StrVal(MainOf(r).value.title.GetOr(""))]
      else withSection;
    if SubOf(r).Some?
    then withMain["subsection_name" := StrVal(SubOf(r).value.name.GetOr(""))]
                 ["subsection_title" := StrVal(SubOf(r).value.title.GetOr(""))]
    else withMain
  }

  /** The script's version: an empty dict filled key by key. */
  method CreateMetadataFromResult(r: PdfResult) returns (md: Metadata)
    ensures md == MetadataFor(r)
  {
    md := map[];
    if "page_number" in ResultKeys(r) {
      md := md["page_number" := IntVal(r.page)];
    }
    if "section" in ResultKeys(r) && r.section.value.Truthy() {
      var info := r.section.value;
      md := md["hierarchical_section" := StrVal(FormatSectionInfo(r.section))];
      if info.Active? && info.main.Some? && info.main.value.Truthy() {
        var main := info.main.value;
        md := md["main_section_name" := StrVal(main.name.GetOr(""))];
        md := md["main_section_title" := StrVal(main.title.GetOr(""))];
      }
      if info.Active? && info.sub.Some? && info.sub.value.Truthy() {
        var sub := info.sub.value;
        md := md["subsection_name" := StrVal(sub.name.GetOr(""))];
        md := md["subsection_title" := StrVal(sub.title.GetOr(""))];
      }
    }
  }

  /** The keys of the result dict that `create_metadata_from_result` tests for. */
  function ResultKeys(r: PdfResult): (keys: set<string>)
    ensures "page_number" in keys <==> r.Located?
    ensures "section" in keys <==> r.Located? && r.section.Some?
  {
    match r
    case NotLocated(_) => {}
    case Located(_, _, _, section) => {"page_number"} + (if section.Some? then {"section"} else {})
  }

  /** Every key `create_metadata_from_result` can set. */
  const MetadataKeys: set<string> := {
    "page_number", "hierarchical_section",
    "main_section_name", "main_section_title", "subsection_name", "subsection_title"
  }

  /** One `index.update(id=..., set_metadata=...)` call that the index accepted. */
  datatype Write = Write(id: string, fields: Metadata)

  /**
   * The vector index, seen only through the updates it accepts. Which ids it
   * refuses (the update raising) is fixed when it is opened.
   */
  class Index {
    var log: seq<Write>
    const rejects: set<string>

    constructor(rejects: set<string>)
      ensures this.rejects == rejects && log == []
    {
      this.rejects := rejects;
      log := [];
    }

    /** `index.update`: an accepted update is appended to the log; a refused one changes nothing. */
    method Update(id: string, fields: Metadata) returns (ok: bool)
      modifies this
      ensures ok <==> id !in rejects
      ensures log == old(log) + (if ok then [Write(id, fields)] else [])
    {
      ok := id !in rejects;
      if ok {
        log := log + [Write(id, fields)];
      }
    }
  }

  /**
   * `update_chunk_metadata(index, chunk_id, metadata_updates, dry_run)`: a dry
   * run reports success and leaves the index alone; otherwise the outcome is
   * the index's.
   */
  method UpdateChunkMetadata(index: Index, id: string, updates: Metadata, dryRun: bool) returns (ok: bool)
    modifies index
    ensures ok <==> dryRun || id !in index.rejects
    ensures index.log == old(index.log) + (if !dryRun && ok then [Write(id, updates)] else [])
  {
    if dryRun {
      return true;
    }
    ok := index.Update(id, updates);
  }

  /** A stored chunk: its id and its metadata. */
  datatype Chunk = Chunk(id: string, metadata: Metadata)

  /** `chunk.metadata.get('text', '')` for a text stored as a string. */
  function ChunkText(c: Chunk): string {
    if "text" in c.metadata && c.metadata["text"].StrVal? then c.metadata["text"].s else ""
  }

  /** How `process_chunk` ends before the write, or the updates it writes. */
  datatype Plan = MissingText | NoFragment | CouldNotLocate | NoMetadata | Updates(fields: Metadata)

  /** The decisions of `process_chunk` up to the call that writes the updates. */
  function PlanFor(c: Chunk, pdf: Pdf, rows: seq<Section>): Plan {
    var text := ChunkText(c);
    if text == [] then MissingText
    else
      var fragment := LongestFragment(text);
      if fragment == [] then NoFragment
      else
        var result := LocateInPdf(fragment, pdf, rows);
        if result.NotLocated? then CouldNotLocate
        else
          var md := MetadataFor(result);
          if md == map[] then NoMetadata else Updates(md)
  }

  /**
   * A located fragment always yields a page number to write, so the
   * "no metadata" exit is never taken, and whatever is written holds the page.
   */
  lemma PlanNeverEmpty(c: Chunk, pdf: Pdf, rows: seq<Section>)
    ensures PlanFor(c, pdf, rows) != NoMetadata
    ensures PlanFor(c, pdf, rows).Updates? ==>
      && "page_number" in PlanFor(c, pdf, rows).fields
      && PlanFor(c, pdf, rows).fields.Keys <= MetadataKeys
  {
    var text := ChunkText(c);
    if text != [] && LongestFragment(text) != [] {
      var result := LocateInPdf(LongestFragment(text), pdf, rows);
      if result.Located? {
        assert "page_number" in MetadataFor(result);
      }
    }
  }

  /** Whether `process_chunk` reports success for the chunk `id` whose decisions came to `plan`. */
  predicate Accepted(plan: Plan, id: string, dryRun: bool, rejects: set<string>) {
    plan.Updates? && (dryRun || id !in rejects)
  }

  /** What `process_chunk` adds to the index's log for the chunk `id` whose decisions came to `plan`. */
  function PlanWrites(plan: Plan, id: string, dryRun: bool, rejects: set<string>): seq<Write> {
    if !dryRun && Accepted(plan, id, dryRun, rejects) then [Write(id, plan.fields)] else []
  }

  /** `process_chunk(chunk, index, source_file, dry_run)`, with the filing and its section table as inputs. */
  method ProcessChunk(c: Chunk, index: Index, pdf: Pdf, rows: seq<Section>, dryRun: bool) returns (ok: bool)
    modifies index
    ensures ok == Accepted(PlanFor(c, pdf, rows), c.id, dryRun, index.rejects)
    ensures index.log == old(index.log) + PlanWrites(PlanFor(c, pdf, rows), c.id, dryRun, index.rejects)
  {
    var text := ChunkText(c);
    if text == [] {
      return false;
    }
    var fragment := GetLongestTextFragment(text);
    if fragment == [] {
      return false;
    }
    var result := FindFragmentInPdf(fragment, pdf, rows);
    if result.NotLocated? {
      return false;
    }
    var updates := CreateMetadataFromResult(result);
    if updates == map[] {
      return false;
    }
    ok := UpdateChunkMetadata(index, c.id, updates, dryRun);
  }

  /**
   * `plans` holds the decision `process_chunk` comes to for each of `chunks`.
   * The quantifier is only instantiated where that decision is computed, which
   * keeps the batch loops from unfolding `PlanFor`.
   */
  ghost predicate PlannedAs(chunks: seq<Chunk>, plans: seq<Plan>, pdf: Pdf, rows: seq<Section>) {
    |plans| == |chunks| &&
    forall k {:trigger PlanFor(chunks[k], pdf, rows)} :: 0 <= k < |chunks| ==> plans[k] == PlanFor(chunks[k], pdf, rows)
  }

  /** The decisions `process_chunk` comes to for each of `chunks`. */
  function Plans(chunks: seq<Chunk>, pdf: Pdf, rows: seq<Section>): (plans: seq<Plan>)
    ensures PlannedAs(chunks, plans, pdf, rows)
  {
    seq(|chunks|, k requires 0 <= k < |chunks| => PlanFor(chunks[k], pdf, rows))
  }

  /** There is only one such sequence of decisions. */
  lemma PlannedAsUnique(chunks: seq<Chunk>, plans: seq<Plan>, others: seq<Plan>, pdf: Pdf, rows: seq<Section>)
    requires PlannedAs(chunks, plans, pdf, rows) && PlannedAs(chunks, others, pdf, rows)
    ensures plans == others
  {
    forall k | 0 <= k < |chunks|
      ensures plans[k] == others[k]
    {
      assert plans[k] == PlanFor(chunks[k], pdf, rows);
    }
  }

  /** How many of the first `n` chunks, decided as `plans`, processing reports as successful. */
  function SuccessCount(chunks: seq<Chunk>, plans: seq<Plan>, n: nat, dryRun: bool, rejects: set<string>): (count: nat)
    requires n <= |chunks| == |plans|
    ensures count <= n
  {
    if n == 0 then 0
    else
      SuccessCount(chunks, plans, n - 1, dryRun, rejects)
        + (if Accepted(plans[n - 1], chunks[n - 1].id, dryRun, rejects) then 1 else 0)
  }

  /** What processing the first `n` chunks, decided as `plans`, adds to the index's log, in order. */
  function WritesOf(chunks: seq<Chunk>, plans: seq<Plan>, n: nat, dryRun: bool, rejects: set<string>): seq<Write>
    requires n <= |chunks| == |plans|
  {
    if n == 0 then []
    else WritesOf(chunks, plans, n - 1, dryRun, rejects) + PlanWrites(plans[n - 1], chunks[n - 1].id, dryRun, rejects)
  }

  /** `(n + size - 1) // size` batches of `size` cover the `n` chunks, and the last batch is not empty. */
  lemma BatchCount(n: nat, size: int)
    requires size >= 1
    ensures var t := (n + size - 1) / size;
      t >= 0 && t * size >= n && (t == 0 || (t - 1) * size < n)
  {
    var t := (n + size - 1) / size;
    var r := (n + size - 1) % size;
    assert n + size - 1 == t * size + r;
    assert (t - 1) * size == t * size - size;
  }

  /** A batch that starts before the last one ends starts before the end of the chunks. */
  lemma BatchStart(n: nat, size: int, b: nat)
    requires size >= 1 && b < (n + size - 1) / size
    ensures b * size < n
  {
    var t := (n + size - 1) / size;
    BatchCount(n, size);
    MulLeft(b, t - 1, size);
  }

  /**
   * The batch ends where the next one starts, or at the end of the chunks
   * when it is the last one.
   */
  lemma NextBatch(n: nat, size: int, b: nat)
    requires size >= 1 && b < (n + size - 1) / size
    ensures var end := if b * size + size <= n then b * size + size else n;
      end == if b + 1 < (n + size - 1) / size then (b + 1) * size else n
  {
    BatchCount(n, size);
    assert (b + 1) * size == b * size + size;
    if b + 1 < (n + size - 1) / size {
      BatchStart(n, size, b + 1);
    }
  }

  lemma MulLeft(a: int, c: int, k: nat)
    requires a <= c
    ensures a * k <= c * k
  {
    assert c * k - a * k == (c - a) * k;
  }

  /**
   * `process_chunks_in_batches(chunks, index, source_file, batch_size, dry_run)`:
   * batch after batch of `batch_size` chunks, each chunk processed once, in
   * order. `plans` is the decision `process_chunk` comes to for each chunk, as
   * `Plans` computes it.
   */
  method ProcessChunksInBatches(chunks: seq<Chunk>, index: Index, pdf: Pdf, rows: seq<Section>, batchSize: int, dryRun: bool,
                                ghost plans: seq<Plan>)
    returns (successCount: nat)
    requires batchSize >= 1 && PlannedAs(chunks, plans, pdf, rows)
    modifies index
    ensures successCount == SuccessCount(chunks, plans, |chunks|, dryRun, index.rejects)
    ensures index.log == old(index.log) + WritesOf(chunks, plans, |chunks|, dryRun, index.rejects)
  {
    var total := |chunks|;
    var totalBatches := (total + batchSize - 1) / batchSize;
    BatchCount(total, batchSize);
    successCount := 0;
    ghost var done: nat := 0;
    for batchNum := 0 to totalBatches
      invariant done == if batchNum < totalBatches then batchNum * batchSize else total
      invariant successCount == SuccessCount(chunks, plans, done, dryRun, index.rejects)
      invariant index.log == old(index.log) + WritesOf(chunks, plans, done, dryRun, index.rejects)
    {
      BatchStart(total, batchSize, batchNum);
      var startIdx := batchNum * batchSize;
      var endIdx := if startIdx + batchSize <= total then startIdx + batchSize else total;
      successCount := ProcessBatch(chunks, startIdx, endIdx, successCount, plans, old(index.log), index, pdf, rows, dryRun);
      NextBatch(total, batchSize, batchNum);
      done := endIdx;
    }
  }

  /**
   * The inner loop of `process_chunks_in_batches`: the chunks of the batch
   * `chunks[startIdx:endIdx]` in order, counting successes on from `successCount`.
   * `logBase` is the log as it was before the first batch.
   */
  method ProcessBatch(chunks: seq<Chunk>, startIdx: nat, endIdx: nat, successCount: nat,
                      ghost plans: seq<Plan>, ghost logBase: seq<Write>,
                      index: Index, pdf: Pdf, rows: seq<Section>, dryRun: bool)
    returns (newCount: nat)
    requires startIdx <= endIdx <= |chunks| && PlannedAs(chunks, plans, pdf, rows)
    requires successCount == SuccessCount(chunks, plans, startIdx, dryRun, index.rejects)
    requires index.log == logBase + WritesOf(chunks, plans, startIdx, dryRun, index.rejects)
    modifies index
    ensures newCount == SuccessCount(chunks, plans, endIdx, dryRun, index.rejects)
    ensures index.log == logBase + WritesOf(chunks, plans, endIdx, dryRun, index.rejects)
  {
    newCount := successCount;
    for i := startIdx to endIdx
      invariant newCount == SuccessCount(chunks, plans, i, dryRun, index.rejects)
      invariant index.log == logBase + WritesOf(chunks, plans, i, dryRun, index.rejects)
    {
      var ok := ProcessChunkAt(chunks, i, plans, index, pdf, rows, dryRun);
      if ok {
        newCount := newCount + 1;
      }
      AppendAssoc(logBase, WritesOf(chunks, plans, i, dryRun, index.rejects), PlanWrites(plans[i], chunks[i].id, dryRun, index.rejects));
    }
  }

  /** One step of the inner loop: `process_chunk` on `chunks[i]`, whose decision is `plans[i]`. */
  method ProcessChunkAt(chunks: seq<Chunk>, i: nat, ghost plans: seq<Plan>, index: Index, pdf: Pdf, rows: seq<Section>, dryRun: bool)
    returns (ok: bool)
    requires i < |chunks| && PlannedAs(chunks, plans, pdf, rows)
    modifies index
    ensures ok == Accepted(plans[i], chunks[i].id, dryRun, index.rejects)
    ensures index.log == old(index.log) + PlanWrites(plans[i], chunks[i].id, dryRun, index.rejects)
  {
    ok := ProcessChunk(chunks[i], index, pdf, rows, dryRun);
  }

  lemma AppendAssoc<T>(a: seq<T>, b: seq<T>, c: seq<T>)
    ensures a + (b + c) == (a + b) + c
  {
  }

  /** A dry run writes nothing; otherwise one write is logged per success, each for one of the chunks. */
  lemma {:induction false} WritesMatchCount(chunks: seq<Chunk>, plans: seq<Plan>, n: nat, dryRun: bool, rejects: set<string>)
    requires n <= |chunks| == |plans|
    ensures dryRun ==> WritesOf(chunks, plans, n, dryRun, rejects) == []
    ensures !dryRun ==> |WritesOf(chunks, plans, n, dryRun, rejects)| == SuccessCount(chunks, plans, n, dryRun, rejects)
    ensures forall w :: w in WritesOf(chunks, plans, n, dryRun, rejects) ==>
      exists j :: 0 <= j < n && w.id == chunks[j].id && w.id !in rejects
  {
    if n > 0 {
      WritesMatchCount(chunks, plans, n - 1, dryRun, rejects);
    }
  }

  /** `chunk.metadata.get("page_number")` is truthy: the chunk was enriched before. */
  predicate Enriched(c: Chunk) {
    "page_number" in c.metadata && c.metadata["page_number"].Truthy()
  }

  /** `[chunk for chunk in all_chunks if not chunk.metadata.get("page_number")]` */
  function Unenriched(chunks: seq<Chunk>): (r: seq<Chunk>)
    ensures forall c :: c in r <==> c in chunks && !Enriched(c)
    ensures multiset(r) <= multiset(chunks)
    ensures forall c :: multiset(r)[c] == (if Enriched(c) then 0 else multiset(chunks)[c])
    decreases |chunks|
  {
    if chunks == [] then []
    else
      var init := chunks[..|chunks| - 1];
      var last := chunks[|chunks| - 1];
      assert chunks == init + [last];
      Unenriched(init) + (if Enriched(last) then [] else [last])
  }

  /** The filter keeps the order of the index: filtering a concatenation filters each part. */
  lemma {:induction false} UnenrichedAppend(xs: seq<Chunk>, ys: seq<Chunk>)
    ensures Unenriched(xs + ys) == Unenriched(xs) + Unenriched(ys)
    decreases |ys|
  {
    if ys == [] {
      assert xs + ys == xs;
    } else {
      var init, last := ys[..|ys| - 1], ys[|ys| - 1];
      assert ys == init + [last];
      assert xs + ys == (xs + init) + [last];
      UnenrichedSnoc(xs + init, last);
      UnenrichedSnoc(init, last);
      UnenrichedAppend(xs, init);
      ConcatAssoc(Unenriched(xs), Unenriched(init), if Enriched(last) then [] else [last]);
    }
  }

  /** Filtering a sequence that ends in `x` filters the rest and then `x`. */
  lemma UnenrichedSnoc(s: seq<Chunk>, x: Chunk)
    ensures Unenriched(s + [x]) == Unenriched(s) + (if Enriched(x) then [] else [x])
  {
    var t := s + [x];
    assert t[..|t| - 1] == s;
  }

  /** Regrouping a concatenation of three lists of chunks. */
  lemma ConcatAssoc(a: seq<Chunk>, b: seq<Chunk>, c: seq<Chunk>)
    ensures (a + b) + c == a + (b + c)
  {
  }

  /**
   * `select_chunks_for_processing(all_chunks, count, skip_enriched)`: nothing
   * when there are no candidates, every candidate for `count == -1`, otherwise
   * a random sample of `min(count, len(candidates))` of them (taken here as any
   * such sample), and None where `random.sample` raises for a negative size.
   */
  method SelectChunksForProcessing(allChunks: seq<Chunk>, count: int, skipEnriched: bool) returns (r: Option<seq<Chunk>>)
    ensures var candidates := if skipEnriched then Unenriched(allChunks) else allChunks;
      && (r.None? <==> candidates != [] && count < -1)
      && (candidates == [] ==> r == Some([]))
      && (candidates != [] && count == -1 ==> r == Some(candidates))
      && (candidates != [] && count >= 0 ==> r.Some? && |r.value| == (if count <= |candidates| then count else |candidates|))
      && (r.Some? ==> multiset(r.value) <= multiset(candidates))
    ensures r.Some? ==> forall c :: c in r.value ==> c in allChunks && (skipEnriched ==> !Enriched(c))
  {
    var candidates := if skipEnriched then Unenriched(allChunks) else allChunks;
    CandidatesFrom(allChunks, skipEnriched);
    if candidates == [] {
      return Some([]);
    }
    if count == -1 {
      return Some(candidates);
    }
    var size := if count <= |candidates| then count else |candidates|;
    if size < 0 {
      return None;
    }
    SampleExists(candidates, size);
    var sample :| |sample| == size && multiset(sample) <= multiset(candidates);
    SampleFrom(sample, candidates);
    return Some(sample);
  }

  /** The candidates are chunks of the index, unenriched ones when enriched chunks are skipped. */
  lemma CandidatesFrom(allChunks: seq<Chunk>, skipEnriched: bool)
    ensures var candidates := if skipEnriched then Unenriched(allChunks) else allChunks;
      forall c :: c in candidates ==> c in allChunks && (skipEnriched ==> !Enriched(c))
  {
  }

  /** A sample of any size up to the population exists. */
  lemma SampleExists(candidates: seq<Chunk>, size: nat)
    requires size <= |candidates|
    ensures exists sample: seq<Chunk> :: |sample| == size && multiset(sample) <= multiset(candidates)
  {
    assert candidates == candidates[..size] + candidates[size..];
    assert multiset(candidates[..size]) <= multiset(candidates);
  }

  /** Every element of a sample is drawn from the population. */
  lemma SampleFrom(sample: seq<Chunk>, candidates: seq<Chunk>)
    requires multiset(sample) <= multiset(candidates)
    ensures forall c :: c in sample ==> c in candidates
  {
    forall c | c in sample ensures c in candidates {
      assert c in multiset(sample);
    }
  }
}
