/**
 * The retrieval graph's text utilities: reading the text of a chat message,
 * and rendering retrieved documents as XML blocks whose body ends with a
 * citation ("Page N, section from file") built from the metadata that the
 * enrichment step wrote.
 */
module Citations {
  import opened Wrappers
  import opened PyText
  import opened PyValue

  // ---------------------------------------------------------------------
  // get_message_text
  // ---------------------------------------------------------------------

  /**
   * One item of list content: a bare string, or a dict whose `"text"` entry
   * is read (`None` when the entry is missing or `None`).
   */
  datatype ContentItem = Piece(s: string) | Block(text: Option<string>)

  /** A message's `content`: a string, a dict with an optional `"text"` entry, or a list of items. */
  datatype Content = Plain(s: string) | Dict(text: Option<string>) | Items(items: seq<ContentItem>)

  /** `c if isinstance(c, str) else (c.get("text") or "")`. */
  function ItemText(c: ContentItem): string {
    match c
    case Piece(s) => s
    case Block(t) => t.GetOr("")
  }

  /** `"".join(txts)` over the items' texts. */
  function Concat(items: seq<ContentItem>): string
    decreases |items|
  {
    if items == [] then ""
    else Concat(items[..|items| - 1]) + ItemText(items[|items| - 1])
  }

  /** Concatenating the texts of two lists of items one after the other. */
  lemma {:induction false} ConcatAppend(xs: seq<ContentItem>, ys: seq<ContentItem>)
    ensures Concat(xs + ys) == Concat(xs) + Concat(ys)
    decreases |ys|
  {
    if ys == [] {
      assert xs + ys == xs;
    } else {
      var init := ys[..|ys| - 1];
      ConcatAppend(xs, init);
      assert (xs + ys)[..|xs + ys| - 1] == xs + init;
    }
  }

  /** `get_message_text`: the text of a message's content. */
  function GetMessageText(content: Content): string {
    match content
    case Plain(s) => s
    case Dict(t) => t.GetOr("")
    case Items(items) => Strip(Concat(items))
  }

  /**
   * For list content the text is the items' concatenation with only the
   * whitespace at either end removed, and no whitespace is left at either end.
   */
  lemma ItemsTextIsTrimmed(items: seq<ContentItem>)
    ensures var r := GetMessageText(Items(items));
      r == [] || (!IsSpace(r[0]) && !IsSpace(r[|r| - 1]))
    ensures var r := GetMessageText(Items(items));
      exists a, b :: 0 <= a <= b <= |Concat(items)| && r == Concat(items)[a..b]
        && AllSpace(Concat(items)[..a]) && AllSpace(Concat(items)[b..])
  {
    StripShape(Concat(items));
  }

  /** List content whose concatenation has no whitespace at either end is returned exactly. */
  lemma ItemsTextUnpadded(items: seq<ContentItem>)
    requires Concat(items) == [] || (!IsSpace(Concat(items)[0]) && !IsSpace(Concat(items)[|Concat(items)| - 1]))
    ensures GetMessageText(Items(items)) == Concat(items)
  {
    StripUnpadded(Concat(items));
  }

  /** An item whose text is missing or empty can be dropped without changing the message text. */
  lemma ItemWithoutTextIgnored(items: seq<ContentItem>, i: nat)
    requires i < |items| && ItemText(items[i]) == ""
    ensures GetMessageText(Items(items[..i] + items[i + 1..])) == GetMessageText(Items(items))
  {
    ConcatWithout(items, i);
  }

  lemma ConcatWithout(items: seq<ContentItem>, i: nat)
    requires i < |items| && ItemText(items[i]) == ""
    ensures Concat(items[..i] + items[i + 1..]) == Concat(items)
  {
    var pre, post := items[..i], items[i + 1..];
    assert items == (pre + [items[i]]) + post;
    assert Concat([items[i]]) == "" by {
      assert [items[i]][..0] == [];
    }
    calc {
      Concat(items);
      Concat((pre + [items[i]]) + post);
      { ConcatAppend(pre + [items[i]], post); }
      Concat(pre + [items[i]]) + Concat(post);
      { ConcatAppend(pre, [items[i]]); }
      Concat(pre) + "" + Concat(post);
      { assert Concat(pre) + "" == Concat(pre); }
      Concat(pre) + Concat(post);
      { ConcatAppend(pre, post); }
      Concat(pre + post);
    }
  }

  /** The three examples of the function's documentation. */
  lemma MessageTextExamples()
    ensures GetMessageText(Plain("Hello")) == "Hello"
    ensures GetMessageText(Dict(Some("World"))) == "World"
    ensures GetMessageText(Items([Block(Some("Hello")), Piece(" "), Block(Some("World"))])) == "Hello World"
  {
    HelloWorldItems();
    StripUnpadded("Hello World");
  }

  /** The items of the third example concatenate to "Hello World". Serves only `MessageTextExamples`. */
  lemma HelloWorldItems()
    ensures Concat([Block(Some("Hello")), Piece(" "), Block(Some("World"))]) == "Hello World"
  {
    var a := [Block(Some("Hello"))];
    assert Concat(a) == "Hello" by {
      assert a[..0] == [];
    }
    var ab := a + [Piece(" ")];
    assert Concat(ab) == "Hello" + " " by {
      assert ab[..1] == a;
    }
    var abc := ab + [Block(Some("World"))];
    assert Concat(abc) == "Hello" + " " + "World" by {
      assert abc[..2] == ab;
    }
    assert "Hello" + " " + "World" == "Hello World";
    assert abc == [Block(Some("Hello")), Piece(" "), Block(Some("World"))];
  }

  // ---------------------------------------------------------------------
  // _format_doc
  // ---------------------------------------------------------------------

  /** `path.split('/')[-1]`: what follows the last `/`, or the whole path when it has none. */
  function FileName(path: string): (name: string)
    ensures '/' !in name
    ensures |name| <= |path| && path[|path| - |name|..] == name
    ensures |name| == |path| || path[|path| - |name| - 1] == '/'
    decreases |path|
  {
    if path == [] then ""
    else if path[|path| - 1] == '/' then ""
    else FileName(path[..|path| - 1]) + [path[|path| - 1]]
  }

  /** A name without `/` is its own file name, and it is the file name of any path that ends in `/` and it. */
  lemma {:induction false} FileNameOfPath(dir: string, name: string)
    requires '/' !in name
    ensures FileName(name) == name
    ensures FileName(dir + "/" + name) == name
    decreases |name|
  {
    if name != [] {
      var init := name[..|name| - 1];
      assert '/' !in init by {
        assert forall c :: c in init ==> c in name;
      }
      FileNameOfPath(dir, init);
      assert (dir + "/" + name)[..|dir + "/" + name| - 1] == dir + "/" + init;
      assert name[|name| - 1] in name;
    } else {
      assert dir + "/" + name == dir + "/";
    }
  }

  /** A document's metadata dict, as its items in insertion order. */
  type Metadata = seq<(string, MetaValue)>

  /** A retrieved document: its text and its metadata (`doc.metadata or {}`). */
  datatype Document = Document(pageContent: string, metadata: Metadata)

  /**
   * `metadata.get(key)`: the value of the first item with that key, or `None`
   * when no item has it. (A dict has each key once.)
   */
  function Lookup(md: Metadata, key: string): (r: Option<MetaValue>)
    ensures r.None? <==> forall i :: 0 <= i < |md| ==> md[i].0 != key
    ensures r.Some? ==> exists i :: 0 <= i < |md| && md[i] == (key, r.value)
    decreases |md|
  {
    if md == [] then None
    else if md[0].0 == key then Some(md[0].1)
    else
      var r := Lookup(md[1..], key);
      assert forall i :: 1 <= i < |md| ==> md[i] == md[1..][i - 1];
      r
  }

  /** `if metadata.get(key):` — the key is there with a truthy value. */
  predicate Given(md: Metadata, key: string) {
    var v := Lookup(md, key);
    v.Some? && v.value.Truthy()
  }

  /** The items' XML attributes, `f" {k}={v!r}"` each, where `repr` is Python's `repr`. */
  function Attrs(md: Metadata, repr: MetaValue -> string): (r: string)
    ensures |r| >= 2 * |md|
    ensures md != [] ==> r[0] == ' '
    decreases |md|
  {
    if md == [] then ""
    else Attrs(md[..|md| - 1], repr) + " " + md[|md| - 1].0 + "=" + repr(md[|md| - 1].1)
  }

  /** `meta`: the attributes, with one more leading space when there are any. */
  function MetaText(md: Metadata, repr: MetaValue -> string): string {
    var meta := Attrs(md, repr);
    if meta != [] then " " + meta else meta
  }

  /**
   * `citation_parts`: `"Page N"` for a truthy page number, then a truthy
   * section; `None` when that section is not a string, which makes the
   * `", ".join` raise `TypeError`.
   */
  function CitationParts(md: Metadata): Option<seq<string>> {
    var pagePart := if Given(md, "page_number") then ["Page " + Str(Lookup(md, "page_number").value)] else [];
    if !Given(md, "hierarchical_section") then Some(pagePart)
    else match Lookup(md, "hierarchical_section").value
      case StrVal(section) => Some(pagePart + [section])
      case IntVal(_) => None
  }

  /**
   * The file the citation names: the last path component of `source_file`, or
   * `"document"` when it is missing or empty; `None` when it is not a string,
   * which makes `split` raise `AttributeError`.
   */
  function CitedFile(md: Metadata): Option<string> {
    var source := Lookup(md, "source_file").GetOr(StrVal(""));
    if !source.Truthy() then Some("document")
    else match source
      case StrVal(path) => Some(FileName(path))
      case IntVal(_) => None
  }

  /** The block's body: `page_content`, followed by the citation when there is one. */
  function Body(doc: Document): Option<string> {
    match CitationParts(doc.metadata)
    case None => None
    case Some(parts) =>
      if parts == [] then Some(doc.pageContent)
      else match CitedFile(doc.metadata)
        case None => None
        case Some(file) => Some(doc.pageContent + CitationSuffix(parts, file))
  }

  /** The citation appended to the content: a blank line, then `[Citation: <parts joined by ", "> from <file>]`. */
  function CitationSuffix(parts: seq<string>, file: string): string {
    "\n\n[Citation: " + Join(", ", parts) + " from " + file + "]"
  }

  /** What `_format_doc(doc)` returns, or `None` when it raises. */
  function FormattedDoc(doc: Document, repr: MetaValue -> string): Option<string> {
    match Body(doc)
    case None => None
    case Some(body) => Some("<document" + MetaText(doc.metadata, repr) + ">\n" + body + "\n</document>")
  }

  /**
   * `_format_doc`: collects the citation parts, builds the attributes item by
   * item, appends the citation to the content when there is one, and wraps
   * the result in a `<document>` element; `None` when it raises.
   */
  method FormatDoc(doc: Document, repr: MetaValue -> string) returns (r: Option<string>)
    ensures r == FormattedDoc(doc, repr)
  {
    var metadata := doc.metadata;
    var pageNumber := Lookup(metadata, "page_number");
    var section := Lookup(metadata, "hierarchical_section");
    var sourceFile := Lookup(metadata, "source_file").GetOr(StrVal(""));

    var citationParts: seq<string> := [];
    if pageNumber.Some? && pageNumber.value.Truthy() {
      citationParts := citationParts + ["Page " + Str(pageNumber.value)];
    }
    if section.Some? && section.value.Truthy() {
      // A section that is not a string makes the join below raise; nothing
      // observable happens in between.
      if !section.value.StrVal? {
        return None;
      }
      citationParts := citationParts + [section.value.s];
    }

    var meta: string := "";
    for i := 0 to |metadata|
      invariant meta == Attrs(metadata[..i], repr)
    {
      assert metadata[..i + 1][..i] == metadata[..i];
      var (k, v) := metadata[i];
      meta := meta + " " + k + "=" + repr(v);
    }
    assert metadata[..|metadata|] == metadata;
    if meta != [] {
      meta := " " + meta;
    }

    var content := doc.pageContent;
    if citationParts != [] {
      var citationText := Join(", ", citationParts);
      var fileName: string;
      if sourceFile.Truthy() {
        if !sourceFile.StrVal? {
          return None;
        }
        fileName := FileName(sourceFile.s);
      } else {
        fileName := "document";
      }
      content := doc.pageContent + ("\n\n[Citation: " + citationText + " from " + fileName + "]");
    }
    r := Some("<document" + meta + ">\n" + content + "\n</document>");
  }

  /**
   * Formatting raises exactly when a truthy section is not a string, or when
   * there is a citation and a truthy `source_file` is not a string.
   */
  lemma FormatDocFailsIff(doc: Document, repr: MetaValue -> string)
    ensures FormattedDoc(doc, repr).None? <==>
      || (Given(doc.metadata, "hierarchical_section") && Lookup(doc.metadata, "hierarchical_section").value.IntVal?)
      || ((Given(doc.metadata, "page_number") || Given(doc.metadata, "hierarchical_section"))
          && Given(doc.metadata, "source_file") && Lookup(doc.metadata, "source_file").value.IntVal?)
  {
  }

  /**
   * A formatted document opens with its attributes and then its content
   * verbatim, and closes the element.
   */
  lemma FormatDocKeepsContent(doc: Document, repr: MetaValue -> string)
    requires FormattedDoc(doc, repr).Some?
    ensures "<document" + MetaText(doc.metadata, repr) + ">\n" + doc.pageContent <= FormattedDoc(doc, repr).value
    ensures var r := FormattedDoc(doc, repr).value;
      |r| >= 12 && r[|r| - 12..] == "\n</document>"
  {
    var head := "<document" + MetaText(doc.metadata, repr) + ">\n";
    var body := Body(doc).value;
    assert doc.pageContent <= body;
    assert FormattedDoc(doc, repr).value == head + body + "\n</document>";
  }

  /** Without a truthy page number or section the content is left as it is. */
  lemma FormatDocWithoutCitation(doc: Document, repr: MetaValue -> string)
    requires !Given(doc.metadata, "page_number") && !Given(doc.metadata, "hierarchical_section")
    ensures FormattedDoc(doc, repr) == Some("<document" + MetaText(doc.metadata, repr) + ">\n" + doc.pageContent + "\n</document>")
    ensures doc.metadata == [] ==> FormattedDoc(doc, repr) == Some("<document>\n" + doc.pageContent + "\n</document>")
  {
    if doc.metadata == [] {
      assert MetaText(doc.metadata, repr) == [];
      assert "<document" + [] + ">\n" == "<document>\n";
    }
  }

  /** With metadata the attributes follow the tag name after two spaces. */
  lemma MetaTextStartsWithTwoSpaces(md: Metadata, repr: MetaValue -> string)
    requires md != []
    ensures |MetaText(md, repr)| >= 3 && MetaText(md, repr)[..2] == "  "
  {
  }

  /**
   * A page number, a section and a source path give the citation
   * `"Page N, <section> from <file name>"` after the content.
   */
  lemma FormatDocFullCitation(doc: Document, page: MetaValue, section: string, path: string)
    requires Lookup(doc.metadata, "page_number") == Some(page) && page.Truthy()
    requires Lookup(doc.metadata, "hierarchical_section") == Some(StrVal(section)) && section != ""
    requires Lookup(doc.metadata, "source_file") == Some(StrVal(path)) && path != ""
    ensures Body(doc) == Some(doc.pageContent + CitationSuffix(["Page " + Str(page), section], FileName(path)))
    ensures Join(", ", ["Page " + Str(page), section]) == "Page " + Str(page) + ", " + section
  {
    var md := doc.metadata;
    var pagePart := "Page " + Str(page);
    assert Given(md, "page_number") && Given(md, "hierarchical_section");
    assert CitationParts(md) == Some([pagePart] + [section]);
    assert [pagePart] + [section] == [pagePart, section];
    assert CitedFile(md) == Some(FileName(path));
    JoinTwo(", ", pagePart, section);
  }

  /** `sep.join([a, b])`. */
  lemma JoinTwo(sep: string, a: string, b: string)
    ensures Join(sep, [a, b]) == a + sep + b
  {
    assert [a, b][1..] == [b];
  }

  /** A page number alone, with no source file, is cited from `"document"`. */
  lemma FormatDocPageOnly(doc: Document, page: MetaValue)
    requires Lookup(doc.metadata, "page_number") == Some(page) && page.Truthy()
    requires !Given(doc.metadata, "hierarchical_section") && !Given(doc.metadata, "source_file")
    ensures Body(doc) == Some(doc.pageContent + CitationSuffix(["Page " + Str(page)], "document"))
  {
    var md := doc.metadata;
    assert Given(md, "page_number");
    assert CitationParts(md) == Some(["Page " + Str(page)]);
    assert CitedFile(md) == Some("document");
  }

  // ---------------------------------------------------------------------
  // format_docs
  // ---------------------------------------------------------------------

  /**
   * `(f(x) for x in xs)` consumed in order: every result, or `None` as soon as
   * one call raises.
   */
  function MapAll<A, B>(f: A -> Option<B>, xs: seq<A>): Option<seq<B>>
    decreases |xs|
  {
    if xs == [] then Some([])
    else match MapAll(f, xs[..|xs| - 1])
      case None => None
      case Some(init) =>
        match f(xs[|xs| - 1])
        case None => None
        case Some(y) => Some(init + [y])
  }

  /** Mapping over two inputs. Serves only the proof of `FormatDocsExamples`. */
  lemma MapAllTwo<A, B>(f: A -> Option<B>, a: A, b: A)
    requires f(a).Some? && f(b).Some?
    ensures MapAll(f, [a, b]) == Some([f(a).value, f(b).value])
  {
    assert MapAll(f, [a]) == Some([f(a).value]) by {
      assert [a][..0] == [];
      assert MapAll(f, []) == Some([]);
      assert [] + [f(a).value] == [f(a).value];
    }
    assert [a, b][..1] == [a];
    assert [f(a).value] + [f(b).value] == [f(a).value, f(b).value];
  }

  /** The results are the calls' own results, one per input and in input order; it fails exactly when one call fails. */
  lemma {:induction false} MapAllSpec<A, B>(f: A -> Option<B>, xs: seq<A>)
    ensures MapAll(f, xs).None? <==> exists i :: 0 <= i < |xs| && f(xs[i]).None?
    ensures MapAll(f, xs).Some? ==>
      |MapAll(f, xs).value| == |xs| && forall i :: 0 <= i < |xs| ==> f(xs[i]) == Some(MapAll(f, xs).value[i])
    decreases |xs|
  {
    if xs != [] {
      var init := xs[..|xs| - 1];
      MapAllSpec(f, init);
      assert forall i :: 0 <= i < |init| ==> init[i] == xs[i];
    }
  }

  /** `format_docs(docs)`, or `None` when formatting one of the documents raises. */
  function FormatDocs(docs: Option<seq<Document>>, repr: MetaValue -> string): Option<string> {
    if docs.None? || docs.value == [] then Some("<documents></documents>")
    else match MapAll(d => FormattedDoc(d, repr), docs.value)
      case None => None
      case Some(blocks) => Some("<documents>\n" + Join("\n", blocks) + "\n</documents>")
  }

  /**
   * No documents give an empty `<documents>` element; otherwise the element
   * holds every document's block, in input order and one per line, and
   * formatting fails exactly when one document does.
   */
  lemma FormatDocsLayout(docs: Option<seq<Document>>, repr: MetaValue -> string)
    ensures docs.None? || docs.value == [] ==> FormatDocs(docs, repr) == Some("<documents></documents>")
    ensures docs.Some? ==>
      (FormatDocs(docs, repr).None? <==> exists i :: 0 <= i < |docs.value| && FormattedDoc(docs.value[i], repr).None?)
    ensures docs.Some? && docs.value != [] && FormatDocs(docs, repr).Some? ==>
      exists blocks: seq<string> ::
        && |blocks| == |docs.value|
        && (forall i :: 0 <= i < |blocks| ==> FormattedDoc(docs.value[i], repr) == Some(blocks[i]))
        && FormatDocs(docs, repr) == Some("<documents>\n" + Join("\n", blocks) + "\n</documents>")
  {
    if docs.Some? {
      MapAllSpec(d => FormattedDoc(d, repr), docs.value);
    }
  }

  /** Every document's block occurs in the formatted result. */
  lemma FormatDocsContainsEach(docs: seq<Document>, repr: MetaValue -> string, i: nat)
    requires i < |docs| && FormatDocs(Some(docs), repr).Some?
    ensures FormattedDoc(docs[i], repr).Some? && Occurs(FormattedDoc(docs[i], repr).value, FormatDocs(Some(docs), repr).value)
  {
    MapAllSpec(d => FormattedDoc(d, repr), docs);
    var blocks := MapAll(d => FormattedDoc(d, repr), docs).value;
    JoinContains("\n", blocks, i);
    OccursInside(blocks[i], "<documents>\n", Join("\n", blocks), "\n</documents>");
  }

  /** The two examples of the function's documentation. */
  lemma FormatDocsExamples(repr: MetaValue -> string)
    ensures FormatDocs(Some([Document("Hello", []), Document("World", [])]), repr)
      == Some("<documents>\n"
        + "<document>\n" + "Hello" + "\n</document>" + "\n"
        + "<document>\n" + "World" + "\n</document>"
        + "\n</documents>")
    ensures FormatDocs(None, repr) == Some("<documents></documents>")
  {
    var hello := "<document>\n" + "Hello" + "\n</document>";
    var world := "<document>\n" + "World" + "\n</document>";
    HelloWorldBlocks(repr);
    JoinTwo("\n", hello, world);
    FlattenTwoBlocks("<documents>\n", "<document>\n", "Hello", "\n</document>", "\n", "World", "\n</documents>");
  }

  /** Regrouping the concatenation of two blocks. Serves only `FormatDocsExamples`. */
  lemma FlattenTwoBlocks(p: string, open: string, a: string, close: string, sep: string, b: string, q: string)
    ensures p + ((open + a + close) + sep + (open + b + close)) + q == p + open + a + close + sep + open + b + close + q
  {
  }

  /** The blocks of the two documents of the example. Serves only `FormatDocsExamples`. */
  lemma HelloWorldBlocks(repr: MetaValue -> string)
    ensures MapAll(d => FormattedDoc(d, repr), [Document("Hello", []), Document("World", [])])
      == Some(["<document>\n" + "Hello" + "\n</document>", "<document>\n" + "World" + "\n</document>"])
  {
    var docs := [Document("Hello", []), Document("World", [])];
    FormatDocWithoutCitation(docs[0], repr);
    FormatDocWithoutCitation(docs[1], repr);
    MapAllTwo(d => FormattedDoc(d, repr), docs[0], docs[1]);
  }
}
