/**
 * Page markers in the document text. The text of a filing is built by writing
 * `"\n--- PAGE k ---\n"` before the text of page k; `extract_page_number` reads
 * the page of an offset back from the last marker that precedes it.
 */
module PageMarkers {
  import opened Wrappers
  import opened Decimal
  import opened PyText

  const MarkerHead: string := "--- PAGE "
  const MarkerTail: string := " ---"

  /** The marker written for page `n`: `f"--- PAGE {n} ---"`. */
  function MarkerText(n: nat): string {
    MarkerHead + NatToString(n) + MarkerTail
  }

  /** Length of the run of digits starting at `i` (what greedy `\d+` consumes). */
  function DigitRun(s: string, i: nat): (k: nat)
    requires i <= |s|
    ensures i + k <= |s|
    ensures forall j :: i <= j < i + k ==> IsDigit(s[j])
    ensures i + k == |s| || !IsDigit(s[i + k])
    decreases |s| - i
  {
    if i < |s| && IsDigit(s[i]) then 1 + DigitRun(s, i + 1) else 0
  }

  /** One match of the pattern `--- PAGE (\d+) ---`: its length and the page it names. */
  datatype Marker = Marker(len: nat, page: nat)

  predicate HeadAt(s: string, i: nat) {
    i + 9 <= |s| && s[i..i + 9] == MarkerHead
  }

  predicate TailAt(s: string, j: nat) {
    j + 4 <= |s| && s[j..j + 4] == MarkerTail
  }

  /** The match of `--- PAGE (\d+) ---` that starts exactly at `i`, if any. */
  function MarkerAt(s: string, i: nat): (m: Option<Marker>)
    requires i <= |s|
    ensures m.Some? ==> 14 <= m.value.len && i + m.value.len <= |s|
  {
    if HeadAt(s, i) then
      var k := DigitRun(s, i + 9);
      if 1 <= k && TailAt(s, i + 9 + k)
      then Some(Marker(13 + k, DigitsValue(s[i + 9..i + 9 + k])))
      else None
    else None
  }

  /**
   * `re.findall(r'--- PAGE (\d+) ---', s[i:])` as page numbers: matches are found
   * left to right and never overlap, so the scan resumes after each match.
   */
  function MarkersFrom(s: string, i: nat): seq<nat>
    requires i <= |s|
    decreases |s| - i
  {
    if i == |s| then []
    else
      match MarkerAt(s, i)
      case Some(m) => [m.page] + MarkersFrom(s, i + m.len)
      case None => MarkersFrom(s, i + 1)
  }

  /** All page markers of `s`, in order. */
  function FindAllMarkers(s: string): seq<nat> {
    MarkersFrom(s, 0)
  }

  /**
   * `extract_page_number(text, position)`: the page named by the last marker
   * lying wholly inside `text[:position]`, or 1 when there is none.
   */
  function ExtractPageNumber(text: string, position: nat): nat {
    var found := FindAllMarkers(text[..Min(position, |text|)]);
    if found == [] then 1 else found[|found| - 1]
  }

  ghost predicate IsPrefix(a: seq<nat>, b: seq<nat>) {
    |a| <= |b| && a == b[..|a|]
  }

  ghost predicate Sorted(a: seq<nat>) {
    forall i, j :: 0 <= i <= j < |a| ==> a[i] <= a[j]
  }

  /** A digit run that ends before the cut is the same in the whole text. */
  lemma {:induction false} DigitRunAgree(v: string, u: string, i: nat)
    requires |u| <= |v| && u == v[..|u|] && i <= |u|
    requires i + DigitRun(u, i) < |u|
    ensures DigitRun(v, i) == DigitRun(u, i)
    decreases |u| - i
  {
    if IsDigit(u[i]) {
      DigitRunAgree(v, u, i + 1);
    }
  }

  lemma SliceOfPrefix(v: string, u: string, a: nat, b: nat)
    requires |u| <= |v| && u == v[..|u|] && a <= b <= |u|
    ensures u[a..b] == v[a..b]
  {
  }

  lemma SliceOfSlice(s: string, a: nat, b: nat, c: nat, e: nat)
    requires a <= b <= |s| && c <= e <= b - a
    ensures s[a..b][c..e] == s[a + c..a + e]
  {
    forall j | 0 <= j < e - c
      ensures s[a..b][c..e][j] == s[a + c..a + e][j]
    {
      assert s[a..b][c + j] == s[a + c + j];
    }
  }

  /** A marker in a prefix is a marker of the whole text. */
  lemma MarkerAtExtends(v: string, u: string, i: nat)
    requires |u| <= |v| && u == v[..|u|] && i <= |u|
    requires MarkerAt(u, i).Some?
    ensures MarkerAt(v, i) == MarkerAt(u, i)
  {
    var k := DigitRun(u, i + 9);
    assert HeadAt(u, i) && 1 <= k && TailAt(u, i + 9 + k);
    assert HeadAt(v, i) by {
      SliceOfPrefix(v, u, i, i + 9);
    }
    assert DigitRun(v, i + 9) == k by {
      DigitRunAgree(v, u, i + 9);
    }
    assert TailAt(v, i + 9 + k) by {
      SliceOfPrefix(v, u, i + 9 + k, i + 13 + k);
    }
    SliceOfPrefix(v, u, i + 9, i + 9 + k);
  }

  /** A marker of the whole text that fits in a prefix is a marker of the prefix. */
  lemma MarkerAtRestricts(v: string, u: string, i: nat)
    requires |u| <= |v| && u == v[..|u|] && i <= |u|
    requires MarkerAt(v, i).Some? && i + MarkerAt(v, i).value.len <= |u|
    ensures MarkerAt(u, i) == MarkerAt(v, i)
  {
    var k := DigitRun(v, i + 9);
    SliceOfPrefix(v, u, i, i + 9);
    assert v[i + 9 + k] == ' ' by {
      assert v[i + 9 + k..i + 13 + k] == MarkerTail;
    }
    forall j | i + 9 <= j < i + 9 + k ensures IsDigit(u[j]) {
      assert u[j] == v[j];
    }
    DigitRunUpTo(u, i + 9, k);
    SliceOfPrefix(v, u, i + 9 + k, i + 13 + k);
    SliceOfPrefix(v, u, i + 9, i + 9 + k);
  }

  /** The digit run is pinned down by its digits and the non-digit after them. */
  lemma {:induction false} DigitRunUpTo(s: string, i: nat, k: nat)
    requires i + k < |s|
    requires forall j :: i <= j < i + k ==> IsDigit(s[j])
    requires !IsDigit(s[i + k])
    ensures DigitRun(s, i) == k
    decreases k
  {
    if k > 0 {
      DigitRunUpTo(s, i + 1, k - 1);
    }
  }

  /**
   * A cut inside a marker leaves no marker after the marker's start: the only
   * dashes inside `--- PAGE n ---` are its first three and its last three.
   */
  lemma {:induction false} NoMarkerInsideCut(v: string, u: string, i: nat, j: nat)
    requires |u| <= |v| && u == v[..|u|] && i < |u|
    requires MarkerAt(v, i).Some? && |u| < i + MarkerAt(v, i).value.len
    requires i < j <= |u|
    ensures MarkersFrom(u, j) == []
    decreases |u| - j
  {
    if j < |u| {
      NoMarkerInsideCut(v, u, i, j + 1);
    }
  }

  /** The markers found in a prefix of the text are a prefix of those found in the whole. */
  lemma {:induction false} MarkersOfPrefix(v: string, u: string, i: nat)
    requires |u| <= |v| && u == v[..|u|] && i <= |u|
    ensures IsPrefix(MarkersFrom(u, i), MarkersFrom(v, i))
    decreases |u| - i
  {
    if i < |u| {
      if MarkerAt(u, i).Some? {
        MarkerAtExtends(v, u, i);
        MarkersOfPrefix(v, u, i + MarkerAt(u, i).value.len);
      } else if MarkerAt(v, i).Some? && i + MarkerAt(v, i).value.len <= |u| {
        MarkerAtRestricts(v, u, i);
      } else if MarkerAt(v, i).Some? {
        NoMarkerInsideCut(v, u, i, i + 1);
      } else {
        MarkersOfPrefix(v, u, i + 1);
      }
    }
  }

  /**
   * When the markers of the text are non-decreasing page numbers of at least 1,
   * `extract_page_number` is non-decreasing in the offset.
   */
  lemma PageNumberMonotone(text: string, p: nat, q: nat)
    requires p <= q
    requires Sorted(FindAllMarkers(text))
    requires forall k :: 0 <= k < |FindAllMarkers(text)| ==> FindAllMarkers(text)[k] >= 1
    ensures ExtractPageNumber(text, p) <= ExtractPageNumber(text, q)
  {
    var a := Min(p, |text|);
    var b := Min(q, |text|);
    var all := FindAllMarkers(text);
    var ma := FindAllMarkers(text[..a]);
    var mb := FindAllMarkers(text[..b]);
    assert text[..b][..a] == text[..a];
    MarkersOfPrefix(text[..b], text[..a], 0);
    assert text[..b] == text[..|text[..b]|];
    MarkersOfPrefix(text, text[..b], 0);
    if mb != [] {
      assert mb[|mb| - 1] == all[|mb| - 1];
      if ma != [] {
        assert ma[|ma| - 1] == all[|ma| - 1];
      }
    }
  }

  /** The marker written for page `n` is read back as a match naming page `n`. */
  lemma MarkerRoundTrip(n: nat, s: string, i: nat)
    requires OccursAt(MarkerText(n), s, i)
    ensures MarkerAt(s, i) == Some(Marker(|MarkerText(n)|, n))
  {
    MarkerPieces(n, s, i);
    DigitRunUpTo(s, i + 9, |NatToString(n)|);
    ParseRender(n);
  }

  /** An occurrence of the marker for page `n` consists of the head, the digits of `n`, and the tail. */
  lemma MarkerPieces(n: nat, s: string, i: nat)
    requires OccursAt(MarkerText(n), s, i)
    ensures var k := |NatToString(n)|;
      && i + 13 + k <= |s|
      && s[i..i + 9] == MarkerHead
      && s[i + 9..i + 9 + k] == NatToString(n)
      && s[i + 9 + k..i + 13 + k] == MarkerTail
      && (forall j :: i + 9 <= j < i + 9 + k ==> IsDigit(s[j]))
      && !IsDigit(s[i + 9 + k])
  {
    var d := NatToString(n);
    var k := |d|;
    var u := s[i..i + |MarkerText(n)|];
    SplitMarker(u, d);
    SliceOfSlice(s, i, i + 13 + k, 0, 9);
    SliceOfSlice(s, i, i + 13 + k, 9, 9 + k);
    SliceOfSlice(s, i, i + 13 + k, 9 + k, 13 + k);
    DigitsAt(s, i + 9, d);
    assert s[i + 9 + k] == s[i + 9 + k..i + 13 + k][0];
  }

  /** The three parts of a marker text. */
  lemma SplitMarker(u: string, d: string)
    requires u == MarkerHead + d + MarkerTail
    ensures |u| == 13 + |d|
    ensures u[..9] == MarkerHead && u[9..9 + |d|] == d && u[9 + |d|..] == MarkerTail
  {
  }

  /** The characters of a slice equal to a digit string are digits. */
  lemma DigitsAt(s: string, a: nat, d: string)
    requires a + |d| <= |s| && s[a..a + |d|] == d && AllDigits(d)
    ensures forall j :: a <= j < a + |d| ==> IsDigit(s[j])
  {
    forall j | a <= j < a + |d| ensures IsDigit(s[j]) {
      assert s[j] == s[a..a + |d|][j - a];
    }
  }

  /** One page of the document text: `f"\n--- PAGE {n} ---\n{text}"`. */
  function PageBlock(n: nat, text: string): string {
    "\n" + MarkerText(n) + "\n" + text
  }

  /** The document text built from its pages, numbered from 1. */
  function FullText(pages: seq<string>): string
    decreases |pages|
  {
    if pages == [] then []
    else FullText(pages[..|pages| - 1]) + PageBlock(|pages|, pages[|pages| - 1])
  }

  /** Building the document text page by page, as the page loop does. */
  method BuildFullText(pages: seq<string>) returns (full: string)
    ensures full == FullText(pages)
  {
    full := "";
    for k := 0 to |pages|
      invariant full == FullText(pages[..k])
    {
      assert pages[..k + 1][..k] == pages[..k];
      full := full + PageBlock(k + 1, pages[k]);
    }
    assert pages[..|pages|] == pages;
  }

  /** The text of the first pages is a prefix of the text of all pages. */
  lemma {:induction false} FullTextPrefix(pages: seq<string>, k: nat)
    requires k < |pages|
    ensures IsTextPrefix(FullText(pages[..k]) + PageBlock(k + 1, pages[k]), FullText(pages))
    decreases |pages|
  {
    var init := pages[..|pages| - 1];
    if k == |pages| - 1 {
      assert pages[..k] == init;
    } else {
      assert init[..k] == pages[..k] && init[k] == pages[k];
      FullTextPrefix(init, k);
      var a := FullText(pages[..k]) + PageBlock(k + 1, pages[k]);
      var b := FullText(init);
      assert FullText(pages)[..|b|] == b;
      assert FullText(pages)[..|a|] == b[..|a|];
    }
  }

  ghost predicate IsTextPrefix(a: string, b: string) {
    |a| <= |b| && a == b[..|a|]
  }

  /**
   * Page `k + 1` of the document text opens with a marker, one character after
   * the text of the pages before it, that reads back as page `k + 1`.
   */
  lemma PageMarkerInFullText(pages: seq<string>, k: nat)
    requires k < |pages|
    ensures |FullText(pages[..k])| < |FullText(pages)|
    ensures MarkerAt(FullText(pages), |FullText(pages[..k])| + 1) == Some(Marker(|MarkerText(k + 1)|, k + 1))
  {
    var pre := FullText(pages[..k]);
    var block := PageBlock(k + 1, pages[k]);
    FullTextPrefix(pages, k);
    MarkerInBlock(pre, k + 1, pages[k]);
    MarkerAtExtends(FullText(pages), pre + block, |pre| + 1);
  }

  /** The marker text is already in the shape `clean_text` produces, so cleaning leaves it whole. */
  lemma MarkerTextIsNormal(n: nat)
    ensures MarkerText(n) != [] && IsNormal(MarkerText(n))
  {
    var d := NatToString(n);
    var w := MarkerText(n);
    var k := |d|;
    SplitMarker(w, d);
    assert w[0] == w[..9][0] == '-';
    assert w[|w| - 1] == w[9 + k..][3] == '-';
    assert forall i :: 9 <= i < 9 + k ==> w[i] == d[i - 9];
    forall i | 0 <= i < |w| && IsSpace(w[i])
      ensures w[i] == ' ' && (i + 1 < |w| ==> !IsSpace(w[i + 1]))
    {
      if i < 9 {
        assert w[i] == MarkerHead[i];
        assert i == 3 || i == 8;
        if i == 3 {
          assert w[i + 1] == MarkerHead[4];
        } else {
          assert w[i + 1] == d[0];
        }
      } else {
        assert w[i] == MarkerTail[i - 9 - k];
        assert i == 9 + k;
        assert w[i + 1] == MarkerTail[1];
      }
    }
  }

  /** The document text around the marker of page `k + 1`. */
  lemma FullTextAroundMarker(pages: seq<string>, k: nat) returns (before: string, after: string)
    requires k < |pages|
    ensures FullText(pages) == before + MarkerText(k + 1) + after
  {
    var full := FullText(pages);
    var pre := FullText(pages[..k]);
    var head := pre + PageBlock(k + 1, pages[k]);
    FullTextPrefix(pages, k);
    var rest := full[|head|..];
    assert full == head + rest;
    before, after := pre + "\n", "\n" + pages[k] + rest;
    assert head == before + MarkerText(k + 1) + ("\n" + pages[k]);
  }

  /**
   * The marker of every page is still in the document text after `clean_text`,
   * which is the text `extract_page_number` reads, and it reads back as that page.
   */
  lemma PageMarkerInCleanText(pages: seq<string>, k: nat)
    requires k < |pages|
    ensures exists i: nat ::
              && OccursAt(MarkerText(k + 1), CleanText(FullText(pages)), i)
              && MarkerAt(CleanText(FullText(pages)), i) == Some(Marker(|MarkerText(k + 1)|, k + 1))
  {
    var w := MarkerText(k + 1);
    var before, after := FullTextAroundMarker(pages, k);
    MarkerTextIsNormal(k + 1);
    NormalSurvivesClean(before, w, after);
    var clean := CleanText(FullText(pages));
    var i: nat :| OccursAt(w, clean, i);
    MarkerRoundTrip(k + 1, clean, i);
  }

  /** The marker of a page block, after any text, reads back as that page. */
  lemma MarkerInBlock(pre: string, n: nat, text: string)
    ensures MarkerAt(pre + PageBlock(n, text), |pre| + 1) == Some(Marker(|MarkerText(n)|, n))
  {
    var w := MarkerText(n);
    assert pre + PageBlock(n, text) == (pre + "\n") + w + ("\n" + text);
    OccursInMiddle(pre + "\n", w, "\n" + text);
    MarkerRoundTrip(n, pre + PageBlock(n, text), |pre| + 1);
  }

  lemma OccursInMiddle(a: string, w: string, b: string)
    ensures OccursAt(w, a + w + b, |a|)
  {
    assert (a + w + b)[|a|..|a| + |w|] == w;
  }

}
