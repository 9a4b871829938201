/**
 * The matching step of `find_fragment_in_pdf`, shared by the enrichment script
 * and the paragraph finder: an exact substring match of the normalised
 * fragment in the normalised document, else the longest leading run of its
 * words that occurs, and a context window around what matched.
 */
module Locator {
  import opened Wrappers
  import opened PyText

  /** An exact hit, or a hit on the first `matchedWords` words only. */
  datatype MatchKind = Exact | Partial(matchedWords: nat)

  /** Where the match lies in the document: `text[start:end]`. */
  datatype Span = Span(kind: MatchKind, start: nat, end: nat)

  /** `pat in s`. */
  function Contains(pat: string, s: string): (b: bool)
    ensures b <==> Occurs(pat, s)
  {
    Find(pat, s) != -1
  }

  /** `" ".join(words[:i])` */
  function PrefixText(words: seq<string>, i: nat): string
    requires i <= |words|
  {
    Join(" ", words[..i])
  }

  /**
   * The downward loop `for i in range(n, 0, -1)`: the largest `i` in `1..n`
   * whose first `i` words, joined by spaces, occur in the document.
   */
  function PrefixSearch(words: seq<string>, text: string, n: nat): (r: Option<nat>)
    requires n <= |words|
    ensures r.Some? ==> 1 <= r.value <= n && Occurs(PrefixText(words, r.value), text)
    ensures r.Some? ==> forall k :: r.value < k <= n ==> !Occurs(PrefixText(words, k), text)
    ensures r.None? <==> forall k :: 1 <= k <= n ==> !Occurs(PrefixText(words, k), text)
    decreases n
  {
    if n == 0 then None
    else if Contains(PrefixText(words, n), text) then Some(n)
    else PrefixSearch(words, text, n - 1)
  }

  /** The span found for a normalised fragment in the normalised document, or None. */
  function LocateSpan(fragment: string, text: string): (r: Option<Span>)
    ensures r.Some? ==> r.value.start <= r.value.end <= |text|
  {
    if Contains(fragment, text) then
      var p := Find(fragment, text);
      Some(Span(Exact, p, p + |fragment|))
    else
      var words := Words(fragment);
      match PrefixSearch(words, text, |words|)
      case None => None
      case Some(i) =>
        var partial := PrefixText(words, i);
        var q := Find(partial, text);
        Some(Span(Partial(i), q, q + |partial|))
  }

  /** The matching step as the source writes it: the exact test, then the downward loop with an early return. */
  method LocateInText(fragment: string, text: string) returns (r: Option<Span>)
    ensures r == LocateSpan(fragment, text)
  {
    if Contains(fragment, text) {
      var start := Find(fragment, text);
      return Some(Span(Exact, start, start + |fragment|));
    }
    var words := Words(fragment);
    var i: nat := |words|;
    while i > 0
      invariant i <= |words|
      invariant PrefixSearch(words, text, |words|) == PrefixSearch(words, text, i)
      decreases i
    {
      var partial := PrefixText(words, i);
      if Contains(partial, text) {
        var partialStart := Find(partial, text);
        LocateSpanPartial(fragment, text, i);
        return Some(Span(Partial(i), partialStart, partialStart + |partial|));
      }
      i := i - 1;
    }
    LocateSpanNone(fragment, text);
    return None;
  }

  lemma LocateSpanPartial(fragment: string, text: string, i: nat)
    requires !Occurs(fragment, text) && i <= |Words(fragment)|
    requires PrefixSearch(Words(fragment), text, |Words(fragment)|) == PrefixSearch(Words(fragment), text, i)
    requires i > 0 && Occurs(PrefixText(Words(fragment), i), text)
    ensures var p := Find(PrefixText(Words(fragment), i), text);
      LocateSpan(fragment, text) == Some(Span(Partial(i), p, p + |PrefixText(Words(fragment), i)|))
  {
    assert PrefixSearch(Words(fragment), text, i) == Some(i);
  }

  lemma LocateSpanNone(fragment: string, text: string)
    requires !Occurs(fragment, text)
    requires PrefixSearch(Words(fragment), text, |Words(fragment)|) == PrefixSearch(Words(fragment), text, 0)
    ensures LocateSpan(fragment, text) == None
  {
  }

  /**
   * When the fragment occurs the match is exact and is its first occurrence.
   * Otherwise a partial match names the largest word count whose leading words
   * occur, and spans the first occurrence of those words; nothing is found
   * exactly when no leading run of words occurs.
   */
  lemma LocateSpanMeaning(fragment: string, text: string)
    ensures var r := LocateSpan(fragment, text);
      Occurs(fragment, text) ==>
        && r.Some? && r.value.kind == Exact
        && OccursAt(fragment, text, r.value.start)
        && r.value.end == r.value.start + |fragment|
        && forall j :: 0 <= j < r.value.start ==> !OccursAt(fragment, text, j)
    ensures var r := LocateSpan(fragment, text);
      !Occurs(fragment, text) && r.Some? ==> r.value.kind.Partial?
    ensures var r := LocateSpan(fragment, text);
      !Occurs(fragment, text) && r.Some? && r.value.kind.Partial? ==>
        var words := Words(fragment); var m := r.value.kind.matchedWords;
        && 1 <= m <= |words|
        && OccursAt(PrefixText(words, m), text, r.value.start)
        && r.value.end == r.value.start + |PrefixText(words, m)|
        && (forall j :: 0 <= j < r.value.start ==> !OccursAt(PrefixText(words, m), text, j))
        && (forall k :: m < k <= |words| ==> !Occurs(PrefixText(words, k), text))
    ensures LocateSpan(fragment, text).None? <==>
      !Occurs(fragment, text) && forall k :: 1 <= k <= |Words(fragment)| ==> !Occurs(PrefixText(Words(fragment), k), text)
  {
  }

  /** The context window: 1000 characters each side for an exact hit, 500 for a partial one. */
  function Window(kind: MatchKind): nat {
    if kind.Exact? then 1000 else 500
  }

  /** The reported context and its three parts. */
  datatype Context = Context(context: string, before: string, matched: string, after: string)

  /** `text[max(0, start - w):min(len(text), end + w)]` and its parts around `text[start:end]`. */
  function ContextAround(text: string, start: nat, end: nat, w: nat): (c: Context)
    requires start <= end <= |text|
    ensures c.before + c.matched + c.after == c.context
    ensures c.matched == text[start..end]
    ensures |c.before| == Min(start, w) && |c.after| == Min(|text| - end, w)
    ensures OccursAt(c.context, text, start - |c.before|)
  {
    var cs := Max(0, start - w);
    var ce := Min(|text|, end + w);
    assert text[cs..ce] == text[cs..start] + text[start..end] + text[end..ce];
    Context(text[cs..ce], text[cs..start], text[start..end], text[end..ce])
  }

  /**
   * For a normalised fragment a partial match never covers all the words: the
   * words joined back together are the fragment itself, which did not occur.
   */
  lemma PartialIsStrict(fragment: string, text: string)
    requires IsNormal(fragment)
    requires LocateSpan(fragment, text).Some? && LocateSpan(fragment, text).value.kind.Partial?
    ensures LocateSpan(fragment, text).value.kind.matchedWords < |Words(fragment)|
  {
    var words := Words(fragment);
    JoinWordsOfNormal(fragment);
    assert words[..|words|] == words;
  }

  /** A text that starts with `p` contains `p` wherever it occurs. */
  lemma OccursPrefix(p: string, q: string, s: string)
    requires Occurs(p + q, s)
    ensures Occurs(p, s)
  {
    var i :| OccursAt(p + q, s, i);
    assert s[i..i + |p|] == (p + q)[..|p|] == p;
    assert OccursAt(p, s, i);
  }

  /** Joined words start with the first word. */
  lemma JoinStartsWithFirst(ws: seq<string>)
    requires |ws| >= 1
    ensures exists q :: Join(" ", ws) == ws[0] + q
  {
    if |ws| == 1 {
      assert Join(" ", ws) == ws[0] + [];
    } else {
      assert Join(" ", ws) == ws[0] + (" " + Join(" ", ws[1..]));
    }
  }

  /**
   * For a non-empty normalised fragment nothing is found exactly when the
   * fragment does not occur and neither does its first word: every longer run
   * of leading words starts with that word.
   */
  lemma NotFoundIffFirstWordMissing(fragment: string, text: string)
    requires IsNormal(fragment) && fragment != []
    ensures LocateSpan(fragment, text).None? <==> !Occurs(fragment, text) && !Occurs(Words(fragment)[0], text)
  {
    var words := Words(fragment);
    JoinWordsOfNormal(fragment);
    {
      assert PrefixText(words, 1) == words[0] by {
        assert words[..1] == [words[0]];
      }
      forall k | 1 <= k <= |words| && Occurs(PrefixText(words, k), text)
        ensures Occurs(words[0], text)
      {
        assert words[..k][0] == words[0];
        JoinStartsWithFirst(words[..k]);
        var q :| PrefixText(words, k) == words[0] + q;
        OccursPrefix(words[0], q, text);
      }
    }
  }

  /** An empty fragment is an exact match at position 0, since `"" in s` holds for every `s`. */
  lemma EmptyFragmentIsExact(text: string)
    ensures LocateSpan("", text) == Some(Span(Exact, 0, 0))
  {
    assert OccursAt("", text, 0);
  }
}
