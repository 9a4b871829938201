/**
 * `get_longest_text_fragment`: split a chunk's text on HTML tags
 * (`re.split(r'<[^>]+>', text)`), normalise every piece with `clean_text`, and
 * keep the longest, the earliest on ties.
 */
module FragmentSelector {
  import opened Wrappers
  import opened PyText

  /** The first `>` at or after `i`, or `|s|` when there is none. */
  function FirstGt(s: string, i: nat): (j: nat)
    requires i <= |s|
    ensures i <= j <= |s|
    ensures j < |s| ==> s[j] == '>'
    ensures forall k :: i <= k < j ==> s[k] != '>'
    decreases |s| - i
  {
    if i == |s| || s[i] == '>' then i else FirstGt(s, i + 1)
  }

  /**
   * The end of the match of `<[^>]+>` that starts at `i`, if any: a `<`, at
   * least one character that is not `>`, and the first `>` after them.
   */
  function TagEnd(s: string, i: nat): (e: Option<nat>)
    requires i < |s|
    ensures e.Some? ==> i + 3 <= e.value <= |s|
  {
    if s[i] == '<' && i + 1 < |s| then
      var j := FirstGt(s, i + 1);
      if i + 1 < j < |s| then Some(j + 1) else None
    else None
  }

  /**
   * `re.split` from scan position `i`, the current piece starting at `start`:
   * matches are taken leftmost first and the scan resumes after each one.
   */
  function SplitFrom(s: string, start: nat, i: nat): (segs: seq<string>)
    requires start <= i <= |s|
    ensures |segs| >= 1
    decreases |s| - i
  {
    if i == |s| then [s[start..]]
    else
      match TagEnd(s, i)
      case Some(e) => [s[start..i]] + SplitFrom(s, e, e)
      case None => SplitFrom(s, start, i + 1)
  }

  /** `re.split(r'<[^>]+>', s)`. */
  function SplitTags(s: string): seq<string> {
    SplitFrom(s, 0, 0)
  }

  /** The matches of `<[^>]+>` from scan position `i`, in the order `re.split` consumes them. */
  function Matches(s: string, i: nat): (ms: seq<string>)
    requires i <= |s|
    decreases |s| - i
  {
    if i == |s| then []
    else
      match TagEnd(s, i)
      case Some(e) => [s[i..e]] + Matches(s, e)
      case None => Matches(s, i + 1)
  }

  /** `re.findall(r'<[^>]+>', s)`: the separators `re.split` removes. */
  function TagMatches(s: string): seq<string> {
    Matches(s, 0)
  }

  /** The pieces with the separators put back between them. */
  function Interleave(pieces: seq<string>, seps: seq<string>): string
    requires |pieces| == |seps| + 1
    decreases |seps|
  {
    if seps == [] then pieces[0]
    else pieces[0] + seps[0] + Interleave(pieces[1..], seps[1..])
  }

  /** `m` is one match of `<[^>]+>`: a `<`, one or more characters other than `>`, and a `>`. */
  ghost predicate IsTag(m: string) {
    |m| >= 3 && m[0] == '<' && m[|m| - 1] == '>' && forall k :: 1 <= k < |m| - 1 ==> m[k] != '>'
  }

  /**
   * From any scan position, the pieces `re.split` yields, with the removed
   * matches interleaved between them, rebuild the text from the current
   * piece's start, and every removed match is a tag.
   */
  lemma {:induction false} SplitRebuild(s: string, start: nat, i: nat)
    requires start <= i <= |s|
    ensures |SplitFrom(s, start, i)| == |Matches(s, i)| + 1
    ensures Interleave(SplitFrom(s, start, i), Matches(s, i)) == s[start..]
    ensures forall k :: 0 <= k < |Matches(s, i)| ==> IsTag(Matches(s, i)[k])
    decreases |s| - i
  {
    if i < |s| {
      match TagEnd(s, i)
      case Some(e) =>
        SplitRebuild(s, e, e);
        var ps, ms := SplitFrom(s, e, e), Matches(s, e);
        var m := s[i..e];
        assert SplitFrom(s, start, i) == [s[start..i]] + ps;
        assert Matches(s, i) == [m] + ms;
        assert ([s[start..i]] + ps)[1..] == ps;
        assert ([m] + ms)[1..] == ms;
        assert s[start..] == s[start..i] + m + s[e..];
        assert IsTag(m) by {
          var j := FirstGt(s, i + 1);
          assert e == j + 1;
          forall k | 1 <= k < |m| - 1 ensures m[k] != '>' {
            assert m[k] == s[i + k];
          }
        }
      case None =>
        SplitRebuild(s, start, i + 1);
    }
  }

  /**
   * `re.split(r'<[^>]+>', s)` loses nothing but the tags: its pieces with the
   * tags of `re.findall` put back between them rebuild `s`.
   */
  lemma SplitTagsRebuild(s: string)
    ensures |SplitTags(s)| == |TagMatches(s)| + 1
    ensures Interleave(SplitTags(s), TagMatches(s)) == s
    ensures forall k :: 0 <= k < |TagMatches(s)| ==> IsTag(TagMatches(s)[k])
  {
    SplitRebuild(s, 0, 0);
    assert s[0..] == s;
  }

  /**
   * `s` holds no complete tag: no `<` is followed, further on, by a `>` unless
   * the very next character is that `>` (an empty `<>` is not a tag).
   */
  ghost predicate TagFree(s: string) {
    forall i, j :: 0 <= i < j < |s| && s[i] == '<' && s[j] == '>' ==> s[i + 1] == '>'
  }

  ghost predicate NoGt(s: string) {
    forall i :: 0 <= i < |s| ==> s[i] != '>'
  }

  /** `TagFree` says exactly that the tag pattern matches nowhere in `s`. */
  lemma TagFreeIffNoMatch(s: string)
    ensures TagFree(s) <==> forall i :: 0 <= i < |s| ==> TagEnd(s, i).None?
  {
    if !TagFree(s) {
      var i, j :| 0 <= i < j < |s| && s[i] == '<' && s[j] == '>' && s[i + 1] != '>';
      TagAt(s, i, j);
    }
    if exists i :: 0 <= i < |s| && TagEnd(s, i).Some? {
      var i :| 0 <= i < |s| && TagEnd(s, i).Some?;
      var j := FirstGt(s, i + 1);
      assert s[i] == '<' && s[j] == '>' && s[i + 1] != '>';
    }
  }

  /** A `<`, then a character other than `>`, then later a `>`: the scan finds a tag at the `<`. */
  lemma TagAt(s: string, p: nat, y: nat)
    requires p + 1 < y < |s| && s[p] == '<' && s[p + 1] != '>' && s[y] == '>'
    ensures TagEnd(s, p).Some?
  {
    assert FirstGt(s, p + 1) <= y;
  }

  /** A stretch of `s` where the scan found no tag start is itself tag-free. */
  lemma NoTagInRange(s: string, a: nat, b: nat)
    requires a <= b <= |s|
    requires forall p :: a <= p < b ==> TagEnd(s, p).None?
    ensures TagFree(s[a..b])
  {
    var seg := s[a..b];
    forall x, y | 0 <= x < y < |seg| && seg[x] == '<' && seg[y] == '>'
      ensures seg[x + 1] == '>'
    {
      if seg[x + 1] != '>' {
        TagAt(s, a + x, a + y);
      }
    }
  }

  /** Every piece of the split from `start` on is tag-free, given none was seen in `[start, i)`. */
  lemma {:induction false} PiecesFrom(s: string, start: nat, i: nat)
    requires start <= i <= |s|
    requires forall p :: start <= p < i ==> TagEnd(s, p).None?
    ensures forall k :: 0 <= k < |SplitFrom(s, start, i)| ==> TagFree(SplitFrom(s, start, i)[k])
    decreases |s| - i
  {
    if i == |s| {
      NoTagInRange(s, start, i);
      assert s[start..i] == s[start..];
      assert SplitFrom(s, start, i) == [s[start..i]];
    } else {
      match TagEnd(s, i)
      case Some(e) =>
        NoTagInRange(s, start, i);
        PiecesFrom(s, e, e);
        assert SplitFrom(s, start, i) == [s[start..i]] + SplitFrom(s, e, e);
      case None =>
        PiecesFrom(s, start, i + 1);
    }
  }

  /** Every piece `re.split` returns is free of tags. */
  lemma PiecesAreTagFree(s: string)
    ensures forall k :: 0 <= k < |SplitTags(s)| ==> TagFree(SplitTags(s)[k])
  {
    PiecesFrom(s, 0, 0);
  }

  /** Text without tags is not split at all. */
  lemma {:induction false} SplitFromTagFree(s: string, i: nat)
    requires i <= |s|
    requires forall p :: 0 <= p < |s| ==> TagEnd(s, p).None?
    ensures SplitFrom(s, 0, i) == [s]
    decreases |s| - i
  {
    if i < |s| {
      SplitFromTagFree(s, i + 1);
    }
  }

  /** A slice of tag-free text is tag-free. */
  lemma TagFreeSlice(s: string, a: nat, b: nat)
    requires TagFree(s) && a <= b <= |s|
    ensures TagFree(s[a..b])
  {
    var t := s[a..b];
    forall x, y | 0 <= x < y < |t| && t[x] == '<' && t[y] == '>' ensures t[x + 1] == '>' {
      assert s[a + x] == t[x] && s[a + y] == t[y] && s[a + x + 1] == t[x + 1];
    }
  }

  /** Putting one character in front of tag-free text. */
  lemma TagFreeCons(c: char, r: string)
    requires TagFree(r)
    requires c == '<' ==> (r != [] && r[0] == '>') || NoGt(r)
    ensures TagFree([c] + r)
  {
    var t := [c] + r;
    forall x, y | 0 <= x < y < |t| && t[x] == '<' && t[y] == '>' ensures t[x + 1] == '>' {
      if x > 0 {
        assert r[x - 1] == t[x] && r[y - 1] == t[y];
      } else {
        assert r[y - 1] == t[y];
      }
    }
  }

  /** Collapsing whitespace brings in no `>`. */
  lemma {:induction false} CollapseNoGt(s: string, i: nat)
    requires i <= |s| && forall k :: i <= k < |s| ==> s[k] != '>'
    ensures NoGt(CollapseFrom(s, i))
    decreases |s| - i
  {
    if i < |s| {
      if IsSpace(s[i]) {
        CollapseNoGt(s, SpanSpaces(s, i + 1));
      } else {
        CollapseNoGt(s, i + 1);
      }
    }
  }

  /** Collapsing whitespace keeps text tag-free. */
  lemma {:induction false} CollapseTagFree(s: string, i: nat)
    requires i <= |s| && TagFree(s[i..])
    ensures TagFree(CollapseFrom(s, i))
    decreases |s| - i
  {
    if i < |s| {
      if IsSpace(s[i]) {
        var j := SpanSpaces(s, i + 1);
        TagFreeSlice(s[i..], j - i, |s| - i);
        assert s[i..][j - i..|s| - i] == s[j..];
        CollapseTagFree(s, j);
        TagFreeCons(' ', CollapseFrom(s, j));
      } else {
        var r := CollapseFrom(s, i + 1);
        TagFreeSlice(s[i..], 1, |s| - i);
        assert s[i..][1..|s| - i] == s[i + 1..];
        CollapseTagFree(s, i + 1);
        if s[i] == '<' {
          if i + 1 < |s| && s[i + 1] == '>' {
            assert r[0] == '>';
          } else {
            forall k | i + 1 <= k < |s| ensures s[k] != '>' {
              assert s[i..][0] == '<' && s[i..][k - i] == s[k];
            }
            CollapseNoGt(s, i + 1);
          }
        }
        TagFreeCons(s[i], r);
      }
    }
  }

  /** `clean_text` keeps text tag-free. */
  lemma CleanTextTagFree(s: string)
    requires TagFree(s)
    ensures TagFree(CleanText(s))
  {
    var c := Collapse(s);
    assert s[0..] == s;
    CollapseTagFree(s, 0);
    var a := SpanSpaces(c, 0);
    if a < |c| {
      var b := TrailStart(c, |c|);
      TrailIsSpace(c, |c|);
      TagFreeSlice(c, a, b);
    }
  }

  /** Every piece of the split, normalised with `clean_text`. */
  function Cleaned(segs: seq<string>): (cs: seq<string>)
    ensures |cs| == |segs|
    ensures forall k :: 0 <= k < |segs| ==> cs[k] == CleanText(segs[k])
  {
    seq(|segs|, k requires 0 <= k < |segs| => CleanText(segs[k]))
  }

  /**
   * The fold of the loop over the cleaned pieces: a piece replaces the best so
   * far only when it is strictly longer, so the earliest of the longest wins.
   */
  function Longest(cs: seq<string>): string
    decreases |cs|
  {
    if cs == [] then ""
    else
      var best := Longest(cs[..|cs| - 1]);
      var c := cs[|cs| - 1];
      if |c| > |best| then c else best
  }

  /**
   * The result is as long as every piece, empty only when every piece is, and
   * otherwise the first piece of that length.
   */
  lemma {:induction false} LongestIsFirstMax(cs: seq<string>)
    ensures forall k :: 0 <= k < |cs| ==> |cs[k]| <= |Longest(cs)|
    ensures Longest(cs) == [] <==> forall k :: 0 <= k < |cs| ==> cs[k] == []
    ensures Longest(cs) == [] || exists k :: 0 <= k < |cs| && Longest(cs) == cs[k] && forall j :: 0 <= j < k ==> |cs[j]| < |Longest(cs)|
    decreases |cs|
  {
    if cs != [] {
      var init := cs[..|cs| - 1];
      LongestIsFirstMax(init);
      assert forall k :: 0 <= k < |init| ==> init[k] == cs[k];
    }
  }

  /** `get_longest_text_fragment(text)`. */
  function LongestFragment(text: string): string {
    Longest(Cleaned(SplitTags(text)))
  }

  /** The loop of `get_longest_text_fragment`, over the pieces of the split. */
  method GetLongestTextFragment(text: string) returns (longest: string)
    ensures longest == LongestFragment(text)
  {
    var fragments := SplitTags(text);
    ghost var cs := Cleaned(fragments);
    longest := "";
    for k := 0 to |fragments|
      invariant longest == Longest(cs[..k])
    {
      assert cs[..k + 1][..k] == cs[..k];
      var cleaned := CleanText(fragments[k]);
      if |cleaned| > |longest| {
        longest := cleaned;
      }
    }
    assert cs[..|fragments|] == cs;
  }

  /** The fragment is normal text: single spaces between words, none at either end. */
  lemma LongestFragmentIsNormal(text: string)
    ensures IsNormal(LongestFragment(text))
  {
    var segs := SplitTags(text);
    var r := LongestFragment(text);
    LongestIsFirstMax(Cleaned(segs));
    if r != [] {
      var k :| 0 <= k < |segs| && r == Cleaned(segs)[k];
      CleanTextIsNormal(segs[k]);
    }
  }

  /** The fragment holds no complete tag. */
  lemma LongestFragmentTagFree(text: string)
    ensures TagFree(LongestFragment(text))
  {
    var segs := SplitTags(text);
    var r := LongestFragment(text);
    PiecesAreTagFree(text);
    LongestIsFirstMax(Cleaned(segs));
    if r != [] {
      var k :| 0 <= k < |segs| && r == Cleaned(segs)[k];
      CleanTextTagFree(segs[k]);
    }
  }

  /** On text with no tag the fragment is the whole text, normalised. */
  lemma LongestFragmentOfTagFree(text: string)
    requires TagFree(text)
    ensures LongestFragment(text) == CleanText(text)
  {
    TagFreeIffNoMatch(text);
    SplitFromTagFree(text, 0);
    var cs := Cleaned(SplitTags(text));
    assert cs == [CleanText(text)];
    LongestIsFirstMax(cs);
  }

  /** The fragment is empty exactly when every piece between tags is all whitespace. */
  lemma LongestFragmentEmptyIff(text: string)
    ensures LongestFragment(text) == [] <==> forall k :: 0 <= k < |SplitTags(text)| ==> AllSpace(SplitTags(text)[k])
  {
    var segs := SplitTags(text);
    PiecesEmptyIff(segs);
    LongestIsFirstMax(Cleaned(segs));
  }

  /** A cleaned piece is empty exactly when the piece is all whitespace. */
  lemma PiecesEmptyIff(segs: seq<string>)
    ensures forall k :: 0 <= k < |segs| ==> (CleanText(segs[k]) == [] <==> AllSpace(segs[k]))
  {
    forall k | 0 <= k < |segs| ensures CleanText(segs[k]) == [] <==> AllSpace(segs[k])
    {
      CleanTextEmptyIff(segs[k]);
    }
  }

  /** The empty text has the empty fragment. */
  lemma LongestFragmentOfEmpty()
    ensures LongestFragment("") == ""
  {
    assert SplitTags("") == [""];
    assert Cleaned([""]) == [""];
  }
}
