/**
 * Python's whitespace handling and substring search over `seq<char>`:
 * `re.sub(r'\s+', ' ', t).strip()` (the `clean_text` helper), `str.strip()`,
 * `str.split()`, `sep.join(...)`, `x in s` and `s.find(x)`.
 */
module PyText {

  /**
   * The whitespace set. Python's `\s` (for `str` patterns), `str.split()` and
   * `str.strip()` all use `str.isspace()`, which holds for exactly these code points.
   */
  predicate IsSpace(c: char) {
    || ('\t' <= c <= '\r')              // tab, line feed, vertical tab, form feed, carriage return
    || ('\U{1C}' <= c <= '\U{1F}')      // file, group, record and unit separators
    || c == ' '
    || c == '\U{85}' || c == '\U{A0}' || c == '\U{1680}'
    || ('\U{2000}' <= c <= '\U{200A}')
    || c == '\U{2028}' || c == '\U{2029}' || c == '\U{202F}' || c == '\U{205F}' || c == '\U{3000}'
  }

  /** The end of the run of whitespace that starts at `i`. */
  function SpanSpaces(s: string, i: nat): (j: nat)
    requires i <= |s|
    ensures i <= j <= |s|
    ensures j < |s| ==> !IsSpace(s[j])
    decreases |s| - i
  {
    if i < |s| && IsSpace(s[i]) then SpanSpaces(s, i + 1) else i
  }

  /** Everything `SpanSpaces` skips is whitespace. */
  lemma {:induction false} SpanIsSpace(s: string, i: nat)
    requires i <= |s|
    ensures forall k :: i <= k < SpanSpaces(s, i) ==> IsSpace(s[k])
    decreases |s| - i
  {
    if i < |s| && IsSpace(s[i]) {
      SpanIsSpace(s, i + 1);
    }
  }

  /** The start of the run of whitespace that ends at `j`. */
  function TrailStart(s: string, j: nat): (i: nat)
    requires j <= |s|
    ensures i <= j
    ensures 0 < i ==> !IsSpace(s[i - 1])
  {
    if 0 < j && IsSpace(s[j - 1]) then TrailStart(s, j - 1) else j
  }

  /** Everything `TrailStart` skips is whitespace. */
  lemma {:induction false} TrailIsSpace(s: string, j: nat)
    requires j <= |s|
    ensures forall k :: TrailStart(s, j) <= k < j ==> IsSpace(s[k])
  {
    if 0 < j && IsSpace(s[j - 1]) {
      TrailIsSpace(s, j - 1);
    }
  }

  /** Python's `str.strip()` with no argument: drop whitespace at both ends. */
  function Strip(s: string): string
  {
    var a := SpanSpaces(s, 0);
    if a == |s| then [] else TrailIsSpace(s, |s|); s[a..TrailStart(s, |s|)]
  }

  /** Every whitespace character is a plain space and is followed by a non-space. */
  ghost predicate NoSpaceRuns(t: string) {
    forall i :: 0 <= i < |t| && IsSpace(t[i]) ==> t[i] == ' ' && (i + 1 < |t| ==> !IsSpace(t[i + 1]))
  }

  /** The shape `clean_text` produces: single spaces between words, nothing at either end. */
  ghost predicate IsNormal(t: string) {
    && NoSpaceRuns(t)
    && (t != [] ==> !IsSpace(t[0]) && !IsSpace(t[|t| - 1]))
  }

  ghost predicate AllSpace(s: string) {
    forall i :: 0 <= i < |s| ==> IsSpace(s[i])
  }

  /** `re.sub(r'\s+', ' ', s[i:])`: every maximal run of whitespace becomes one space. */
  function CollapseFrom(s: string, i: nat): (r: string)
    requires i <= |s|
    ensures r == [] <==> i == |s|
    ensures r != [] ==> (IsSpace(r[0]) <==> IsSpace(s[i]))
    ensures NoSpaceRuns(r)
    decreases |s| - i
  {
    if i == |s| then []
    else if IsSpace(s[i]) then " " + CollapseFrom(s, SpanSpaces(s, i + 1))
    else [s[i]] + CollapseFrom(s, i + 1)
  }

  /** `re.sub(r'\s+', ' ', s)`. */
  function Collapse(s: string): string {
    CollapseFrom(s, 0)
  }

  /** `clean_text(text)`: collapse whitespace runs to one space, then strip both ends. */
  function CleanText(s: string): string
  {
    Strip(Collapse(s))
  }

  /** A slice keeps the "no whitespace runs" shape. */
  lemma NoSpaceRunsSlice(t: string, a: nat, b: nat)
    requires NoSpaceRuns(t) && a <= b <= |t|
    ensures NoSpaceRuns(t[a..b])
  {
    forall i | 0 <= i < b - a && IsSpace(t[a..b][i])
      ensures t[a..b][i] == ' ' && (i + 1 < b - a ==> !IsSpace(t[a..b][i + 1]))
    {
      assert t[a..b][i] == t[a + i];
      if i + 1 < b - a { assert t[a..b][i + 1] == t[a + i + 1]; }
    }
  }

  /** Stripping text without whitespace runs leaves normal text. */
  lemma StripIsNormal(c: string)
    requires NoSpaceRuns(c)
    ensures IsNormal(Strip(c))
  {
    var a := SpanSpaces(c, 0);
    if a < |c| {
      var b := TrailStart(c, |c|);
      TrailIsSpace(c, |c|);
      NoSpaceRunsSlice(c, a, b);
      assert c[a..b][0] == c[a] && c[a..b][b - a - 1] == c[b - 1];
    }
  }

  /** `clean_text` yields text with no whitespace at either end and no two adjacent whitespace characters. */
  lemma CleanTextIsNormal(s: string)
    ensures IsNormal(CleanText(s))
  {
    StripIsNormal(Collapse(s));
  }

  /** Collapsing changes nothing once there are no whitespace runs. */
  lemma {:induction false} CollapseFixed(t: string, i: nat)
    requires NoSpaceRuns(t) && i <= |t|
    ensures CollapseFrom(t, i) == t[i..]
    decreases |t| - i
  {
    if i < |t| {
      if IsSpace(t[i]) {
        assert SpanSpaces(t, i + 1) == i + 1;
      }
      CollapseFixed(t, i + 1);
      assert t[i..] == [t[i]] + t[i + 1..];
    }
  }

  /** Normal text is left unchanged by `clean_text`. */
  lemma NormalIsFixed(t: string)
    requires IsNormal(t)
    ensures CleanText(t) == t
  {
    CollapseFixed(t, 0);
    if t != [] {
      assert SpanSpaces(t, 0) == 0;
      assert TrailStart(t, |t|) == |t|;
    }
  }

  /** `clean_text` is idempotent. */
  lemma CleanTextIdempotent(s: string)
    ensures CleanText(CleanText(s)) == CleanText(s)
  {
    CleanTextIsNormal(s);
    NormalIsFixed(CleanText(s));
  }

  /** `strip()` gives the empty string exactly when the text is all whitespace. */
  lemma StripEmptyIff(s: string)
    ensures Strip(s) == [] <==> AllSpace(s)
  {
    var a := SpanSpaces(s, 0);
    SpanIsSpace(s, 0);
    if a < |s| {
      TrailIsSpace(s, |s|);
      assert a < TrailStart(s, |s|);
    }
  }

  /**
   * `strip()` keeps a slice of its input, drops only whitespace around it,
   * and leaves no whitespace at either end.
   */
  lemma StripShape(s: string)
    ensures Strip(s) == [] || (!IsSpace(Strip(s)[0]) && !IsSpace(Strip(s)[|Strip(s)| - 1]))
    ensures exists a, b :: 0 <= a <= b <= |s| && Strip(s) == s[a..b] && AllSpace(s[..a]) && AllSpace(s[b..])
  {
    var a := SpanSpaces(s, 0);
    SpanIsSpace(s, 0);
    if a == |s| {
      assert Strip(s) == s[a..a] && AllSpace(s[..a]) && AllSpace(s[a..]);
    } else {
      TrailIsSpace(s, |s|);
      var b := TrailStart(s, |s|);
      assert a < b;
      assert Strip(s) == s[a..b] && AllSpace(s[..a]) && AllSpace(s[b..]);
    }
  }

  /** Text with no whitespace at either end is left as it is by `strip()`. */
  lemma StripUnpadded(s: string)
    requires s == [] || (!IsSpace(s[0]) && !IsSpace(s[|s| - 1]))
    ensures Strip(s) == s
  {
    if s != [] {
      assert SpanSpaces(s, 0) == 0;
      assert TrailStart(s, |s|) == |s|;
    }
  }

  /** Collapsed text is all whitespace exactly when its input is. */
  lemma {:induction false} CollapseAllSpace(s: string, i: nat)
    requires i <= |s|
    ensures AllSpace(CollapseFrom(s, i)) <==> forall k :: i <= k < |s| ==> IsSpace(s[k])
    decreases |s| - i
  {
    if i < |s| {
      var c := CollapseFrom(s, i);
      if IsSpace(s[i]) {
        var j := SpanSpaces(s, i + 1);
        SpanIsSpace(s, i + 1);
        CollapseAllSpace(s, j);
        assert c == " " + CollapseFrom(s, j);
        if j < |s| {
          assert !IsSpace(c[1]);
        }
      } else {
        assert !IsSpace(c[0]);
      }
    }
  }

  /** `clean_text(s)` is empty exactly when `s` is all whitespace. */
  lemma CleanTextEmptyIff(s: string)
    ensures CleanText(s) == [] <==> AllSpace(s)
  {
    StripEmptyIff(Collapse(s));
    CollapseAllSpace(s, 0);
  }

  /** The end of the word that starts at `i`: the first whitespace at or after `i`. */
  function WordEnd(s: string, i: nat): (j: nat)
    requires i <= |s|
    ensures i <= j <= |s|
    ensures j < |s| ==> IsSpace(s[j])
    decreases |s| - i
  {
    if i < |s| && !IsSpace(s[i]) then WordEnd(s, i + 1) else i
  }

  /** Nothing between `i` and the end of its word is whitespace. */
  lemma {:induction false} WordHasNoSpace(s: string, i: nat)
    requires i <= |s|
    ensures forall k :: i <= k < WordEnd(s, i) ==> !IsSpace(s[k])
    decreases |s| - i
  {
    if i < |s| && !IsSpace(s[i]) {
      WordHasNoSpace(s, i + 1);
    }
  }

  /** A word as `str.split()` returns it: non-empty and free of whitespace. */
  ghost predicate IsWord(w: string) {
    w != [] && forall i :: 0 <= i < |w| ==> !IsSpace(w[i])
  }

  /** `s[i:].split()` with no separator: the maximal runs of non-whitespace, in order. */
  function WordsFrom(s: string, i: nat): (ws: seq<string>)
    requires i <= |s|
    decreases |s| - i
  {
    var j := SpanSpaces(s, i);
    if j == |s| then []
    else
      var e := WordEnd(s, j);
      [s[j..e]] + WordsFrom(s, e)
  }

  /** `s.split()`. */
  function Words(s: string): seq<string> {
    WordsFrom(s, 0)
  }

  /** Every element `str.split()` returns is a non-empty run without whitespace. */
  lemma {:induction false} WordsAreWords(s: string, i: nat)
    requires i <= |s|
    ensures forall k :: 0 <= k < |WordsFrom(s, i)| ==> IsWord(WordsFrom(s, i)[k])
    decreases |s| - i
  {
    var j := SpanSpaces(s, i);
    if j < |s| {
      var e := WordEnd(s, j);
      var w := s[j..e];
      WordsAreWords(s, e);
      var rest := WordsFrom(s, e);
      assert WordsFrom(s, i) == [w] + rest;
      assert IsWord(w) by {
        WordHasNoSpace(s, j);
        forall k | 0 <= k < |w| ensures !IsSpace(w[k]) {
          assert w[k] == s[j + k];
        }
      }
      forall k | 0 <= k < |WordsFrom(s, i)| ensures IsWord(WordsFrom(s, i)[k]) {
        if k > 0 { assert WordsFrom(s, i)[k] == rest[k - 1]; }
      }
    }
  }

  /** `sep.join(ws)`. */
  function Join(sep: string, ws: seq<string>): string
  {
    if |ws| == 0 then ""
    else if |ws| == 1 then ws[0]
    else ws[0] + sep + Join(sep, ws[1..])
  }

  /** Joining a first item onto a non-empty rest puts one separator between them. */
  lemma JoinCons(sep: string, w: string, rest: seq<string>)
    requires rest != []
    ensures Join(sep, [w] + rest) == w + sep + Join(sep, rest)
  {
    assert ([w] + rest)[1..] == rest;
  }

  /** Every item occurs in the joined string. */
  lemma {:induction false} JoinContains(sep: string, ws: seq<string>, i: nat)
    requires i < |ws|
    ensures Occurs(ws[i], Join(sep, ws))
    decreases |ws|
  {
    if |ws| == 1 {
      assert OccursAt(ws[0], Join(sep, ws), 0);
    } else if i == 0 {
      assert OccursAt(ws[0], ws[0], 0);
      OccursInside(ws[0], "", ws[0], sep + Join(sep, ws[1..]));
      assert Join(sep, ws) == "" + ws[0] + (sep + Join(sep, ws[1..]));
    } else {
      JoinContains(sep, ws[1..], i - 1);
      assert ws[1..][i - 1] == ws[i];
      OccursInside(ws[i], ws[0] + sep, Join(sep, ws[1..]), "");
      assert Join(sep, ws) == ws[0] + sep + Join(sep, ws[1..]) + "";
    }
  }

  /**
   * Splitting normal text into words and joining them with single spaces gives
   * the text back from any word start on: `" ".join(clean[i:].split()) == clean[i:]`.
   */
  lemma {:induction false} JoinWordsFrom(t: string, i: nat)
    requires IsNormal(t) && i < |t| && !IsSpace(t[i])
    ensures Join(" ", WordsFrom(t, i)) == t[i..]
    decreases |t| - i
  {
    var e := WordEnd(t, i);
    AfterWord(t, i);
    if e < |t| {
      JoinWordsFrom(t, e + 1);
    }
    JoinWordsStep(t, i);
  }

  /** In normal text a word that ends before the end of the text is followed by a space and another word. */
  lemma AfterWord(t: string, i: nat)
    requires IsNormal(t) && i < |t|
    ensures WordEnd(t, i) < |t| ==> WordEnd(t, i) + 1 < |t| && !IsSpace(t[WordEnd(t, i) + 1])
  {
    if WordEnd(t, i) < |t| {
      SpaceStep(t, WordEnd(t, i));
    }
  }

  /** One step of the induction behind `JoinWordsFrom`: the first word, then the rest. */
  lemma JoinWordsStep(t: string, i: nat)
    requires IsNormal(t) && i < |t| && !IsSpace(t[i])
    requires WordEnd(t, i) < |t| ==>
      && WordEnd(t, i) + 1 < |t|
      && Join(" ", WordsFrom(t, WordEnd(t, i) + 1)) == t[WordEnd(t, i) + 1..]
    ensures Join(" ", WordsFrom(t, i)) == t[i..]
  {
    var e := WordEnd(t, i);
    if e == |t| {
      LastWord(t, i);
    } else {
      NextWords(t, i);
      JoinStep(t, i, e, WordsFrom(t, i), WordsFrom(t, e + 1));
    }
  }

  /** In normal text the first word is followed by one space, then the remaining words. */
  lemma NextWords(t: string, i: nat)
    requires IsNormal(t) && i < |t| && !IsSpace(t[i]) && WordEnd(t, i) < |t|
    ensures t[WordEnd(t, i)] == ' '
    ensures WordsFrom(t, i) == [t[i..WordEnd(t, i)]] + WordsFrom(t, WordEnd(t, i) + 1)
  {
    WordStep(t, i);
    SpaceStep(t, WordEnd(t, i));
  }

  /** A word, a space, and text that the remaining words join back to. */
  lemma JoinStep(t: string, i: nat, e: nat, ws: seq<string>, rest: seq<string>)
    requires i <= e && e + 1 < |t| && t[e] == ' '
    requires ws == [t[i..e]] + rest && Join(" ", rest) == t[e + 1..]
    ensures Join(" ", ws) == t[i..]
  {
    assert rest != [] by {
      assert rest == [] ==> Join(" ", rest) == "";
    }
    JoinCons(" ", t[i..e], rest);
    SplitAround(t, i, e);
  }

  /** At the start of a word, `split` takes that word and carries on after it. */
  lemma WordStep(t: string, i: nat)
    requires i < |t| && !IsSpace(t[i])
    ensures WordsFrom(t, i) == [t[i..WordEnd(t, i)]] + WordsFrom(t, WordEnd(t, i))
  {
    assert SpanSpaces(t, i) == i;
  }

  /** A word that runs to the end of the text is the last one. */
  lemma LastWord(t: string, i: nat)
    requires i < |t| && !IsSpace(t[i]) && WordEnd(t, i) == |t|
    ensures WordsFrom(t, i) == [t[i..]]
  {
    WordStep(t, i);
    assert SpanSpaces(t, |t|) == |t|;
    assert WordsFrom(t, |t|) == [];
    assert t[i..WordEnd(t, i)] == t[i..];
  }

  /** In normal text a space is single and a word follows it. */
  lemma SpaceStep(t: string, e: nat)
    requires IsNormal(t) && e < |t| && IsSpace(t[e])
    ensures t[e] == ' ' && e + 1 < |t| && !IsSpace(t[e + 1])
    ensures WordsFrom(t, e) == WordsFrom(t, e + 1)
  {
    assert SpanSpaces(t, e + 1) == e + 1;
    assert SpanSpaces(t, e) == e + 1;
  }

  lemma SplitAround(t: string, i: nat, e: nat)
    requires i <= e < |t| && t[e] == ' '
    ensures t[i..] == t[i..e] + " " + t[e + 1..]
  {
    assert t[i..] == t[i..e] + t[e..];
    assert t[e..] == " " + t[e + 1..];
  }

  /** `" ".join(clean.split()) == clean`, and normal non-empty text has at least one word. */
  lemma JoinWordsOfNormal(t: string)
    requires IsNormal(t)
    ensures Join(" ", Words(t)) == t
    ensures t != [] ==> |Words(t)| >= 1
  {
    if t != [] {
      JoinWordsFrom(t, 0);
      assert Words(t) == [] ==> Join(" ", Words(t)) == "";
    }
  }

  /** `u` starts in the middle of a word: it is non-empty and its first character is not whitespace. */
  predicate StartsWord(u: string) {
    u != [] && !IsSpace(u[0])
  }

  /** Scanning for whitespace in `p + u` past `p` is scanning `u`. */
  lemma {:induction false} SpanShift(p: string, u: string, i: nat)
    requires i <= |u|
    ensures SpanSpaces(p + u, |p| + i) == |p| + SpanSpaces(u, i)
    decreases |u| - i
  {
    if i < |u| {
      assert (p + u)[|p| + i] == u[i];
      SpanShift(p, u, i + 1);
    }
  }

  /** Scanning for a word's end in `p + u` past `p` is scanning `u`. */
  lemma {:induction false} WordEndShift(p: string, u: string, i: nat)
    requires i <= |u|
    ensures WordEnd(p + u, |p| + i) == |p| + WordEnd(u, i)
    decreases |u| - i
  {
    if i < |u| {
      assert (p + u)[|p| + i] == u[i];
      WordEndShift(p, u, i + 1);
    }
  }

  /** Splitting `p + u` past `p` gives the words of `u`. */
  lemma {:induction false} WordsShift(p: string, u: string, i: nat)
    requires i <= |u|
    ensures WordsFrom(p + u, |p| + i) == WordsFrom(u, i)
    decreases |u| - i
  {
    SpanShift(p, u, i);
    var j := SpanSpaces(u, i);
    if j < |u| {
      WordsShift(p, u, WordEnd(u, j));
      WordsShiftStep(p, u, i);
    }
  }

  lemma WordsShiftStep(p: string, u: string, i: nat)
    requires i <= |u| && SpanSpaces(u, i) < |u|
    requires WordsFrom(p + u, |p| + WordEnd(u, SpanSpaces(u, i))) == WordsFrom(u, WordEnd(u, SpanSpaces(u, i)))
    ensures WordsFrom(p + u, |p| + i) == WordsFrom(u, i)
  {
    var t := p + u;
    var j := SpanSpaces(u, i);
    var e := WordEnd(u, j);
    SpanShift(p, u, i);
    var j2 := SpanSpaces(t, |p| + i);
    assert j2 == |p| + j;
    WordEndShift(p, u, j);
    var e2 := WordEnd(t, j2);
    assert e2 == |p| + e;
    SliceShift(p, u, j, e);
    assert t[j2..e2] == u[j..e];
    assert WordsFrom(t, e2) == WordsFrom(u, e);
    WordsFromStep(u, i);
    WordsFromStep(t, |p| + i);
  }

  /** One step of `split()`: the next word, then the words after it. */
  lemma WordsFromStep(s: string, i: nat)
    requires i <= |s| && SpanSpaces(s, i) < |s|
    ensures WordsFrom(s, i) == [s[SpanSpaces(s, i)..WordEnd(s, SpanSpaces(s, i))]] + WordsFrom(s, WordEnd(s, SpanSpaces(s, i)))
  {
  }

  lemma SliceShift(p: string, u: string, a: nat, b: nat)
    requires a <= b <= |u|
    ensures (p + u)[|p| + a..|p| + b] == u[a..b]
  {
  }

  /** A leading whitespace character does not change the words. */
  lemma WordsConsSpace(c: char, u: string)
    requires IsSpace(c)
    ensures Words([c] + u) == Words(u)
  {
    assert SpanSpaces([c] + u, 0) == SpanSpaces([c] + u, 1);
    WordsShift([c], u, 0);
  }

  /**
   * A leading non-whitespace character is a word of its own when `u` does not
   * start inside a word, and is glued onto the first word of `u` otherwise.
   */
  lemma WordsConsWord(c: char, u: string)
    requires !IsSpace(c)
    ensures !StartsWord(u) ==> Words([c] + u) == [[c]] + Words(u)
    ensures StartsWord(u) ==> Words(u) != [] && Words([c] + u) == [[c] + Words(u)[0]] + Words(u)[1..]
  {
    var t := [c] + u;
    var e := WordEnd(u, 0);
    assert SpanSpaces(t, 0) == 0;
    WordEndShift([c], u, 0);
    assert WordEnd(t, 0) == WordEnd(t, 1) == 1 + e;
    WordsShift([c], u, e);
    assert Words(t) == [t[0..1 + e]] + WordsFrom(u, e);
    if StartsWord(u) {
      assert SpanSpaces(u, 0) == 0;
      assert Words(u) == [u[0..e]] + WordsFrom(u, e);
      assert t[0..1 + e] == [c] + u[0..e];
    } else {
      assert e == 0;
      assert t[0..1] == [c];
      assert WordsFrom(u, 0) == Words(u);
    }
  }

  /** Leading whitespace does not change the words. */
  lemma {:induction false} WordsDropSpace(p: string, u: string)
    requires AllSpace(p)
    ensures Words(p + u) == Words(u)
    decreases |p|
  {
    if p == [] {
      assert p + u == u;
    } else {
      assert p + u == [p[0]] + (p[1..] + u);
      assert IsSpace(p[0]);
      assert AllSpace(p[1..]) by {
        forall k | 0 <= k < |p[1..]| ensures IsSpace(p[1..][k]) {
          assert p[1..][k] == p[k + 1];
        }
      }
      WordsConsSpace(p[0], p[1..] + u);
      WordsDropSpace(p[1..], u);
    }
  }

  /** Trailing whitespace does not change the words. */
  lemma {:induction false} WordsDropTrailingSpace(u: string, q: string)
    requires AllSpace(q)
    ensures Words(u + q) == Words(u)
    decreases |u|
  {
    if u == [] {
      assert u + q == q + [];
      WordsDropSpace(q, []);
    } else {
      var rest := u[1..];
      assert u + q == [u[0]] + (rest + q);
      assert u == [u[0]] + rest;
      WordsDropTrailingSpace(rest, q);
      assert StartsWord(rest + q) == StartsWord(rest) by {
        if rest == [] { assert rest + q == q; }
        else { assert (rest + q)[0] == rest[0]; }
      }
      if IsSpace(u[0]) {
        WordsConsSpace(u[0], rest + q);
        WordsConsSpace(u[0], rest);
      } else {
        WordsConsWord(u[0], rest + q);
        WordsConsWord(u[0], rest);
      }
    }
  }

  /** Collapsing whitespace runs keeps the words. */
  lemma {:induction false} CollapseWords(s: string, i: nat)
    requires i <= |s|
    ensures Words(CollapseFrom(s, i)) == Words(s[i..])
    decreases |s| - i
  {
    if i < |s| {
      if IsSpace(s[i]) {
        CollapseWords(s, SpanSpaces(s, i + 1));
        CollapseWordsSpace(s, i);
      } else {
        CollapseWords(s, i + 1);
        CollapseWordsWord(s, i);
      }
    }
  }

  lemma CollapseWordsSpace(s: string, i: nat)
    requires i < |s| && IsSpace(s[i])
    requires Words(CollapseFrom(s, SpanSpaces(s, i + 1))) == Words(s[SpanSpaces(s, i + 1)..])
    ensures Words(CollapseFrom(s, i)) == Words(s[i..])
  {
    var j := SpanSpaces(s, i + 1);
    var x := CollapseFrom(s, j);
    assert CollapseFrom(s, i) == " " + x;
    WordsConsSpace(' ', x);
    SpaceRunSlice(s, i);
    assert s[i..] == s[i..j] + s[j..];
    WordsDropSpace(s[i..j], s[j..]);
  }

  /** A whitespace character and the run after it, as a slice. */
  lemma SpaceRunSlice(s: string, i: nat)
    requires i < |s| && IsSpace(s[i])
    ensures AllSpace(s[i..SpanSpaces(s, i + 1)])
  {
    var j := SpanSpaces(s, i + 1);
    SpanIsSpace(s, i + 1);
    forall k | 0 <= k < j - i ensures IsSpace(s[i..j][k]) { assert s[i..j][k] == s[i + k]; }
  }

  lemma CollapseWordsWord(s: string, i: nat)
    requires i < |s| && !IsSpace(s[i])
    requires Words(CollapseFrom(s, i + 1)) == Words(s[i + 1..])
    ensures Words(CollapseFrom(s, i)) == Words(s[i..])
  {
    var x := CollapseFrom(s, i + 1);
    assert CollapseFrom(s, i) == [s[i]] + x;
    assert s[i..] == [s[i]] + s[i + 1..];
    assert StartsWord(x) == StartsWord(s[i + 1..]);
    WordsConsWord(s[i], x);
    WordsConsWord(s[i], s[i + 1..]);
  }

  /** `strip()` keeps the words. */
  lemma StripWords(s: string)
    ensures Words(Strip(s)) == Words(s)
  {
    var a := SpanSpaces(s, 0);
    SpanIsSpace(s, 0);
    if a == |s| {
      assert s == s[..a] + [];
      WordsDropSpace(s[..a], []);
    } else {
      TrailIsSpace(s, |s|);
      var b := TrailStart(s, |s|);
      assert Strip(s) == s[a..b];
      WordsOfMiddle(s, a, b);
    }
  }

  /** Whitespace on both sides of a slice does not change its words. */
  lemma WordsOfMiddle(s: string, a: nat, b: nat)
    requires a <= b <= |s|
    requires forall k :: 0 <= k < a ==> IsSpace(s[k])
    requires forall k :: b <= k < |s| ==> IsSpace(s[k])
    ensures Words(s[a..b]) == Words(s)
  {
    var x, m, y := s[..a], s[a..b], s[b..];
    assert s == x + (m + y);
    assert AllSpace(x) by {
      forall k | 0 <= k < |x| ensures IsSpace(x[k]) { assert x[k] == s[k]; }
    }
    assert AllSpace(y) by {
      forall k | 0 <= k < |y| ensures IsSpace(y[k]) { assert y[k] == s[b + k]; }
    }
    WordsDropSpace(x, m + y);
    WordsDropTrailingSpace(m, y);
  }

  /**
   * `clean_text` keeps the words of its input, and its result is those words
   * joined by single spaces: `clean_text(s) == " ".join(s.split())`.
   */
  lemma CleanTextWords(s: string)
    ensures Words(CleanText(s)) == Words(s)
    ensures CleanText(s) == Join(" ", Words(s))
  {
    CollapseWords(s, 0);
    assert s[0..] == s;
    StripWords(Collapse(s));
    CleanTextIsNormal(s);
    JoinWordsOfNormal(CleanText(s));
  }

  /** Past a prefix ending before a non-space, the whitespace scan stops where it does in the prefix alone. */
  lemma {:induction false} SpanAppend(x: string, y: string, j: nat)
    requires j <= |x| && y != [] && !IsSpace(y[0])
    ensures SpanSpaces(x + y, j) == SpanSpaces(x, j)
    decreases |x| - j
  {
    if j == |x| {
      assert (x + y)[j] == y[0];
    } else {
      assert (x + y)[j] == x[j];
      SpanAppend(x, y, j + 1);
    }
  }

  /** Collapsing `p + u` past `p` is collapsing `u`. */
  lemma {:induction false} CollapseShift(p: string, u: string, i: nat)
    requires i <= |u|
    ensures CollapseFrom(p + u, |p| + i) == CollapseFrom(u, i)
    decreases |u| - i
  {
    if i < |u| {
      if IsSpace(u[i]) {
        CollapseShift(p, u, SpanSpaces(u, i + 1));
        CollapseShiftSpace(p, u, i);
      } else {
        CollapseShift(p, u, i + 1);
        CollapseShiftWord(p, u, i);
      }
    }
  }

  lemma CollapseShiftSpace(p: string, u: string, i: nat)
    requires i < |u| && IsSpace(u[i])
    requires CollapseFrom(p + u, |p| + SpanSpaces(u, i + 1)) == CollapseFrom(u, SpanSpaces(u, i + 1))
    ensures CollapseFrom(p + u, |p| + i) == CollapseFrom(u, i)
  {
    var t, j := p + u, SpanSpaces(u, i + 1);
    assert t[|p| + i] == u[i];
    SpanShift(p, u, i + 1);
    assert SpanSpaces(t, |p| + i + 1) == |p| + j;
    assert CollapseFrom(u, i) == " " + CollapseFrom(u, j);
    assert CollapseFrom(t, |p| + i) == " " + CollapseFrom(t, |p| + j);
  }

  lemma CollapseShiftWord(p: string, u: string, i: nat)
    requires i < |u| && !IsSpace(u[i])
    requires CollapseFrom(p + u, |p| + i + 1) == CollapseFrom(u, i + 1)
    ensures CollapseFrom(p + u, |p| + i) == CollapseFrom(u, i)
  {
    assert (p + u)[|p| + i] == u[i];
  }

  /** A whitespace run cannot cross into text that starts with a non-space, so collapsing splits there. */
  lemma {:induction false} CollapseAppend(x: string, y: string, i: nat)
    requires i <= |x| && y != [] && !IsSpace(y[0])
    ensures CollapseFrom(x + y, i) == CollapseFrom(x, i) + Collapse(y)
    decreases |x| - i
  {
    if i == |x| {
      CollapseShift(x, y, 0);
    } else if IsSpace(x[i]) {
      CollapseAppend(x, y, SpanSpaces(x, i + 1));
      CollapseAppendSpace(x, y, i);
    } else {
      CollapseAppend(x, y, i + 1);
      CollapseAppendWord(x, y, i);
    }
  }

  lemma CollapseAppendSpace(x: string, y: string, i: nat)
    requires i < |x| && y != [] && !IsSpace(y[0]) && IsSpace(x[i])
    requires CollapseFrom(x + y, SpanSpaces(x, i + 1)) == CollapseFrom(x, SpanSpaces(x, i + 1)) + Collapse(y)
    ensures CollapseFrom(x + y, i) == CollapseFrom(x, i) + Collapse(y)
  {
    var t, j := x + y, SpanSpaces(x, i + 1);
    assert t[i] == x[i];
    SpanAppend(x, y, i + 1);
    assert CollapseFrom(t, i) == " " + CollapseFrom(t, j);
    assert CollapseFrom(x, i) == " " + CollapseFrom(x, j);
  }

  lemma CollapseAppendWord(x: string, y: string, i: nat)
    requires i < |x| && y != [] && !IsSpace(y[0]) && !IsSpace(x[i])
    requires CollapseFrom(x + y, i + 1) == CollapseFrom(x, i + 1) + Collapse(y)
    ensures CollapseFrom(x + y, i) == CollapseFrom(x, i) + Collapse(y)
  {
    var t := x + y;
    assert t[i] == x[i];
    assert CollapseFrom(t, i) == [x[i]] + CollapseFrom(t, i + 1);
    assert CollapseFrom(x, i) == [x[i]] + CollapseFrom(x, i + 1);
  }

  /** Text with single spaces only, ending in a non-space, passes through collapsing unchanged. */
  lemma {:induction false} CollapseKeeps(m: string, z: string, i: nat)
    requires NoSpaceRuns(m) && m != [] && !IsSpace(m[|m| - 1]) && i <= |m|
    ensures CollapseFrom(m + z, i) == m[i..] + CollapseFrom(m + z, |m|)
    decreases |m| - i
  {
    if i < |m| {
      CollapseKeeps(m, z, i + 1);
      CollapseKeepsStep(m, z, i);
    }
  }

  lemma CollapseKeepsStep(m: string, z: string, i: nat)
    requires NoSpaceRuns(m) && m != [] && !IsSpace(m[|m| - 1]) && i < |m|
    requires CollapseFrom(m + z, i + 1) == m[i + 1..] + CollapseFrom(m + z, |m|)
    ensures CollapseFrom(m + z, i) == m[i..] + CollapseFrom(m + z, |m|)
  {
    var t := m + z;
    assert t[i] == m[i];
    assert m[i..] == [m[i]] + m[i + 1..];
    if IsSpace(m[i]) {
      assert m[i] == ' ' && i + 1 < |m|;
      assert t[i + 1] == m[i + 1];
      assert SpanSpaces(t, i + 1) == i + 1;
      assert CollapseFrom(t, i) == " " + CollapseFrom(t, i + 1);
    } else {
      assert CollapseFrom(t, i) == [m[i]] + CollapseFrom(t, i + 1);
    }
  }

  /** Collapsing leaves text of the shape `clean_text` produces as it is, wherever it stands. */
  lemma CollapseAround(p: string, m: string, q: string)
    requires IsNormal(m) && m != []
    ensures Collapse(p + m + q) == Collapse(p) + m + Collapse(q)
  {
    assert p + m + q == p + (m + q);
    CollapseAppend(p, m + q, 0);
    CollapseKeeps(m, q, 0);
    CollapseShift(m, q, 0);
    assert m[0..] == m;
  }

  /** `strip()` leaves whole any text inside that starts and ends with a non-space. */
  lemma StripKeepsInner(c: string, m: string, i: nat)
    requires OccursAt(m, c, i) && m != []
    requires !IsSpace(m[0]) && !IsSpace(m[|m| - 1])
    ensures Occurs(m, Strip(c))
  {
    assert c[i] == m[0] && c[i + |m| - 1] == m[|m| - 1] by {
      assert c[i..i + |m|][0] == c[i];
      assert c[i..i + |m|][|m| - 1] == c[i + |m| - 1];
    }
    var a := SpanSpaces(c, 0);
    SpanIsSpace(c, 0);
    TrailIsSpace(c, |c|);
    var b := TrailStart(c, |c|);
    assert a <= i && i + |m| <= b;
    var inner := c[a..b];
    var sub, part := inner[i - a..i - a + |m|], c[i..i + |m|];
    forall k | 0 <= k < |m| ensures sub[k] == part[k] {
      assert inner[i - a + k] == c[i + k];
    }
    assert OccursAt(m, Strip(c), i - a);
  }

  /**
   * Text in the shape `clean_text` produces, standing anywhere in `p + m + q`,
   * is still there after `clean_text`: the whitespace around it collapses and
   * is stripped, but it is left whole.
   */
  lemma NormalSurvivesClean(p: string, m: string, q: string)
    requires IsNormal(m) && m != []
    ensures Occurs(m, CleanText(p + m + q))
  {
    CollapseAround(p, m, q);
    var x := Collapse(p);
    var c := x + m + Collapse(q);
    assert c[|x|..|x| + |m|] == m;
    StripKeepsInner(c, m, |x|);
  }

  /** `pat` occurs in `s` starting at index `i`. */
  ghost predicate OccursAt(pat: string, s: string, i: int) {
    0 <= i && i + |pat| <= |s| && s[i..i + |pat|] == pat
  }

  /** Python's `pat in s`. */
  ghost predicate Occurs(pat: string, s: string) {
    exists i :: OccursAt(pat, s, i)
  }

  /** What occurs in a string occurs in any string around it. */
  lemma OccursInside(pat: string, p: string, s: string, q: string)
    requires Occurs(pat, s)
    ensures Occurs(pat, p + s + q)
  {
    var k :| OccursAt(pat, s, k);
    assert (p + s + q)[|p| + k..|p| + k + |pat|] == s[k..k + |pat|];
    assert OccursAt(pat, p + s + q, |p| + k);
  }

  /** `s.find(pat, i)`: the least occurrence index at or after `i`, or -1. */
  function FindFrom(pat: string, s: string, i: nat): (r: int)
    requires i <= |s|
    ensures r == -1 || (i <= r && OccursAt(pat, s, r))
    ensures forall j :: i <= j && (r == -1 || j < r) ==> !OccursAt(pat, s, j)
    decreases |s| - i
  {
    if i + |pat| > |s| then -1
    else if s[i..i + |pat|] == pat then i
    else if i == |s| then -1
    else FindFrom(pat, s, i + 1)
  }

  /** `s.find(pat)`: -1 when `pat` does not occur, otherwise its first occurrence. */
  function Find(pat: string, s: string): (r: int)
    ensures r == -1 <==> !Occurs(pat, s)
    ensures r != -1 ==> OccursAt(pat, s, r) && forall j :: 0 <= j < r ==> !OccursAt(pat, s, j)
  {
    FindFrom(pat, s, 0)
  }

  /** Python's `max(a, b)` on integers. */
  function Max(a: int, b: int): int {
    if a >= b then a else b
  }

  /** Python's `min(a, b)` on integers. */
  function Min(a: int, b: int): int {
    if a <= b then a else b
  }
}
