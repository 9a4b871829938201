/**
 * `detect_companies`: the company names and tickers a question mentions, as
 * the annual-report files to restrict retrieval to. Matching is on the
 * lower-cased query, whole words only, and the files come out in the order of
 * the alias table, each once.
 */
module CompanyFilter {

  /** `c.lower()` for ASCII letters; every other character is left as it is. */
  function LowerChar(c: char): (r: char)
    ensures 'A' <= c <= 'Z' ==> 'a' <= r <= 'z' && r as int - c as int == 32
    ensures !('A' <= c <= 'Z') ==> r == c
  {
    if 'A' <= c <= 'Z' then (c as int + 32) as char else c
  }

  /** `s.lower()`. */
  function Lower(s: string): (r: string)
    ensures |r| == |s|
    ensures forall i :: 0 <= i < |s| ==> r[i] == LowerChar(s[i])
  {
    seq(|s|, i requires 0 <= i < |s| => LowerChar(s[i]))
  }

  /** Lower-casing twice is lower-casing once. */
  lemma LowerIdempotent(s: string)
    ensures Lower(Lower(s)) == Lower(s)
  {
    assert forall i :: 0 <= i < |s| ==> LowerChar(LowerChar(s[i])) == LowerChar(s[i]);
  }

  /** A character that `\w` matches: an ASCII letter, digit or underscore. */
  predicate IsWordChar(c: char) {
    'a' <= c <= 'z' || 'A' <= c <= 'Z' || '0' <= c <= '9' || c == '_'
  }

  /**
   * `\b<word>\b` matches at `i`: the word is there, and neither the character
   * before it nor the one after it is a word character. (Every alias begins
   * and ends with a letter, so both `\b` are boundaries of this kind.)
   */
  predicate WholeWordAt(word: string, s: string, i: nat) {
    && i + |word| <= |s|
    && s[i..i + |word|] == word
    && (i == 0 || !IsWordChar(s[i - 1]))
    && (i + |word| == |s| || !IsWordChar(s[i + |word|]))
  }

  /** `re.search(r'\b' + re.escape(word) + r'\b', s)` from position `i` on. */
  function SearchWordFrom(word: string, s: string, i: nat): (found: bool)
    requires word != [] && i <= |s|
    decreases |s| - i
  {
    if i + |word| > |s| then false
    else WholeWordAt(word, s, i) || SearchWordFrom(word, s, i + 1)
  }

  /** Whether `re.search(r'\b' + re.escape(word) + r'\b', s)` finds a match. */
  function SearchWord(word: string, s: string): bool
    requires word != []
  {
    SearchWordFrom(word, s, 0)
  }

  /** The scan finds a match exactly when the word occurs whole at some position. */
  lemma {:induction false} SearchWordFromIff(word: string, s: string, i: nat)
    requires word != [] && i <= |s|
    ensures SearchWordFrom(word, s, i) <==> exists j :: i <= j && WholeWordAt(word, s, j)
    decreases |s| - i
  {
    if i + |word| > |s| {
      assert forall j :: i <= j ==> !WholeWordAt(word, s, j);
    } else {
      SearchWordFromIff(word, s, i + 1);
      assert forall j :: i <= j && WholeWordAt(word, s, j) ==> j == i || i + 1 <= j;
    }
  }

  /** `re.search` succeeds exactly when the word occurs whole somewhere. */
  lemma SearchWordIff(word: string, s: string)
    requires word != []
    ensures SearchWord(word, s) <==> exists j :: WholeWordAt(word, s, j)
  {
    SearchWordFromIff(word, s, 0);
  }

  /** The four annual reports the filter can select. */
  const NvidiaFile: string := "nvidia_10k.pdf"
  const AmdFile: string := "amd_10k.pdf"
  const IntelFile: string := "intel_10k.pdf"
  const BroadcomFile: string := "broadcom_10k.pdf"

  /** `company_patterns`, in the dict's insertion order: an alias and its files. */
  const CompanyPatterns: seq<(string, seq<string>)> := [
    ("nvidia", [NvidiaFile]),
    ("nvda", [NvidiaFile]),
    ("amd", [AmdFile]),
    ("intel", [IntelFile]),
    ("intc", [IntelFile]),
    ("broadcom", [BroadcomFile]),
    ("avgo", [BroadcomFile])
  ]

  /** The files of the first `n` aliases of the table that occur whole in `queryLower`, in table order. */
  function DetectedFiles(queryLower: string, n: nat): seq<string>
    requires n <= |CompanyPatterns|
  {
    if n == 0 then []
    else
      var (alias, files) := CompanyPatterns[n - 1];
      DetectedFiles(queryLower, n - 1) + (if SearchWord(alias, queryLower) then files else [])
  }

  /** `list(dict.fromkeys(xs))`: every element once, at its first occurrence. */
  function Dedup(xs: seq<string>): seq<string>
    decreases |xs|
  {
    if xs == [] then []
    else
      var init := Dedup(xs[..|xs| - 1]);
      if xs[|xs| - 1] in init then init else init + [xs[|xs| - 1]]
  }

  /** No element twice. */
  ghost predicate Distinct(xs: seq<string>) {
    forall i, j :: 0 <= i < j < |xs| ==> xs[i] != xs[j]
  }

  /** The deduplicated list holds the same elements, each once. */
  lemma {:induction false} DedupSpec(xs: seq<string>)
    ensures forall x :: x in Dedup(xs) <==> x in xs
    ensures Distinct(Dedup(xs))
    decreases |xs|
  {
    if xs != [] {
      var init := xs[..|xs| - 1];
      DedupSpec(init);
      assert xs == init + [xs[|xs| - 1]];
    }
  }

  /** Deduplication keeps the order of first occurrences: it never lets a later element overtake an earlier one. */
  lemma {:induction false} DedupKeepsOrder(xs: seq<string>, ys: seq<string>)
    ensures Dedup(xs) <= Dedup(xs + ys)
    decreases |ys|
  {
    if ys == [] {
      assert xs + ys == xs;
    } else {
      var init := ys[..|ys| - 1];
      DedupKeepsOrder(xs, init);
      assert (xs + ys)[..|xs + ys| - 1] == xs + init;
    }
  }

  /** The result of `detect_companies(query)`. */
  function Detect(query: string): seq<string> {
    Dedup(DetectedFiles(Lower(query), |CompanyPatterns|))
  }

  /** `detect_companies(query)`: the loop over the alias table, then the deduplication. */
  method DetectCompanies(query: string) returns (files: seq<string>)
    ensures files == Detect(query)
  {
    var queryLower := Lower(query);
    var detected: seq<string> := [];
    for k := 0 to |CompanyPatterns|
      invariant detected == DetectedFiles(queryLower, k)
    {
      var (alias, patterns) := CompanyPatterns[k];
      if SearchWord(alias, queryLower) {
        detected := detected + patterns;
      }
    }
    files := Dedup(detected);
  }

  /** A file is collected exactly when one of its aliases occurs whole in the lower-cased query. */
  lemma {:induction false} DetectedFilesIff(queryLower: string, n: nat, f: string)
    requires n <= |CompanyPatterns|
    ensures f in DetectedFiles(queryLower, n) <==>
      exists k :: 0 <= k < n && f in CompanyPatterns[k].1 && SearchWord(CompanyPatterns[k].0, queryLower)
  {
    if n > 0 {
      DetectedFilesIff(queryLower, n - 1, f);
    }
  }

  /**
   * The result holds a file exactly when one of its aliases occurs as a whole
   * word in the lower-cased query, and holds it once.
   */
  lemma DetectIff(query: string, f: string)
    ensures f in Detect(query) <==>
      exists k :: 0 <= k < |CompanyPatterns| && f in CompanyPatterns[k].1
        && exists j :: WholeWordAt(CompanyPatterns[k].0, Lower(query), j)
    ensures Distinct(Detect(query))
  {
    var detected := DetectedFiles(Lower(query), |CompanyPatterns|);
    DedupSpec(detected);
    DetectedFilesIff(Lower(query), |CompanyPatterns|, f);
    forall k | 0 <= k < |CompanyPatterns| {
      SearchWordIff(CompanyPatterns[k].0, Lower(query));
    }
  }

  /** Every file the filter returns is one of the four annual reports. */
  lemma DetectOnlyKnownFiles(query: string)
    ensures forall f :: f in Detect(query) ==> f in {NvidiaFile, AmdFile, IntelFile, BroadcomFile}
  {
    forall f | f in Detect(query)
      ensures f in {NvidiaFile, AmdFile, IntelFile, BroadcomFile}
    {
      DetectIff(query, f);
    }
  }

  /** Matching ignores case: a query and its lower-cased form select the same files. */
  lemma DetectIgnoresCase(query: string)
    ensures Detect(Lower(query)) == Detect(query)
  {
    LowerIdempotent(query);
  }

  /** A query that mentions no alias as a whole word selects nothing, so every filing is searched. */
  lemma DetectNone(query: string)
    requires forall k, j :: 0 <= k < |CompanyPatterns| ==> !WholeWordAt(CompanyPatterns[k].0, Lower(query), j)
    ensures Detect(query) == []
  {
    var detected := DetectedFiles(Lower(query), |CompanyPatterns|);
    if detected != [] {
      DetectIff(query, detected[0]);
      DedupSpec(detected);
    }
  }

  /** "amd" inside "amd64" is not a whole word, so it selects nothing. */
  lemma AliasInsideWordDoesNotMatch()
    ensures !SearchWord("amd", "amd64")
    ensures WholeWordAt("amd", "amd 64", 0)
  {
    assert !WholeWordAt("amd", "amd64", 0) by {
      assert IsWordChar("amd64"[3]);
    }
    assert !WholeWordAt("amd", "amd64", 1) by {
      assert "amd64"[1..4] != "amd" by { assert "amd64"[1..4][0] == 'm'; }
    }
    assert !WholeWordAt("amd", "amd64", 2) by {
      assert "amd64"[2..5] != "amd" by { assert "amd64"[2..5][0] == 'd'; }
    }
    assert "amd 64"[0..3] == "amd";
  }

  /**
   * A ticker and a name in any case: "INTC vs AMD comparison" selects the AMD
   * and the Intel report, in the order of the alias table ("amd" comes before
   * "intc"), not in the order of the query.
   */
  lemma TickerAndName()
    ensures Detect("INTC vs AMD comparison") == [AmdFile, IntelFile]
  {
    TickerAndNameLower();
    DetectIntcVsAmd("INTC vs AMD comparison");
  }

  /** Every spelling of the query that lower-cases to "intc vs amd comparison" selects the AMD and then the Intel report. */
  lemma DetectIntcVsAmd(query: string)
    requires Lower(query) == "intc vs amd comparison"
    ensures Detect(query) == [AmdFile, IntelFile]
  {
    TickerAndNameDetected(Lower(query));
    var both := [AmdFile, IntelFile];
    assert both[..1] == [AmdFile];
    assert Dedup([AmdFile]) == [AmdFile];
    assert IntelFile != AmdFile;
    assert Dedup(both) == both;
  }

  /** "INTC vs AMD comparison" lower-cases to "intc vs amd comparison". Serves only the proof of `TickerAndName`. */
  lemma TickerAndNameLower()
    ensures Lower("INTC vs AMD comparison") == "intc vs amd comparison"
  {
  }

  /** Of the whole alias table, only "amd" and then "intc" occur in the lower-cased query. Serves only the proof of `TickerAndName`. */
  lemma TickerAndNameDetected(lower: string)
    requires lower == "intc vs amd comparison"
    ensures DetectedFiles(lower, |CompanyPatterns|) == [AmdFile, IntelFile]
  {
    AbsentFromQuery("nvidia", lower);
    assert DetectedFiles(lower, 1) == [];
    AbsentFromQuery("nvda", lower);
    assert DetectedFiles(lower, 2) == [];
    PresentInQuery("amd", lower, 8);
    assert DetectedFiles(lower, 3) == [AmdFile];
    IntelAbsentFromQuery(lower);
    assert DetectedFiles(lower, 4) == [AmdFile];
    PresentInQuery("intc", lower, 0);
    assert DetectedFiles(lower, 5) == [AmdFile, IntelFile];
    AbsentFromQuery("broadcom", lower);
    assert DetectedFiles(lower, 6) == [AmdFile, IntelFile];
    AbsentFromQuery("avgo", lower);
  }

  /** A whole-word match of an alias spells the alias out in the text. */
  lemma WholeWordChars(word: string, s: string, j: nat)
    requires WholeWordAt(word, s, j)
    ensures forall k :: 0 <= k < |word| ==> s[j + k] == word[k]
  {
    forall k | 0 <= k < |word| ensures s[j + k] == word[k] {
      assert s[j..j + |word|][k] == s[j + k];
    }
  }

  /** The words of "intc vs amd comparison" start at 0, 5, 8 and 12. Serves only the proof of `TickerAndName`. */
  lemma QueryWordStarts(s: string)
    requires s == "intc vs amd comparison"
    ensures forall j: nat :: 0 < j < |s| && IsWordChar(s[j]) && !IsWordChar(s[j - 1]) ==> j == 5 || j == 8 || j == 12
  {
  }

  /** An alias whose first two letters begin none of the words of "intc vs amd comparison" does not occur whole in it. Serves only the proof of `TickerAndName`. */
  lemma AbsentFromQuery(word: string, s: string)
    requires s == "intc vs amd comparison"
    requires |word| >= 2 && IsWordChar(word[0])
    requires (word[0], word[1]) !in {('i', 'n'), ('v', 's'), ('a', 'm'), ('c', 'o')}
    ensures !SearchWord(word, s)
  {
    QueryWordStarts(s);
    forall j: nat | WholeWordAt(word, s, j) ensures false {
      WholeWordChars(word, s, j);
    }
    SearchWordIff(word, s);
  }

  /** "intel" shares its first two letters with the query's "intc" but not its fourth. Serves only the proof of `TickerAndName`. */
  lemma IntelAbsentFromQuery(s: string)
    requires s == "intc vs amd comparison"
    ensures !SearchWord("intel", s)
  {
    QueryWordStarts(s);
    forall j: nat | WholeWordAt("intel", s, j) ensures false {
      WholeWordChars("intel", s, j);
    }
    SearchWordIff("intel", s);
  }

  /** An alias that stands whole at position `j` of the query is found. Serves only the proof of `TickerAndName`. */
  lemma PresentInQuery(word: string, s: string, j: nat)
    requires s == "intc vs amd comparison"
    requires word != [] && j + |word| <= |s| && s[j..j + |word|] == word
    requires j == 0 || !IsWordChar(s[j - 1])
    requires j + |word| == |s| || !IsWordChar(s[j + |word|])
    ensures SearchWord(word, s)
  {
    assert WholeWordAt(word, s, j);
    SearchWordIff(word, s);
  }
}
