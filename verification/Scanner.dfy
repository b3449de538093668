/**
 The keyword scanner (internal/modules/articleinspect/scan/scanner.go).

 Lower-casing is a per-character map, so it keeps lengths: offsets found in the lower-cased text index
 the original text. Regular expressions are a parameter: the spans the library finds.
 */
module Scanner {
  import opened Common
  import opened Text

  /** The fields a rule can look at. A scope or match type the program does not know matches nothing. */
  datatype Scope = Title | ShortTitle | RichTitle | Keyword | Desc | Body | UnknownScope

  /** Match types, after trimming and lower-casing. */
  datatype MatchType = Contains | Exact | Regex | UnknownMatch

  datatype Rule = Rule(
    id: Id,
    name: string,
    category: string,
    matchType: MatchType,
    riskLevel: string,
    suggestAction: string,
    scopes: seq<Scope>)

  datatype Article = Article(
    id: Id,
    orgId: Id,
    title: string,
    shortTitle: string,
    richTitle: string,
    keyword: string,
    desc: string,
    body: string,
    state: int,
    publishAt: Time)

  datatype Hit = Hit(
    keywordId: Id,
    keywordText: string,
    category: string,
    fieldName: Scope,
    matchType: MatchType,
    riskLevel: string,
    suggestAction: string,
    matchedText: string,
    snippet: string,
    start: int,
    end: int)

  datatype Span = Span(start: nat, end: nat)

  /** The library functions the program's scanner is built on: lower-casing, the case-folding class of a
      character, and the matches of a regular expression. */
  datatype Library = Library(lower: char -> char, fold: char -> char, findAll: (string, string) -> seq<Span>)

  /** The functions the scanner works with and its settings. What is proved of the search holds
      whatever `trim`, `findAll` and `snippet` do; NewScanner gives the scanner the program uses. */
  datatype Config = Config(
    lower: char -> char,
    fold: char -> char,
    trim: string -> string,
    findAll: (string, string) -> seq<Span>,
    snippet: (string, nat, nat) -> string,
    maxRegexLength: int)

  // ---------- greedy search ----------

  /** The leftmost occurrence from `from` on, then the leftmost one after its end, and so on. */
  function Greedy(text: string, needle: string, from: nat): (r: seq<nat>)
    requires from <= |text| && |needle| > 0
    decreases |text| - from
  {
    var p := IndexFrom(text, needle, from);
    if p < 0 then [] else [p] + Greedy(text, needle, p + |needle|)
  }

  /** p lies in a window of length n that starts at one of the first m positions. */
  ghost predicate Covered(starts: seq<nat>, m: nat, n: nat, p: int)
    requires m <= |starts|
  {
    exists k | 0 <= k < m :: starts[k] <= p < starts[k] + n
  }

  /** g lists occurrences from `from` on, in order and pairwise disjoint. */
  ghost predicate Disjoint(text: string, needle: string, from: nat, g: seq<nat>) {
    && (forall k | 0 <= k < |g| :: from <= g[k] && OccursAt(text, needle, g[k]))
    && (forall j, k | 0 <= j < k < |g| :: g[j] + |needle| <= g[k])
  }

  lemma DisjointCons(text: string, needle: string, from: nat, p: nat, rest: seq<nat>)
    requires from <= p && OccursAt(text, needle, p) && Disjoint(text, needle, p + |needle|, rest)
    ensures Disjoint(text, needle, from, [p] + rest)
  {
    var g := [p] + rest;
    forall k | 0 <= k < |g| ensures from <= g[k] && OccursAt(text, needle, g[k]) {
      assert k > 0 ==> g[k] == rest[k - 1];
    }
  }

  lemma {:induction false} GreedyIsDisjoint(text: string, needle: string, from: nat)
    requires from <= |text| && |needle| > 0
    ensures Disjoint(text, needle, from, Greedy(text, needle, from))
    decreases |text| - from
  {
    var p := GreedyHead(text, needle, from);
    if p >= 0 {
      GreedyIsDisjoint(text, needle, p + |needle|);
      DisjointCons(text, needle, from, p, Greedy(text, needle, p + |needle|));
    }
  }

  lemma GreedyHead(text: string, needle: string, from: nat) returns (p: int)
    requires from <= |text| && |needle| > 0
    ensures p < 0 ==> Greedy(text, needle, from) == []
    ensures p >= 0 ==> from <= p && OccursAt(text, needle, p) && Greedy(text, needle, from) == [p] + Greedy(text, needle, p + |needle|)
  {
    p := IndexFrom(text, needle, from);
    var g := Greedy(text, needle, from);
    if p < 0 {
      assert g == [];
    } else {
      var rest := Greedy(text, needle, p + |needle|);
      assert g == [p] + rest;
    }
  }

  /** Every occurrence, reported or not, starts inside a reported one. */
  lemma {:induction false} GreedyCovers(text: string, needle: string, from: nat, q: nat)
    requires from <= |text| && |needle| > 0 && from <= q && OccursAt(text, needle, q)
    ensures Covered(Greedy(text, needle, from), |Greedy(text, needle, from)|, |needle|, q)
    decreases |text| - from
  {
    var p := IndexFrom(text, needle, from);
    var g, rest := Greedy(text, needle, from), Greedy(text, needle, p + |needle|);
    if q < p + |needle| {
      assert g[0] <= q < g[0] + |needle|;
    } else {
      GreedyCovers(text, needle, p + |needle|, q);
      var k :| 0 <= k < |rest| && rest[k] <= q < rest[k] + |needle|;
      assert g[k + 1] == rest[k];
    }
  }

  /** No two positions of s are closer than n. */
  ghost predicate Apart(s: set<nat>, n: nat) {
    forall p, q | p in s && q in s && p < q :: p + n <= q
  }

  /** Of positions at least n apart, at most one lies in any window of length n. */
  lemma OneInWindow(s: set<nat>, n: nat, at: nat)
    requires Apart(s, n)
    ensures |set p | p in s && at <= p < at + n| <= 1
  {
    var w := set p | p in s && at <= p < at + n;
    if w != {} {
      var p :| p in w;
      assert w == {p};
    }
  }

  lemma {:induction false} CoverBounds(starts: seq<nat>, m: nat, n: nat, s: set<nat>)
    requires m <= |starts| && Apart(s, n) && forall p | p in s :: Covered(starts, m, n, p)
    ensures |s| <= m
  {
    if m == 0 {
      assert s == {};
    } else {
      var at := starts[m - 1];
      var window := set p | p in s && at <= p < at + n;
      forall p | p in s - window ensures Covered(starts, m - 1, n, p) {
        var k :| 0 <= k < m && starts[k] <= p < starts[k] + n;
        assert k < m - 1;
      }
      CoverBounds(starts, m - 1, n, s - window);
      OneInWindow(s, n, at);
      assert |s| == |s - window| + |window|;
    }
  }

  /** No set of pairwise disjoint occurrences has more than n members. */
  ghost predicate NoMoreThan(text: string, needle: string, n: nat) {
    forall s: set<nat> | Apart(s, |needle|) && (forall p | p in s :: OccursAt(text, needle, p)) :: |s| <= n
  }

  /** No set of pairwise disjoint occurrences is larger than the one greedy search finds. */
  lemma GreedyIsMaximum(text: string, needle: string, s: set<nat>)
    requires |needle| > 0 && Apart(s, |needle|) && forall p | p in s :: OccursAt(text, needle, p)
    ensures |s| <= |Greedy(text, needle, 0)|
  {
    var g := Greedy(text, needle, 0);
    forall p | p in s ensures Covered(g, |g|, |needle|, p) {
      GreedyCovers(text, needle, 0, p);
    }
    CoverBounds(g, |g|, |needle|, s);
  }

  // ---------- hits ----------

  function SnippetLow(start: nat, size: nat): nat {
    if start < size then 0 else start - size
  }

  function SnippetHigh(text: string, end: nat, size: nat): nat {
    if end + size > |text| then |text| else end + size
  }

  function Ellipsis(cut: bool): (r: string)
    ensures |r| == if cut then 3 else 0
  {
    if cut then "..." else ""
  }

  function WindowSize(window: int): nat {
    if window <= 0 then 24 else window
  }

  /** buildSnippet */
  function Snippet(text: string, start: nat, end: nat, window: int): (r: string)
    requires start <= end <= |text|
  {
    if text == "" then ""
    else
      var lo, hi := SnippetLow(start, WindowSize(window)), SnippetHigh(text, end, WindowSize(window));
      Ellipsis(lo > 0) + text[lo..hi] + Ellipsis(hi < |text|)
  }

  /** How much of `available` text a snippet shows on one side of the match, ellipsis included. */
  function Margin(available: nat, window: int): nat {
    if available <= WindowSize(window) then available else WindowSize(window) + 3
  }

  /** The snippet shows the match itself, with the window's worth of text on either side, or all there is;
      an ellipsis marks each side on which text was left out. */
  ghost predicate ShowsMatch(snippet: string, text: string, start: nat, end: nat, window: int)
    requires start <= end <= |text|
  {
    && OccursAt(snippet, text[start..end], Margin(start, window))
    && |snippet| == Margin(start, window) + (end - start) + Margin(|text| - end, window)
  }

  lemma SnippetShowsMatch(text: string, start: nat, end: nat, window: int)
    requires start <= end <= |text|
    ensures ShowsMatch(Snippet(text, start, end, window), text, start, end, window)
  {
    if text != "" {
      var lo, hi := SnippetLow(start, WindowSize(window)), SnippetHigh(text, end, WindowSize(window));
      PaddedSlice(text, start, end, lo, hi, Ellipsis(lo > 0), Ellipsis(hi < |text|));
      assert |Ellipsis(lo > 0)| + start - lo == Margin(start, window);
      assert hi - end + |Ellipsis(hi < |text|)| == Margin(|text| - end, window);
    }
  }

  /** Around the match the snippet shows the text as it is, up to `size` characters on either side, and an
      ellipsis where text was left out. `shift` is how far the match moved to the left. */
  ghost predicate ShowsContext(snippet: string, text: string, start: nat, end: nat, size: nat, shift: int) {
    && (forall j | 0 <= j < |text| && start - size <= j < end + size :: 0 <= j - shift < |snippet| && snippet[j - shift] == text[j])
    && (start > size ==> "..." <= snippet && shift == start - size - 3)
    && (start <= size ==> shift == 0)
    && (|text| > end + size ==> |snippet| == end + size - shift + 3 && snippet[|snippet| - 3..] == "...")
    && (|text| <= end + size ==> |snippet| == |text| - shift)
  }

  lemma SnippetShowsContext(text: string, start: nat, end: nat, window: int)
    requires start <= end <= |text|
    ensures
      var size := WindowSize(window);
      ShowsContext(Snippet(text, start, end, window), text, start, end, size, if start > size then start - size - 3 else 0)
  {
    if text != "" {
      var lo, hi := SnippetLow(start, WindowSize(window)), SnippetHigh(text, end, WindowSize(window));
      PaddedShowsContext(text, start, end, WindowSize(window), lo, hi, Ellipsis(lo > 0), Ellipsis(hi < |text|));
    }
  }

  lemma PaddedShowsContext(text: string, start: nat, end: nat, size: nat, lo: nat, hi: nat, before: string, after: string)
    requires start <= end <= |text| && lo == SnippetLow(start, size) && hi == SnippetHigh(text, end, size)
    requires before == Ellipsis(lo > 0) && after == Ellipsis(hi < |text|)
    ensures ShowsContext(before + text[lo..hi] + after, text, start, end, size, if start > size then start - size - 3 else 0)
  {
    PaddedWindow(text, lo, hi, before, after);
    WindowShowsContext(before + text[lo..hi] + after, text, start, end, size, lo, hi, before, after);
  }

  lemma WindowShowsContext(padded: string, text: string, start: nat, end: nat, size: nat, lo: nat, hi: nat, before: string, after: string)
    requires start <= end <= |text| && lo == SnippetLow(start, size) && hi == SnippetHigh(text, end, size)
    requires before == Ellipsis(lo > 0) && after == Ellipsis(hi < |text|)
    requires |padded| == |before| + (hi - lo) + |after| && before <= padded && padded[|padded| - |after|..] == after
    requires forall j | lo <= j < hi :: padded[|before| + j - lo] == text[j]
    ensures ShowsContext(padded, text, start, end, size, if start > size then start - size - 3 else 0)
  {
    var shift := lo - |before|;
    forall j | 0 <= j < |text| && start - size <= j < end + size ensures 0 <= j - shift < |padded| && padded[j - shift] == text[j] {
      assert lo <= j < hi;
      assert padded[|before| + j - lo] == text[j];
    }
  }

  lemma PaddedWindow(text: string, lo: nat, hi: nat, before: string, after: string)
    requires lo <= hi <= |text|
    ensures
      var padded := before + text[lo..hi] + after;
      && |padded| == |before| + (hi - lo) + |after|
      && before <= padded && padded[|padded| - |after|..] == after
      && forall j | lo <= j < hi :: padded[|before| + j - lo] == text[j]
  {
    var shown := text[lo..hi];
    assert before <= before + shown + after;
    assert (before + shown + after)[|before| + |shown|..] == after;
    assert forall j | lo <= j < hi :: shown[j - lo] == text[j];
  }

  lemma PaddedSlice(text: string, start: nat, end: nat, lo: nat, hi: nat, before: string, after: string)
    requires lo <= start <= end <= hi <= |text|
    ensures OccursAt(before + text[lo..hi] + after, text[start..end], |before| + start - lo)
    ensures |before + text[lo..hi] + after| == |before| + (hi - lo) + |after|
  {
    PartShown(before, text[lo..hi], after, start - lo, end - lo);
    SliceOfSlice(text, lo, hi, start, end);
  }

  lemma PartShown(before: string, shown: string, after: string, i: nat, j: nat)
    requires i <= j <= |shown|
    ensures OccursAt(before + shown + after, shown[i..j], |before| + i)
    ensures |before + shown + after| == |before| + |shown| + |after|
  {
    MiddleSlice(before, shown, after, i, j);
  }

  lemma SliceOfSlice(text: string, lo: nat, hi: nat, start: nat, end: nat)
    requires lo <= start <= end <= hi <= |text|
    ensures text[lo..hi][start - lo..end - lo] == text[start..end]
  {
    var a, b := text[lo..hi][start - lo..end - lo], text[start..end];
    forall i | 0 <= i < |b| ensures a[i] == b[i] {
      assert a[i] == text[lo..hi][start - lo + i];
    }
  }

  lemma MiddleSlice(a: string, b: string, c: string, i: nat, j: nat)
    requires i <= j <= |b|
    ensures (a + b + c)[|a| + i..|a| + j] == b[i..j]
  {
  }

  method BuildSnippet(text: string, start: nat, end: nat, contextWindow: int) returns (snippet: string)
    requires start <= end <= |text|
    ensures snippet == Snippet(text, start, end, contextWindow)
    ensures ShowsMatch(snippet, text, start, end, contextWindow)
    ensures
      var size := if contextWindow <= 0 then 24 else contextWindow;
      ShowsContext(snippet, text, start, end, size, if start > size then start - size - 3 else 0)
  {
    SnippetShowsMatch(text, start, end, contextWindow);
    SnippetShowsContext(text, start, end, contextWindow);
    snippet := CutSnippet(text, start, end, contextWindow);
  }

  /** The computation of buildSnippet. */
  method CutSnippet(text: string, start: nat, end: nat, contextWindow: int) returns (snippet: string)
    requires start <= end <= |text|
    ensures snippet == Snippet(text, start, end, contextWindow)
  {
    if text == "" {
      return "";
    }
    var window := if contextWindow <= 0 then 24 else contextWindow;
    var lo := start - window;
    if lo < 0 {
      lo := 0;
    }
    var hi := end + window;
    if hi > |text| {
      hi := |text|;
    }
    var prefix := "";
    var suffix := "";
    if lo > 0 {
      prefix := "...";
    }
    if hi < |text| {
      suffix := "...";
    }
    assert lo == SnippetLow(start, window) && hi == SnippetHigh(text, end, window);
    assert prefix == Ellipsis(lo > 0) && suffix == Ellipsis(hi < |text|);
    snippet := prefix + text[lo..hi] + suffix;
  }

  function NewScanner(lib: Library, snippetContext: int, maxRegexLength: int): Config {
    Config(
      lib.lower,
      lib.fold,
      (s: string) => Trim(s),
      lib.findAll,
      (text: string, start: nat, end: nat) =>
        if start <= end <= |text| then Snippet(text, start, end, snippetContext) else "",
      maxRegexLength)
  }

  function BuildHit(cfg: Config, rule: Rule, field: Scope, text: string, matched: string, start: nat, end: nat): Hit {
    Hit(rule.id, rule.name, rule.category, field, rule.matchType, rule.riskLevel, rule.suggestAction,
        matched, cfg.snippet(text, start, end), start, end)
  }

  /** The hit for n characters of the field from `start` on. */
  function HitAt(cfg: Config, rule: Rule, field: Scope, value: string, n: nat, start: nat): Hit {
    BuildHit(cfg, rule, field, value, if start + n <= |value| then value[start..start + n] else "", start, start + n)
  }

  /** What makes a hit of a start. */
  type HitMaker = nat -> Hit

  function MakeHit(cfg: Config, rule: Rule, field: Scope, value: string, n: nat): HitMaker {
    (start: nat) => HitAt(cfg, rule, field, value, n, start)
  }

  /** One hit for each start. */
  function HitsAt(make: HitMaker, starts: seq<nat>): (r: seq<Hit>)
    ensures |r| == |starts| && forall k | 0 <= k < |r| :: r[k] == make(starts[k])
  {
    if starts == [] then [] else HitsAt(make, starts[..|starts| - 1]) + [make(starts[|starts| - 1])]
  }

  function ContainsSpec(cfg: Config, rule: Rule, field: Scope, value: string): seq<Hit> {
    var needle := cfg.trim(rule.name);
    if needle == "" then []
    else HitsAt(MakeHit(cfg, rule, field, value, |needle|), Greedy(Lower(cfg.lower, value), Lower(cfg.lower, needle), 0))
  }

  /** A hit is a case-insensitive match and quotes the text it stands for. */
  predicate Quotes(lower: char -> char, needle: string, value: string, hit: Hit) {
    && 0 <= hit.start <= hit.end == hit.start + |needle| <= |value|
    && hit.matchedText == value[hit.start..hit.end]
    && Lower(lower, hit.matchedText) == Lower(lower, needle)
  }

  ghost predicate InsideSome(hits: seq<Hit>, p: nat) {
    exists k | 0 <= k < |hits| :: hits[k].start <= p < hits[k].end
  }

  /** What containsHits promises about its result, in terms of the text alone: true matches, in text order,
      pairwise disjoint, and every occurrence of the keyword starts inside some hit. */
  ghost predicate FindsAll(lower: char -> char, needle: string, value: string, hits: seq<Hit>) {
    && (forall k | 0 <= k < |hits| :: Quotes(lower, needle, value, hits[k]))
    && (forall j, k | 0 <= j < k < |hits| :: hits[j].end <= hits[k].start)
    && (forall p: nat | OccursAt(Lower(lower, value), Lower(lower, needle), p) :: InsideSome(hits, p))
  }

  lemma MatchQuotes(cfg: Config, rule: Rule, field: Scope, needle: string, value: string, start: nat)
    requires OccursAt(Lower(cfg.lower, value), Lower(cfg.lower, needle), start)
    ensures Quotes(cfg.lower, needle, value, HitAt(cfg, rule, field, value, |needle|, start))
  {
    var part := value[start..start + |needle|];
    assert Lower(cfg.lower, part) == Lower(cfg.lower, value)[start..start + |needle|];
  }

  /** Hits made at the greedy starts are in order, disjoint, and cover every occurrence. */
  lemma GreedyHitsCover(make: HitMaker, text: string, low: string)
    requires low != "" && forall p: nat :: make(p).start == p && make(p).end == p + |low|
    ensures
      var hits := HitsAt(make, Greedy(text, low, 0));
      && (forall j, k | 0 <= j < k < |hits| :: hits[j].end <= hits[k].start)
      && (forall p: nat | OccursAt(text, low, p) :: InsideSome(hits, p))
  {
    var g := Greedy(text, low, 0);
    var hits := HitsAt(make, g);
    GreedyIsDisjoint(text, low, 0);
    forall p: nat | OccursAt(text, low, p) ensures InsideSome(hits, p) {
      GreedyCovers(text, low, 0, p);
      var k :| 0 <= k < |g| && g[k] <= p < g[k] + |low|;
      assert hits[k].start <= p < hits[k].end;
    }
  }

  lemma GreedyHitsQuote(cfg: Config, rule: Rule, field: Scope, needle: string, value: string, k: nat)
    requires needle != "" && k < |Greedy(Lower(cfg.lower, value), Lower(cfg.lower, needle), 0)|
    ensures
      var start := Greedy(Lower(cfg.lower, value), Lower(cfg.lower, needle), 0)[k];
      Quotes(cfg.lower, needle, value, HitAt(cfg, rule, field, value, |needle|, start))
  {
    var text, low := Lower(cfg.lower, value), Lower(cfg.lower, needle);
    GreedyIsDisjoint(text, low, 0);
    assert OccursAt(text, low, Greedy(text, low, 0)[k]);
    MatchQuotes(cfg, rule, field, needle, value, Greedy(text, low, 0)[k]);
  }

  lemma GreedyHitsFindAll(cfg: Config, rule: Rule, field: Scope, needle: string, value: string)
    requires needle != ""
    ensures FindsAll(cfg.lower, needle, value,
      HitsAt(MakeHit(cfg, rule, field, value, |needle|), Greedy(Lower(cfg.lower, value), Lower(cfg.lower, needle), 0)))
  {
    var make := MakeHit(cfg, rule, field, value, |needle|);
    var hits := HitsAt(make, Greedy(Lower(cfg.lower, value), Lower(cfg.lower, needle), 0));
    GreedyHitsCover(make, Lower(cfg.lower, value), Lower(cfg.lower, needle));
    forall k | 0 <= k < |hits| ensures Quotes(cfg.lower, needle, value, hits[k]) {
      GreedyHitsQuote(cfg, rule, field, needle, value, k);
    }
  }

  /** In the program's scanner the snippet of a hit shows the text the hit stands for. */
  lemma HitIsShown(lib: Library, context: int, maxRegex: int, rule: Rule, field: Scope, value: string, start: nat, end: nat)
    requires start <= end <= |value|
    ensures
      var hit := BuildHit(NewScanner(lib, context, maxRegex), rule, field, value, value[start..end], start, end);
      ShowsMatch(hit.snippet, value, start, end, context)
  {
    SnippetShowsMatch(value, start, end, context);
  }

  lemma HitAtIsShown(lib: Library, context: int, maxRegex: int, rule: Rule, field: Scope, value: string, n: nat, start: nat)
    requires start + n <= |value|
    ensures HitShown(value, MakeHit(NewScanner(lib, context, maxRegex), rule, field, value, n)(start), context)
  {
    BuiltHitShown(lib, context, maxRegex, rule, field, value, start, start + n);
    MadeHit(NewScanner(lib, context, maxRegex), rule, field, value, n, start);
  }

  lemma BuiltHitShown(lib: Library, context: int, maxRegex: int, rule: Rule, field: Scope, value: string, start: nat, end: nat)
    requires start <= end <= |value|
    ensures HitShown(value, BuildHit(NewScanner(lib, context, maxRegex), rule, field, value, value[start..end], start, end), context)
  {
    HitIsShown(lib, context, maxRegex, rule, field, value, start, end);
  }

  lemma MadeHit(cfg: Config, rule: Rule, field: Scope, value: string, n: nat, start: nat)
    requires start + n <= |value|
    ensures MakeHit(cfg, rule, field, value, n)(start) == BuildHit(cfg, rule, field, value, value[start..start + n], start, start + n)
    ensures QuotesSpan(value, MakeHit(cfg, rule, field, value, n)(start))
  {
  }

  lemma StartsFit(text: string, low: string, k: nat)
    requires low != "" && k < |Greedy(text, low, 0)|
    ensures Greedy(text, low, 0)[k] + |low| <= |text|
  {
    GreedyIsDisjoint(text, low, 0);
    assert OccursAt(text, low, Greedy(text, low, 0)[k]);
  }

  /** So every hit of a keyword carries a snippet that shows the matched text. */
  lemma KeywordHitsAreShown(lib: Library, context: int, maxRegex: int, rule: Rule, field: Scope, value: string)
    ensures
      var hits := ContainsSpec(NewScanner(lib, context, maxRegex), rule, field, value);
      forall k | 0 <= k < |hits| :: HitShown(value, hits[k], context)
  {
    var cfg := NewScanner(lib, context, maxRegex);
    var needle := cfg.trim(rule.name);
    if needle != "" {
      var text, low := Lower(cfg.lower, value), Lower(cfg.lower, needle);
      var starts, make := Greedy(text, low, 0), MakeHit(cfg, rule, field, value, |needle|);
      forall k | 0 <= k < |starts| ensures HitShown(value, make(starts[k]), context) {
        StartsFit(text, low, k);
        HitAtIsShown(lib, context, maxRegex, rule, field, value, |needle|, starts[k]);
      }
    }
  }

  /** The hit quotes its span of the field, and its snippet shows it. */
  ghost predicate HitShown(value: string, hit: Hit, context: int) {
    QuotesSpan(value, hit) && ShowsMatch(hit.snippet, value, hit.start, hit.end, context)
  }

  /** One more greedy step consumes one more entry of the result. */
  lemma GreedyStep(text: string, needle: string, from: nat, g: seq<nat>, m: nat)
    requires from <= |text| && |needle| > 0 && m <= |g| && g[m..] == Greedy(text, needle, from)
    ensures
      var p := IndexFrom(text, needle, from);
      if p < 0 then m == |g|
      else m < |g| && g[m] == p && g[m + 1..] == Greedy(text, needle, p + |needle|)
  {
    var p := IndexFrom(text, needle, from);
    if p >= 0 {
      assert g[m..][0] == p;
      assert g[m..][1..] == g[m + 1..];
    }
  }

  /** The hits found so far are those at the first starts of g, and searching on from `from` finds the rest. */
  ghost predicate SearchedSo(make: HitMaker, text: string, low: string, from: nat, g: seq<nat>, hits: seq<Hit>) {
    && low != "" && from <= |text| && |hits| <= |g|
    && g[|hits|..] == Greedy(text, low, from)
    && forall k | 0 <= k < |hits| :: hits[k] == make(g[k])
  }

  lemma SearchStep(make: HitMaker, text: string, low: string, from: nat, start: nat, g: seq<nat>, hits: seq<Hit>)
    requires SearchedSo(make, text, low, from, g, hits) && start == IndexFrom(text, low, from)
    ensures from < start + |low| <= |text| && SearchedSo(make, text, low, start + |low|, g, hits + [make(start)])
  {
    GreedyStep(text, low, from, g, |hits|);
  }

  lemma SearchDone(make: HitMaker, text: string, low: string, from: nat, g: seq<nat>, hits: seq<Hit>)
    requires SearchedSo(make, text, low, from, g, hits) && IndexFrom(text, low, from) < 0
    ensures hits == HitsAt(make, g)
  {
    GreedyStep(text, low, from, g, |hits|);
  }

  /** The search loop of containsHits, over the lower-cased text and keyword. */
  method Search(make: HitMaker, text: string, low: string) returns (hits: seq<Hit>)
    requires low != ""
    ensures hits == HitsAt(make, Greedy(text, low, 0))
  {
    ghost var g := Greedy(text, low, 0);
    hits := [];
    var searchFrom := 0;
    assert g[0..] == g;
    while true
      invariant SearchedSo(make, text, low, searchFrom, g, hits)
      decreases |text| - searchFrom
    {
      var start := IndexFrom(text, low, searchFrom);
      if start < 0 {
        SearchDone(make, text, low, searchFrom, g, hits);
        return;
      }
      SearchStep(make, text, low, searchFrom, start, g, hits);
      hits := hits + [make(start)];
      searchFrom := start + |low|;
    }
  }

  lemma HitsAreMaximum(cfg: Config, rule: Rule, field: Scope, value: string)
    requires cfg.trim(rule.name) != ""
    ensures NoMoreThan(Lower(cfg.lower, value), Lower(cfg.lower, cfg.trim(rule.name)), |ContainsSpec(cfg, rule, field, value)|)
  {
    var text, low := Lower(cfg.lower, value), Lower(cfg.lower, cfg.trim(rule.name));
    forall s: set<nat> | Apart(s, |low|) && (forall p | p in s :: OccursAt(text, low, p))
      ensures |s| <= |Greedy(text, low, 0)|
    {
      GreedyIsMaximum(text, low, s);
    }
  }

  /** containsHits. Beyond the promise of FindsAll, no other choice of pairwise disjoint occurrences is
      larger. */
  method ContainsHits(cfg: Config, rule: Rule, field: Scope, value: string) returns (hits: seq<Hit>)
    ensures hits == ContainsSpec(cfg, rule, field, value)
    ensures cfg.trim(rule.name) == "" ==> hits == []
    ensures cfg.trim(rule.name) != "" ==> FindsAll(cfg.lower, cfg.trim(rule.name), value, hits)
    ensures cfg.trim(rule.name) != "" ==> NoMoreThan(Lower(cfg.lower, value), Lower(cfg.lower, cfg.trim(rule.name)), |hits|)
  {
    var needle := cfg.trim(rule.name);
    if needle == "" {
      hits := [];
    } else {
      hits := Search(MakeHit(cfg, rule, field, value, |needle|), Lower(cfg.lower, value), Lower(cfg.lower, needle));
      GreedyHitsFindAll(cfg, rule, field, needle, value);
      HitsAreMaximum(cfg, rule, field, value);
    }
  }

  // ---------- whole articles ----------

  /** exactHits: at most one hit, when the trimmed field equals the keyword up to case. The reported span
      starts at offset 0 whatever was trimmed away. */
  function ExactSpec(cfg: Config, rule: Rule, field: Scope, value: string): seq<Hit> {
    var needle, content := cfg.trim(rule.name), cfg.trim(value);
    if needle == "" || content == "" || !EqualFold(cfg.fold, content, needle) then []
    else [BuildHit(cfg, rule, field, value, content, 0, |content|)]
  }

  /** The reported span of an exact hit quotes the matched text exactly when the field does not start with a
      space: the offset is that of the trimmed field. */
  lemma ExactHitQuotes(cfg: Config, rule: Rule, field: Scope, value: string)
    requires cfg.trim(value) == Trim(value)
    ensures ExactSpec(cfg, rule, field, value) != [] ==>
      var hit := ExactSpec(cfg, rule, field, value)[0];
      && hit.matchedText == Trim(value)
      && EqualFold(cfg.fold, hit.matchedText, cfg.trim(rule.name))
      && value != "" && (QuotesSpan(value, hit) <==> !IsSpace(value[0]))
  {
    var content := Trim(value);
    if content != "" {
      TrimIsPrefix(value);
      ExactHitStandsFor(cfg, rule, field, value, content);
    }
  }

  lemma ExactHitStandsFor(cfg: Config, rule: Rule, field: Scope, value: string, content: string)
    requires cfg.trim(value) == content && 0 < |content| <= |value|
    ensures ExactSpec(cfg, rule, field, value) != [] ==>
      var hit := ExactSpec(cfg, rule, field, value)[0];
      && hit.matchedText == content
      && EqualFold(cfg.fold, content, cfg.trim(rule.name))
      && (QuotesSpan(value, hit) <==> value[0..|content|] == content)
  {
  }

  lemma TrimIsPrefix(s: string)
    requires Trim(s) != ""
    ensures s != "" && (s[0..|Trim(s)|] == Trim(s) <==> !IsSpace(s[0]))
  {
    if IsSpace(s[0]) {
      assert s[0..|Trim(s)|][0] == s[0];
    } else {
      assert TrimLeft(s) == s;
    }
  }

  /** A space in front of the keyword: the program's scanner reports one hit, and the span it gives starts
      with that space. */
  lemma ExactHitMisquotes(lib: Library, context: int, maxRegex: int, rule: Rule)
    requires rule.name != "" && Trimmed(rule.name)
    ensures
      var value := [' '] + rule.name;
      var hits := ExactSpec(NewScanner(lib, context, maxRegex), rule, Title, value);
      |hits| == 1 && hits[0].matchedText == rule.name && !QuotesSpan(value, hits[0])
  {
    TrimLeadingSpace(rule.name);
    SpacedHit(NewScanner(lib, context, maxRegex), rule, rule.name);
  }

  lemma SpacedHit(cfg: Config, rule: Rule, name: string)
    requires name != "" && name[0] != ' ' && cfg.trim(rule.name) == name && cfg.trim([' '] + name) == name
    ensures
      var hits := ExactSpec(cfg, rule, Title, [' '] + name);
      |hits| == 1 && hits[0].matchedText == name && !QuotesSpan([' '] + name, hits[0])
  {
    assert ([' '] + name)[0..|name|][0] == ' ';
  }

  lemma TrimLeadingSpace(s: string)
    requires Trimmed(s)
    ensures Trim([' '] + s) == s
  {
    var t := [' '] + s;
    assert t[1..] == s;
    TrimSkips(t, s);
  }

  lemma TrimSkips(t: string, s: string)
    requires t != "" && IsSpace(t[0]) && t[1..] == s
    ensures Trim(t) == Trim(s)
  {
  }

  /** What exactHits promises, in terms of the text alone: one hit when the trimmed field is the keyword up to
      case and neither is blank, none otherwise; it stands for the trimmed field. */
  ghost predicate HitsWhenEqual(fold: char -> char, needle: string, content: string, hits: seq<Hit>) {
    && |hits| <= 1
    && (|hits| == 1 <==> needle != "" && content != "" && EqualFold(fold, content, needle))
    && (forall k | 0 <= k < |hits| :: hits[k].matchedText == content && hits[k].start == 0 && hits[k].end == |content|)
  }

  lemma ExactWhenEqual(cfg: Config, rule: Rule, field: Scope, value: string)
    ensures HitsWhenEqual(cfg.fold, cfg.trim(rule.name), cfg.trim(value), ExactSpec(cfg, rule, field, value))
  {
  }

  /** The quoting law on any list of hits that is the one of exactHits. */
  ghost predicate QuotesUnlessPadded(value: string, hits: seq<Hit>) {
    hits != [] ==> value != "" && (QuotesSpan(value, hits[0]) <==> !IsSpace(value[0]))
  }

  lemma ExactQuotes(cfg: Config, rule: Rule, field: Scope, value: string)
    requires cfg.trim(value) == Trim(value)
    ensures QuotesUnlessPadded(value, ExactSpec(cfg, rule, field, value))
  {
    ExactHitQuotes(cfg, rule, field, value);
  }

  /** exactHits: a hit exactly when the trimmed field is the keyword up to case; its span quotes it exactly when
      the field does not start with a space. */
  method ExactHits(cfg: Config, rule: Rule, field: Scope, value: string) returns (hits: seq<Hit>)
    ensures hits == ExactSpec(cfg, rule, field, value)
    ensures HitsWhenEqual(cfg.fold, cfg.trim(rule.name), cfg.trim(value), hits)
    ensures cfg.trim(value) == Trim(value) ==> QuotesUnlessPadded(value, hits)
  {
    ExactWhenEqual(cfg, rule, field, value);
    if cfg.trim(value) == Trim(value) {
      ExactQuotes(cfg, rule, field, value);
    }
    hits := ExactHit(cfg, rule, field, value);
  }

  /** The computation of exactHits. */
  method ExactHit(cfg: Config, rule: Rule, field: Scope, value: string) returns (hits: seq<Hit>)
    ensures hits == ExactSpec(cfg, rule, field, value)
  {
    var needle := cfg.trim(rule.name);
    var content := cfg.trim(value);
    if needle == "" || content == "" || !EqualFold(cfg.fold, content, needle) {
      return [];
    }
    return [BuildHit(cfg, rule, field, value, content, 0, |content|)];
  }

  predicate SafePattern(pattern: string, maxLength: int) {
    && |pattern| <= (if maxLength <= 0 then 128 else maxLength)
    && IndexFrom(pattern, "(?", 0) < 0
  }

  /** The hits of one more span. */
  function SpanHit(cfg: Config, rule: Rule, field: Scope, value: string, s: Span): seq<Hit> {
    if s.start <= s.end <= |value| then [BuildHit(cfg, rule, field, value, value[s.start..s.end], s.start, s.end)] else []
  }

  function SpanHits(cfg: Config, rule: Rule, field: Scope, value: string, spans: seq<Span>): seq<Hit> {
    if spans == [] then []
    else
      var s, init := spans[|spans| - 1], spans[..|spans| - 1];
      SpanHits(cfg, rule, field, value, init)
      + SpanHit(cfg, rule, field, value, s)
  }

  /** regexHits over the spans of the regular-expression library; an unsafe pattern finds nothing. */
  function RegexSpec(cfg: Config, rule: Rule, field: Scope, value: string): seq<Hit> {
    var pattern := cfg.trim(rule.name);
    if pattern == "" || !SafePattern(pattern, cfg.maxRegexLength) then []
    else SpanHits(cfg, rule, field, value, cfg.findAll(pattern, value))
  }

  predicate Fits(value: string, s: Span) {
    s.start <= s.end <= |value|
  }

  /** `at` picks the spans that lie in the field, all of them, in order. */
  ghost predicate PicksFitting(value: string, spans: seq<Span>, at: seq<nat>) {
    && (forall k | 0 <= k < |at| :: at[k] < |spans| && Fits(value, spans[at[k]]))
    && (forall j, k | 0 <= j < k < |at| :: at[j] < at[k])
    && (forall i: nat | i < |spans| && Fits(value, spans[i]) :: i in at)
  }

  /** The hit stands for the span and quotes it. */
  predicate HitOfSpan(value: string, s: Span, hit: Hit) {
    hit.start == s.start && hit.end == s.end && QuotesSpan(value, hit)
  }

  ghost predicate HitsOfSpans(value: string, spans: seq<Span>, at: seq<nat>, hits: seq<Hit>) {
    && PicksFitting(value, spans, at) && |hits| == |at|
    && forall k | 0 <= k < |at| :: HitOfSpan(value, spans[at[k]], hits[k])
  }

  /** Every span that lies in the field has its hit, in order, and there are no other hits. */
  ghost predicate FollowsSpans(value: string, spans: seq<Span>, hits: seq<Hit>) {
    exists at: seq<nat> :: HitsOfSpans(value, spans, at, hits)
  }

  lemma NoSpansYet(value: string)
    ensures FollowsSpans(value, [], [])
  {
    assert HitsOfSpans(value, [], [], []);
  }

  lemma PickLast(value: string, spans: seq<Span>, at: seq<nat>, s: Span)
    requires PicksFitting(value, spans, at) && Fits(value, s)
    ensures PicksFitting(value, spans + [s], at + [|spans|])
  {
    var more: seq<nat> := at + [|spans|];
    forall i: nat | i < |spans + [s]| && Fits(value, (spans + [s])[i]) ensures i in more {
      if i < |spans| {
        assert i in at;
      } else {
        assert more[|at|] == i;
      }
    }
  }

  lemma OneMoreSpan(value: string, spans: seq<Span>, hits: seq<Hit>, s: Span, hit: Hit)
    requires FollowsSpans(value, spans, hits) && HitOfSpan(value, s, hit)
    ensures FollowsSpans(value, spans + [s], hits + [hit])
  {
    var at: seq<nat> :| HitsOfSpans(value, spans, at, hits);
    PickLast(value, spans, at, s);
    var more: seq<nat> := at + [|spans|];
    assert HitsOfSpans(value, spans + [s], more, hits + [hit]);
  }

  lemma SkippedSpan(value: string, spans: seq<Span>, hits: seq<Hit>, s: Span)
    requires FollowsSpans(value, spans, hits) && !Fits(value, s)
    ensures FollowsSpans(value, spans + [s], hits)
  {
    var at: seq<nat> :| HitsOfSpans(value, spans, at, hits);
    assert PicksFitting(value, spans + [s], at);
    assert HitsOfSpans(value, spans + [s], at, hits);
  }

  lemma SpanFollows(value: string, spans: seq<Span>, hits: seq<Hit>, s: Span, more: seq<Hit>)
    requires FollowsSpans(value, spans, hits)
    requires if Fits(value, s) then |more| == 1 && HitOfSpan(value, s, more[0]) else more == []
    ensures FollowsSpans(value, spans + [s], hits + more)
  {
    if Fits(value, s) {
      OneMoreSpan(value, spans, hits, s, more[0]);
      assert more == [more[0]];
    } else {
      SkippedSpan(value, spans, hits, s);
      assert hits + more == hits;
    }
  }

  lemma SpanHitsLast(cfg: Config, rule: Rule, field: Scope, value: string, init: seq<Span>, s: Span)
    ensures SpanHits(cfg, rule, field, value, init + [s]) == SpanHits(cfg, rule, field, value, init) + SpanHit(cfg, rule, field, value, s)
    ensures var more := SpanHit(cfg, rule, field, value, s);
      if Fits(value, s) then |more| == 1 && HitOfSpan(value, s, more[0]) else more == []
  {
    assert (init + [s])[..|init|] == init;
  }

  lemma LastSpan(spans: seq<Span>)
    requires spans != []
    ensures spans[..|spans| - 1] + [spans[|spans| - 1]] == spans
  {
  }

  lemma {:induction false} SpanHitsFollow(cfg: Config, rule: Rule, field: Scope, value: string, spans: seq<Span>)
    ensures FollowsSpans(value, spans, SpanHits(cfg, rule, field, value, spans))
  {
    if spans == [] {
      NoSpansYet(value);
    } else {
      var init, s := spans[..|spans| - 1], spans[|spans| - 1];
      LastSpan(spans);
      SpanHitsFollow(cfg, rule, field, value, init);
      SpanHitsLast(cfg, rule, field, value, init, s);
      SpanFollows(value, init, SpanHits(cfg, rule, field, value, init), s, SpanHit(cfg, rule, field, value, s));
    }
  }

  /** What regexHits promises: a blank pattern, one over the limit (128 when none is set) or one with "(?" in it
      finds nothing; any other one has the hits of the spans the library finds. */
  ghost predicate HitsOfPattern(cfg: Config, pattern: string, value: string, hits: seq<Hit>) {
    if pattern == "" || |pattern| > (if cfg.maxRegexLength <= 0 then 128 else cfg.maxRegexLength) || (exists p :: OccursAt(pattern, "(?", p))
    then hits == []
    else FollowsSpans(value, cfg.findAll(pattern, value), hits)
  }

  lemma UnsafeExactly(pattern: string, maxLength: int)
    ensures SafePattern(pattern, maxLength) <==>
      |pattern| <= (if maxLength <= 0 then 128 else maxLength) && !exists p :: OccursAt(pattern, "(?", p)
  {
    var r := IndexFrom(pattern, "(?", 0);
    assert r >= 0 ==> OccursAt(pattern, "(?", r);
  }

  lemma RegexFollowsSpans(cfg: Config, rule: Rule, field: Scope, value: string)
    ensures HitsOfPattern(cfg, cfg.trim(rule.name), value, RegexSpec(cfg, rule, field, value))
  {
    UnsafeExactly(cfg.trim(rule.name), cfg.maxRegexLength);
    SpanHitsFollow(cfg, rule, field, value, cfg.findAll(cfg.trim(rule.name), value));
  }

  /** regexHits: an unsafe pattern finds nothing, any other one has a hit for each span the library finds. */
  method RegexHits(cfg: Config, rule: Rule, field: Scope, value: string) returns (hits: seq<Hit>)
    ensures hits == RegexSpec(cfg, rule, field, value)
    ensures HitsOfPattern(cfg, cfg.trim(rule.name), value, hits)
  {
    RegexFollowsSpans(cfg, rule, field, value);
    hits := RegexScan(cfg, rule, field, value);
  }

  /** The computation of regexHits. */
  method RegexScan(cfg: Config, rule: Rule, field: Scope, value: string) returns (hits: seq<Hit>)
    ensures hits == RegexSpec(cfg, rule, field, value)
  {
    var pattern := cfg.trim(rule.name);
    if pattern == "" || !SafePattern(pattern, cfg.maxRegexLength) {
      return [];
    }
    var spans := cfg.findAll(pattern, value);
    hits := [];
    for i := 0 to |spans|
      invariant hits == SpanHits(cfg, rule, field, value, spans[..i])
    {
      assert spans[..i + 1][..i] == spans[..i];
      var s := spans[i];
      if s.start <= s.end <= |value| {
        hits := hits + [BuildHit(cfg, rule, field, value, value[s.start..s.end], s.start, s.end)];
      }
    }
    assert spans[..|spans|] == spans;
  }

  predicate QuotesSpan(value: string, hit: Hit) {
    0 <= hit.start <= hit.end <= |value| && hit.matchedText == value[hit.start..hit.end]
  }

  function FieldSpec(cfg: Config, rule: Rule, field: Scope, value: string): seq<Hit> {
    if cfg.trim(value) == "" then []
    else match rule.matchType
      case Contains => ContainsSpec(cfg, rule, field, value)
      case Exact => ExactSpec(cfg, rule, field, value)
      case Regex => RegexSpec(cfg, rule, field, value)
      case UnknownMatch => []
  }

  function FieldValue(article: Article, scope: Scope): string {
    match scope
    case Title => article.title
    case ShortTitle => article.shortTitle
    case RichTitle => article.richTitle
    case Keyword => article.keyword
    case Desc => article.desc
    case Body => article.body
    case UnknownScope => ""
  }

  /** The hits of a rule in one of its scopes. */
  type ScopeScan = (Rule, Scope) -> seq<Hit>

  function ScopeScanner(cfg: Config, article: Article): ScopeScan {
    (rule: Rule, scope: Scope) => FieldSpec(cfg, rule, scope, FieldValue(article, scope))
  }

  /** The hits of the first n scopes of a rule. */
  function RuleHits(scan: ScopeScan, rule: Rule, n: nat): seq<Hit>
    requires n <= |rule.scopes|
  {
    if n == 0 then [] else RuleHits(scan, rule, n - 1) + scan(rule, rule.scopes[n - 1])
  }

  /** The hits of the first n rules. */
  function ScanHits(scan: ScopeScan, rules: seq<Rule>, n: nat): seq<Hit>
    requires n <= |rules|
  {
    if n == 0 then [] else ScanHits(scan, rules, n - 1) + RuleHits(scan, rules[n - 1], |rules[n - 1].scopes|)
  }

  /** The hit carries the snippet of its span. */
  predicate Snipped(cfg: Config, value: string, hit: Hit) {
    0 <= hit.start && 0 <= hit.end && hit.snippet == cfg.snippet(value, hit.start, hit.end)
  }

  ghost predicate AllSnipped(cfg: Config, value: string, hits: seq<Hit>) {
    forall k | 0 <= k < |hits| :: Snipped(cfg, value, hits[k])
  }

  /** What the search for one rule in one field promises, in terms of the texts: every hit carries the columns
      of the rule, the field and the snippet of its span; a blank field and an unknown match type have none; a
      keyword is found wherever it occurs, as often as disjoint hits allow; an exact rule hits exactly when the
      trimmed field is the keyword up to case; a safe pattern has a hit for each span the library finds. */
  ghost predicate ScopePromise(cfg: Config, rule: Rule, field: Scope, value: string, hits: seq<Hit>) {
    && AllFromRule(hits, rule) && AllInField(hits, field) && AllSnipped(cfg, value, hits)
    && (cfg.trim(value) == "" || rule.matchType.UnknownMatch? || cfg.trim(rule.name) == "" ==> hits == [])
    && (cfg.trim(value) != "" ==> TypePromise(cfg, rule.matchType, cfg.trim(rule.name), value, hits))
  }

  ghost predicate TypePromise(cfg: Config, matchType: MatchType, needle: string, value: string, hits: seq<Hit>) {
    && (matchType.Contains? && needle != "" ==> KeywordPromise(cfg, needle, value, hits))
    && (matchType.Exact? ==> HitsWhenEqual(cfg.fold, needle, cfg.trim(value), hits))
    && (matchType.Regex? ==> HitsOfPattern(cfg, needle, value, hits))
  }

  ghost predicate KeywordPromise(cfg: Config, needle: string, value: string, hits: seq<Hit>) {
    && FindsAll(cfg.lower, needle, value, hits)
    && NoMoreThan(Lower(cfg.lower, value), Lower(cfg.lower, needle), |hits|)
  }

  lemma KeywordKeepsPromise(cfg: Config, rule: Rule, field: Scope, value: string)
    requires cfg.trim(rule.name) != ""
    ensures KeywordPromise(cfg, cfg.trim(rule.name), value, ContainsSpec(cfg, rule, field, value))
  {
    GreedyHitsFindAll(cfg, rule, field, cfg.trim(rule.name), value);
    HitsAreMaximum(cfg, rule, field, value);
  }

  lemma {:induction false} SpansSnipped(cfg: Config, rule: Rule, field: Scope, value: string, spans: seq<Span>)
    ensures AllSnipped(cfg, value, SpanHits(cfg, rule, field, value, spans))
  {
    if spans != [] {
      SpansSnipped(cfg, rule, field, value, spans[..|spans| - 1]);
    }
  }

  lemma MadeSnipped(cfg: Config, rule: Rule, field: Scope, value: string, n: nat, starts: seq<nat>)
    ensures AllSnipped(cfg, value, HitsAt(MakeHit(cfg, rule, field, value, n), starts))
  {
  }

  lemma KeywordSnipped(cfg: Config, rule: Rule, field: Scope, value: string)
    ensures AllSnipped(cfg, value, ContainsSpec(cfg, rule, field, value))
  {
    var needle := cfg.trim(rule.name);
    if needle != "" {
      MadeSnipped(cfg, rule, field, value, |needle|, Greedy(Lower(cfg.lower, value), Lower(cfg.lower, needle), 0));
    }
  }

  lemma RegexSnipped(cfg: Config, rule: Rule, field: Scope, value: string)
    ensures AllSnipped(cfg, value, RegexSpec(cfg, rule, field, value))
  {
    SpansSnipped(cfg, rule, field, value, cfg.findAll(cfg.trim(rule.name), value));
  }

  lemma ScopeSnipped(cfg: Config, rule: Rule, field: Scope, value: string)
    ensures AllSnipped(cfg, value, FieldSpec(cfg, rule, field, value))
  {
    match rule.matchType {
      case Contains => KeywordSnipped(cfg, rule, field, value);
      case Regex => RegexSnipped(cfg, rule, field, value);
      case _ =>
    }
  }

  lemma TypeKeepsPromise(cfg: Config, rule: Rule, field: Scope, value: string)
    requires cfg.trim(value) != ""
    ensures TypePromise(cfg, rule.matchType, cfg.trim(rule.name), value, FieldSpec(cfg, rule, field, value))
  {
    match rule.matchType {
      case Contains =>
        if cfg.trim(rule.name) != "" {
          KeywordKeepsPromise(cfg, rule, field, value);
        }
      case Exact =>
      case Regex => RegexFollowsSpans(cfg, rule, field, value);
      case UnknownMatch =>
    }
  }

  lemma ScopeKeepsPromise(cfg: Config, article: Article, rule: Rule, scope: Scope)
    ensures ScopePromise(cfg, rule, scope, FieldValue(article, scope), ScopeScanner(cfg, article)(rule, scope))
  {
    var value := FieldValue(article, scope);
    ScopeHitsFromRule(cfg, article, rule, scope);
    ScopeSnipped(cfg, rule, scope, value);
    if cfg.trim(value) != "" {
      TypeKeepsPromise(cfg, rule, scope, value);
    }
  }

  /** A scope is the article's field of that name and no other. */
  lemma ScopeIsField(article: Article, text: string, scope: Scope)
    ensures FieldValue(article.(title := text), scope) == if scope.Title? then text else FieldValue(article, scope)
    ensures FieldValue(article.(shortTitle := text), scope) == if scope.ShortTitle? then text else FieldValue(article, scope)
    ensures FieldValue(article.(richTitle := text), scope) == if scope.RichTitle? then text else FieldValue(article, scope)
    ensures FieldValue(article.(keyword := text), scope) == if scope.Keyword? then text else FieldValue(article, scope)
    ensures FieldValue(article.(desc := text), scope) == if scope.Desc? then text else FieldValue(article, scope)
    ensures FieldValue(article.(body := text), scope) == if scope.Body? then text else FieldValue(article, scope)
    ensures FieldValue(article, UnknownScope) == ""
  {
  }

  /** scanField. */
  method ScanScope(cfg: Config, article: Article, rule: Rule, scope: Scope) returns (hits: seq<Hit>)
    ensures hits == ScopeScanner(cfg, article)(rule, scope)
    ensures ScopePromise(cfg, rule, scope, FieldValue(article, scope), hits)
  {
    ScopeKeepsPromise(cfg, article, rule, scope);
    var value := FieldValue(article, scope);
    if cfg.trim(value) == "" {
      return [];
    }
    match rule.matchType {
      case Contains => hits := ContainsHits(cfg, rule, scope, value);
      case Exact => hits := ExactHits(cfg, rule, scope, value);
      case Regex => hits := RegexHits(cfg, rule, scope, value);
      case UnknownMatch => hits := [];
    }
  }

  /** The inner loop of ScanArticle. */
  method ScanRule(cfg: Config, article: Article, rule: Rule) returns (hits: seq<Hit>)
    ensures hits == RuleHits(ScopeScanner(cfg, article), rule, |rule.scopes|)
  {
    hits := [];
    for s := 0 to |rule.scopes|
      invariant hits == RuleHits(ScopeScanner(cfg, article), rule, s)
    {
      var more := ScanScope(cfg, article, rule, rule.scopes[s]);
      hits := hits + more;
    }
  }

  /** Where the hits of rule r in its scope s begin. */
  type Cuts = (nat, nat) -> nat

  ghost predicate PieceAt(cfg: Config, article: Article, rule: Rule, scope: Scope, hits: seq<Hit>, from: nat, to: nat) {
    from <= to <= |hits| && ScopePromise(cfg, rule, scope, FieldValue(article, scope), hits[from..to])
  }

  /** The hits are one piece after another, without gap, for each rule in snapshot order and each of its scopes
      in order, and each piece is what the search for that rule in that field promises. */
  ghost predicate CutInto(cfg: Config, article: Article, rules: seq<Rule>, hits: seq<Hit>, at: Cuts) {
    && at(0, 0) == 0 && at(|rules|, 0) == |hits|
    && (forall r: nat | r < |rules| :: at(r, |rules[r].scopes|) == at(r + 1, 0))
    && (forall r: nat, s: nat | r < |rules| && s < |rules[r].scopes| ::
          PieceAt(cfg, article, rules[r], rules[r].scopes[s], hits, at(r, s), at(r, s + 1)))
  }

  ghost predicate InPieces(cfg: Config, article: Article, rules: seq<Rule>, hits: seq<Hit>) {
    exists at: Cuts :: CutInto(cfg, article, rules, hits, at)
  }

  function CutAt(scan: ScopeScan, rules: seq<Rule>): Cuts {
    (r: nat, s: nat) =>
      if r < |rules| && s <= |rules[r].scopes| then |ScanHits(scan, rules, r)| + |RuleHits(scan, rules[r], s)|
      else |ScanHits(scan, rules, |rules|)|
  }

  lemma {:induction false} RuleKeepsPrefix(scan: ScopeScan, rule: Rule, s: nat, n: nat)
    requires s <= n <= |rule.scopes|
    ensures RuleHits(scan, rule, s) <= RuleHits(scan, rule, n)
  {
    if s < n {
      RuleKeepsPrefix(scan, rule, s, n - 1);
    }
  }

  predicate LiesAt(hits: seq<Hit>, from: nat, piece: seq<Hit>) {
    from + |piece| <= |hits| && hits[from..from + |piece|] == piece
  }

  lemma PieceInPlace(scan: ScopeScan, rules: seq<Rule>, r: nat, s: nat)
    requires r < |rules| && s < |rules[r].scopes|
    ensures LiesAt(ScanHits(scan, rules, |rules|), |ScanHits(scan, rules, r)| + |RuleHits(scan, rules[r], s)|,
                   scan(rules[r], rules[r].scopes[s]))
  {
    RuleInPlace(scan, rules, r);
    ScopeInPlace(scan, rules[r], s);
    NestedPiece(ScanHits(scan, rules, r), RuleHits(scan, rules[r], s), scan(rules[r], rules[r].scopes[s]),
                RuleHits(scan, rules[r], |rules[r].scopes|), ScanHits(scan, rules, |rules|));
  }

  lemma RuleInPlace(scan: ScopeScan, rules: seq<Rule>, r: nat)
    requires r < |rules|
    ensures ScanHits(scan, rules, r) + RuleHits(scan, rules[r], |rules[r].scopes|) <= ScanHits(scan, rules, |rules|)
  {
    HitsKeepPrefix(scan, rules, r + 1, |rules|);
  }

  lemma ScopeInPlace(scan: ScopeScan, rule: Rule, s: nat)
    requires s < |rule.scopes|
    ensures RuleHits(scan, rule, s) + scan(rule, rule.scopes[s]) <= RuleHits(scan, rule, |rule.scopes|)
  {
    RuleKeepsPrefix(scan, rule, s + 1, |rule.scopes|);
  }

  lemma NestedPiece(a: seq<Hit>, b: seq<Hit>, c: seq<Hit>, inner: seq<Hit>, all: seq<Hit>)
    requires b + c <= inner && a + inner <= all
    ensures LiesAt(all, |a| + |b|, c)
  {
    var piece := all[|a| + |b|..|a| + |b| + |c|];
    forall k | 0 <= k < |c| ensures piece[k] == c[k] {
      assert (b + c)[|b| + k] == c[k];
      assert (a + inner)[|a| + (|b| + k)] == inner[|b| + k];
    }
  }

  /** The cuts are consecutive: each lies behind the one before by the hits of one scope. */
  lemma CutsFollow(scan: ScopeScan, rules: seq<Rule>)
    ensures
      var at := CutAt(scan, rules);
      && at(0, 0) == 0 && at(|rules|, 0) == |ScanHits(scan, rules, |rules|)|
      && (forall r: nat | r < |rules| :: at(r, |rules[r].scopes|) == at(r + 1, 0))
  {
    var at := CutAt(scan, rules);
    forall r: nat | r < |rules| ensures at(r, |rules[r].scopes|) == at(r + 1, 0) {
      assert ScanHits(scan, rules, r + 1) == ScanHits(scan, rules, r) + RuleHits(scan, rules[r], |rules[r].scopes|);
    }
  }

  lemma CutValues(scan: ScopeScan, rules: seq<Rule>, r: nat, s: nat)
    requires r < |rules| && s < |rules[r].scopes|
    ensures CutAt(scan, rules)(r, s) == |ScanHits(scan, rules, r)| + |RuleHits(scan, rules[r], s)|
    ensures CutAt(scan, rules)(r, s + 1) == CutAt(scan, rules)(r, s) + |scan(rules[r], rules[r].scopes[s])|
  {
  }

  lemma ArticlePiece(cfg: Config, article: Article, scan: ScopeScan, rules: seq<Rule>, r: nat, s: nat, from: nat, to: nat)
    requires r < |rules| && s < |rules[r].scopes|
    requires var scope := rules[r].scopes[s];
      ScopePromise(cfg, rules[r], scope, FieldValue(article, scope), scan(rules[r], scope))
    requires from == |ScanHits(scan, rules, r)| + |RuleHits(scan, rules[r], s)|
    requires to == from + |scan(rules[r], rules[r].scopes[s])|
    ensures PieceAt(cfg, article, rules[r], rules[r].scopes[s], ScanHits(scan, rules, |rules|), from, to)
  {
    PieceInPlace(scan, rules, r, s);
    IsPiece(cfg, article, rules[r], rules[r].scopes[s], ScanHits(scan, rules, |rules|), from, to, scan(rules[r], rules[r].scopes[s]));
  }

  lemma IsPiece(cfg: Config, article: Article, rule: Rule, scope: Scope, hits: seq<Hit>, from: nat, to: nat, piece: seq<Hit>)
    requires LiesAt(hits, from, piece) && to == from + |piece| && ScopePromise(cfg, rule, scope, FieldValue(article, scope), piece)
    ensures PieceAt(cfg, article, rule, scope, hits, from, to)
  {
  }

  lemma ArticleInPieces(cfg: Config, article: Article, rules: seq<Rule>)
    ensures InPieces(cfg, article, rules, ScanHits(ScopeScanner(cfg, article), rules, |rules|))
  {
    var scan := ScopeScanner(cfg, article);
    var hits, at := ScanHits(scan, rules, |rules|), CutAt(scan, rules);
    CutsFollow(scan, rules);
    forall r: nat, s: nat | r < |rules| && s < |rules[r].scopes|
      ensures PieceAt(cfg, article, rules[r], rules[r].scopes[s], hits, at(r, s), at(r, s + 1))
    {
      ScopeKeepsPromise(cfg, article, rules[r], rules[r].scopes[s]);
      CutValues(scan, rules, r, s);
      ArticlePiece(cfg, article, scan, rules, r, s, at(r, s), at(r, s + 1));
    }
    assert CutInto(cfg, article, rules, hits, at);
  }

  /** ScanArticle: the hits of every rule in every scope, rules in snapshot order, scopes in rule order. */
  method ScanArticle(cfg: Config, article: Article, rules: seq<Rule>) returns (hits: seq<Hit>)
    ensures hits == ScanHits(ScopeScanner(cfg, article), rules, |rules|)
    ensures InPieces(cfg, article, rules, hits)
  {
    ArticleInPieces(cfg, article, rules);
    hits := [];
    for r := 0 to |rules|
      invariant hits == ScanHits(ScopeScanner(cfg, article), rules, r)
    {
      var more := ScanRule(cfg, article, rules[r]);
      hits := hits + more;
    }
  }

  predicate FromRule(hit: Hit, rule: Rule) {
    && hit.keywordId == rule.id
    && hit.keywordText == rule.name
    && hit.category == rule.category
    && hit.matchType == rule.matchType
    && hit.riskLevel == rule.riskLevel
    && hit.suggestAction == rule.suggestAction
  }

  ghost predicate AllFromRule(hits: seq<Hit>, rule: Rule) {
    forall k | 0 <= k < |hits| :: FromRule(hits[k], rule)
  }

  ghost predicate AllInField(hits: seq<Hit>, field: Scope) {
    forall k | 0 <= k < |hits| :: hits[k].fieldName == field
  }

  lemma {:induction false} SpanHitsFromRule(cfg: Config, rule: Rule, field: Scope, value: string, spans: seq<Span>)
    ensures AllFromRule(SpanHits(cfg, rule, field, value, spans), rule)
    ensures AllInField(SpanHits(cfg, rule, field, value, spans), field)
  {
    if spans != [] {
      SpanHitsFromRule(cfg, rule, field, value, spans[..|spans| - 1]);
    }
  }

  lemma MadeHitsFromRule(cfg: Config, rule: Rule, field: Scope, value: string, n: nat, starts: seq<nat>)
    ensures AllFromRule(HitsAt(MakeHit(cfg, rule, field, value, n), starts), rule)
    ensures AllInField(HitsAt(MakeHit(cfg, rule, field, value, n), starts), field)
  {
  }

  lemma ContainsHitsFromRule(cfg: Config, rule: Rule, field: Scope, value: string)
    ensures AllFromRule(ContainsSpec(cfg, rule, field, value), rule)
    ensures AllInField(ContainsSpec(cfg, rule, field, value), field)
  {
    var needle := cfg.trim(rule.name);
    if needle != "" {
      MadeHitsFromRule(cfg, rule, field, value, |needle|, Greedy(Lower(cfg.lower, value), Lower(cfg.lower, needle), 0));
    }
  }

  lemma RegexHitsFromRule(cfg: Config, rule: Rule, field: Scope, value: string)
    ensures AllFromRule(RegexSpec(cfg, rule, field, value), rule)
    ensures AllInField(RegexSpec(cfg, rule, field, value), field)
  {
    SpanHitsFromRule(cfg, rule, field, value, cfg.findAll(cfg.trim(rule.name), value));
  }

  lemma ScopeHitsFromRule(cfg: Config, article: Article, rule: Rule, scope: Scope)
    ensures AllFromRule(ScopeScanner(cfg, article)(rule, scope), rule)
    ensures AllInField(ScopeScanner(cfg, article)(rule, scope), scope)
  {
    var value := FieldValue(article, scope);
    match rule.matchType {
      case Contains => ContainsHitsFromRule(cfg, rule, scope, value);
      case Regex => RegexHitsFromRule(cfg, rule, scope, value);
      case _ =>
    }
  }

  lemma {:induction false} RuleHitsFromRule(cfg: Config, article: Article, rule: Rule, n: nat)
    requires n <= |rule.scopes|
    ensures AllFromRule(RuleHits(ScopeScanner(cfg, article), rule, n), rule)
  {
    if n > 0 {
      var scan := ScopeScanner(cfg, article);
      RuleHitsFromRule(cfg, article, rule, n - 1);
      ScopeHitsFromRule(cfg, article, rule, rule.scopes[n - 1]);
      AllFromConcat(RuleHits(scan, rule, n - 1), scan(rule, rule.scopes[n - 1]), rule);
    }
  }

  lemma AllFromConcat(a: seq<Hit>, b: seq<Hit>, rule: Rule)
    requires AllFromRule(a, rule) && AllFromRule(b, rule)
    ensures AllFromRule(a + b, rule)
  {
  }

  /** Rule r is the first of the first n rules that hits. */
  ghost predicate FirstToHit(scan: ScopeScan, rules: seq<Rule>, r: nat) {
    && r < |rules|
    && RuleHits(scan, rules[r], |rules[r].scopes|) != []
    && forall q | 0 <= q < r :: RuleHits(scan, rules[q], |rules[q].scopes|) == []
  }

  lemma {:induction false} NoHitsBefore(scan: ScopeScan, rules: seq<Rule>, r: nat)
    requires r <= |rules| && forall q | 0 <= q < r :: RuleHits(scan, rules[q], |rules[q].scopes|) == []
    ensures ScanHits(scan, rules, r) == []
  {
    if r > 0 {
      NoHitsBefore(scan, rules, r - 1);
    }
  }

  lemma {:induction false} HitsKeepPrefix(scan: ScopeScan, rules: seq<Rule>, r: nat, n: nat)
    requires r <= n <= |rules|
    ensures ScanHits(scan, rules, r) <= ScanHits(scan, rules, n)
  {
    if r < n {
      HitsKeepPrefix(scan, rules, r, n - 1);
    }
  }

  lemma HitsUpToFirst(scan: ScopeScan, rules: seq<Rule>, r: nat)
    requires FirstToHit(scan, rules, r)
    ensures ScanHits(scan, rules, r + 1) == RuleHits(scan, rules[r], |rules[r].scopes|)
  {
    NoHitsBefore(scan, rules, r);
    var first := RuleHits(scan, rules[r], |rules[r].scopes|);
    assert [] + first == first;
  }

  lemma FirstRuleGivesFirstHit(scan: ScopeScan, rules: seq<Rule>, r: nat)
    requires FirstToHit(scan, rules, r)
    ensures
      var hits, first := ScanHits(scan, rules, |rules|), RuleHits(scan, rules[r], |rules[r].scopes|);
      hits != [] && hits[0] == first[0]
  {
    HitsUpToFirst(scan, rules, r);
    HitsKeepPrefix(scan, rules, r + 1, |rules|);
  }

  /** An article has hits exactly when some rule hits, and its first hit then carries the risk level and the
      suggested action of the first rule, in snapshot order, that hits. */
  lemma FirstHitIsFromFirstRule(cfg: Config, article: Article, rules: seq<Rule>, r: nat)
    ensures
      var scan := ScopeScanner(cfg, article);
      var hits := ScanHits(scan, rules, |rules|);
      && (hits != [] <==> exists q: nat :: FirstToHit(scan, rules, q))
      && (FirstToHit(scan, rules, r) ==> FromRule(hits[0], rules[r]))
  {
    var scan := ScopeScanner(cfg, article);
    if ScanHits(scan, rules, |rules|) != [] {
      var q := FindFirst(scan, rules, |rules|);
    }
    forall q: nat | FirstToHit(scan, rules, q) ensures ScanHits(scan, rules, |rules|) != [] {
      FirstRuleGivesFirstHit(scan, rules, q);
    }
    if FirstToHit(scan, rules, r) {
      FirstRuleGivesFirstHit(scan, rules, r);
      RuleHitsFromRule(cfg, article, rules[r], |rules[r].scopes|);
    }
  }

  lemma BothEmpty<T>(a: seq<T>, b: seq<T>)
    requires a + b == []
    ensures a == [] && b == []
  {
    assert |a + b| == |a| + |b|;
  }

  lemma {:induction false} QuietRule(scan: ScopeScan, rules: seq<Rule>, q: nat, r: nat)
    requires q < r <= |rules| && ScanHits(scan, rules, r) == []
    ensures RuleHits(scan, rules[q], |rules[q].scopes|) == []
  {
    BothEmpty(ScanHits(scan, rules, r - 1), RuleHits(scan, rules[r - 1], |rules[r - 1].scopes|));
    if q < r - 1 {
      QuietRule(scan, rules, q, r - 1);
    }
  }

  lemma {:induction false} FindFirst(scan: ScopeScan, rules: seq<Rule>, n: nat) returns (r: nat)
    requires n <= |rules| && ScanHits(scan, rules, n) != []
    ensures FirstToHit(scan, rules, r)
  {
    if ScanHits(scan, rules, n - 1) != [] {
      r := FindFirst(scan, rules, n - 1);
    } else {
      r := n - 1;
      forall q | 0 <= q < r ensures RuleHits(scan, rules[q], |rules[q].scopes|) == [] {
        QuietRule(scan, rules, q, r);
      }
    }
  }
}
