/** Confidence scoring and ranking of aggregated candidates
    (jcmars/backend/ranking.py). Scores are exact reals. */
module Ranking {
  import opened Text
  import opened Names
  import opened Models

  // ---------------------------------------------------------------------------
  // Source reliability (_calculate_source_score)
  // ---------------------------------------------------------------------------

  /** Which of the reliability tests a URL passes. All but the city-site test
      look at the lower-cased URL. */
  datatype UrlFlags = UrlFlags(national: bool, local: bool, gov: bool, wiki: bool, social: bool)

  function Flags(url: string): UrlFlags {
    var u := Lower(url);
    UrlFlags(
      Contains(u, "jaycee.or.jp"),
      IsJcOfficialSite(url),
      Contains(u, ".go.jp") || Contains(u, ".lg.jp"),
      Contains(u, "wikipedia"),
      Contains(u, "facebook.com") || Contains(u, "twitter.com"))
  }

  /** The first branch of the chain that applies. */
  function TierFor(f: UrlFlags): real {
    if f.national then 1.0
    else if f.local then 0.8
    else if f.gov then 0.7
    else if f.wiki then 0.5
    else if f.social then 0.4
    else 0.3
  }

  /** Every tier whose test passes, taken independently of order; the
      catch-all tier always applies. */
  function TiersFor(f: UrlFlags): set<real> {
    {0.3}
    + (if f.national then {1.0} else {})
    + (if f.local then {0.8} else {})
    + (if f.gov then {0.7} else {})
    + (if f.wiki then {0.5} else {})
    + (if f.social then {0.4} else {})
  }

  /** The tier of one evidence URL. */
  function SourceTier(url: string): real {
    TierFor(Flags(url))
  }

  function ApplicableTiers(url: string): set<real> {
    TiersFor(Flags(url))
  }

  /** The branches are listed in descending value, so the first one that
      applies is the highest applicable tier. */
  lemma SourceTierIsHighest(url: string)
    ensures SourceTier(url) in ApplicableTiers(url)
    ensures forall t :: t in ApplicableTiers(url) ==> t <= SourceTier(url)
  {
    TierForIsHighest(Flags(url));
  }

  lemma TierForIsHighest(f: UrlFlags)
    ensures TierFor(f) in TiersFor(f)
    ensures forall t :: t in TiersFor(f) ==> t <= TierFor(f)
  {
  }

  function Max(a: real, b: real): real {
    if a >= b then a else b
  }

  /** The best tier among the sources, 0 when there are none. */
  function SourceScore(sources: seq<string>): (r: real)
    ensures 0.0 <= r <= 1.0
    ensures r == 0.0 <==> sources == []
    ensures forall s :: s in sources ==> SourceTier(s) <= r
    ensures sources != [] ==> exists s :: s in sources && SourceTier(s) == r
  {
    if sources == [] then 0.0
    else
      var init := sources[..|sources| - 1];
      assert forall s :: s in init ==> s in sources;
      Max(SourceScore(init), SourceTier(sources[|sources| - 1]))
  }

  /** Adding sources never lowers the source score. */
  lemma {:induction false} SourceScoreMonotone(a: seq<string>, b: seq<string>)
    requires forall s :: s in a ==> s in b
    ensures SourceScore(a) <= SourceScore(b)
  {
    if a != [] {
      var init := a[..|a| - 1];
      assert forall s :: s in init ==> s in a;
      SourceScoreMonotone(init, b);
      assert a[|a| - 1] in b;
    }
  }

  // ---------------------------------------------------------------------------
  // Completeness (_calculate_completeness_score)
  // ---------------------------------------------------------------------------

  /** A year is credited only inside 1990..2030 (0, the falsy year, is outside). */
  predicate YearPlausible(year: int) {
    year != 0 && 1990 <= year <= 2030
  }

  function Completeness(c: Candidate): (r: real)
    ensures 0.0 <= r <= 1.0
    ensures r == 1.0 <==> YearPlausible(c.year) && c.regionName != "" && c.position != ""
    ensures r == 0.0 <==> !YearPlausible(c.year) && c.regionName == "" && c.position == ""
  {
    (if YearPlausible(c.year) then 0.33 else 0.0)
    + (if c.regionName != "" then 0.33 else 0.0)
    + (if c.position != "" then 0.34 else 0.0)
  }

  // ---------------------------------------------------------------------------
  // Corroboration (_calculate_multiple_source_score)
  // ---------------------------------------------------------------------------

  function DistinctCount(sources: seq<string>): (n: nat)
    ensures n == 0 <==> sources == []
  {
    var urls := set s | s in sources;
    assert sources != [] ==> sources[0] in urls;
    assert sources == [] ==> urls == {};
    |urls|
  }

  /** Score for a number of distinct URLs. */
  function CorroborationFor(n: nat): real {
    if n >= 5 then 1.0
    else if n >= 3 then 0.8
    else if n >= 2 then 0.6
    else if n >= 1 then 0.3
    else 0.0
  }

  function Corroboration(sources: seq<string>): (r: real)
    ensures 0.0 <= r <= 1.0
    ensures r == 0.0 <==> sources == []
  {
    CorroborationFor(DistinctCount(sources))
  }

  /** More distinct URLs never lower the score, and 1 / 2 / 3 / 5 URLs give
      0.3 / 0.6 / 0.8 / 1.0. */
  lemma CorroborationMonotone(n: nat, m: nat)
    requires n <= m
    ensures CorroborationFor(n) <= CorroborationFor(m)
    ensures CorroborationFor(1) == 0.3 && CorroborationFor(2) == 0.6
    ensures CorroborationFor(3) == 0.8 && CorroborationFor(5) == 1.0
  {
  }

  /** Repeating a URL changes nothing; adding URLs never lowers the score. */
  lemma CorroborationByDistinctUrls(a: seq<string>, b: seq<string>)
    ensures (set s | s in a) == (set s | s in b) ==> Corroboration(a) == Corroboration(b)
    ensures Corroboration(a) <= Corroboration(a + b)
    ensures DistinctCount(a) <= |a|
  {
    var sa := set s | s in a;
    var sab := set s | s in a + b;
    assert sab == sa + (set s | s in b);
    assert sab == sa + (sab - sa) && sa * (sab - sa) == {};
    CorroborationMonotone(|sa|, |sab|);
    DistinctCountBound(a);
  }

  lemma {:induction false} DistinctCountBound(a: seq<string>)
    ensures DistinctCount(a) <= |a|
  {
    if a != [] {
      var init := a[..|a| - 1];
      assert a == init + [a[|a| - 1]];
      assert (set s | s in a) == (set s | s in init) + {a[|a| - 1]};
      DistinctCountBound(init);
    }
  }

  // ---------------------------------------------------------------------------
  // Confidence (calculate_confidence)
  // ---------------------------------------------------------------------------

  /** 50% source reliability, 30% completeness, 20% corroboration, capped at 1. */
  function Confidence(c: Candidate): (r: real)
    ensures 0.0 <= r <= 1.0
  {
    var score := 0.5 * SourceScore(c.evidenceSources) + 0.3 * Completeness(c)
                 + 0.2 * Corroboration(c.evidenceSources);
    if score <= 1.0 then score else 1.0
  }

  /** Adding evidence URLs never lowers the confidence: both the best
      source tier and the number of distinct URLs can only grow. */
  lemma ConfidenceMonotone(c: Candidate, more: seq<string>)
    ensures Confidence(c) <= Confidence(c.(evidenceSources := c.evidenceSources + more))
  {
    var a := c.evidenceSources;
    SourceScoreMonotone(a, a + more);
    CorroborationByDistinctUrls(a, more);
  }

  /** The cap at 1.0 never applies: the three weights sum to 1 and each part
      lies in [0,1], so the confidence is exactly the weighted sum. */
  lemma ConfidenceIsWeightedSum(c: Candidate)
    ensures Confidence(c) == 0.5 * SourceScore(c.evidenceSources) + 0.3 * Completeness(c)
                             + 0.2 * Corroboration(c.evidenceSources)
  {
  }

  /** Without evidence only completeness counts, so the score is at most 0.3. */
  lemma ConfidenceWithoutSources(c: Candidate)
    requires c.evidenceSources == []
    ensures Confidence(c) == 0.3 * Completeness(c)
    ensures Confidence(c) <= 0.3
  {
  }

  /** A complete candidate backed by a national-site URL and two distinct
      URLs in all scores 0.5 + 0.3 + 0.12 = 0.92. */
  lemma ConfidenceNationalSiteExample(c: Candidate, s: string)
    requires s in c.evidenceSources && Contains(Lower(s), "jaycee.or.jp")
    requires YearPlausible(c.year) && c.regionName != "" && c.position != ""
    requires DistinctCount(c.evidenceSources) == 2
    ensures Confidence(c) == 0.92
  {
    assert SourceTier(s) == 1.0;
  }

  /** A complete candidate seen on one ordinary site scores at most
      0.15 + 0.3 + 0.06 = 0.51, under the default threshold of 0.6. */
  lemma ConfidenceOrdinarySiteBelowDefault(c: Candidate)
    requires c.evidenceSources != []
    requires forall s :: s in c.evidenceSources ==> SourceTier(s) == 0.3
    requires DistinctCount(c.evidenceSources) == 1
    ensures Confidence(c) <= 0.51 < 0.6
  {
    var s :| s in c.evidenceSources && SourceTier(s) == SourceScore(c.evidenceSources);
  }

  // ---------------------------------------------------------------------------
  // Ranking (rank_candidates)
  // ---------------------------------------------------------------------------

  /** The sort key: score, then the raw number of evidence URLs. */
  datatype SortKey = SortKey(score: real, count: nat)

  function Key(c: Candidate): SortKey {
    SortKey(c.confidenceScore, |c.evidenceSources|)
  }

  /** Lexicographic "a sorts strictly below b". */
  predicate KeyLess(a: Candidate, b: Candidate) {
    a.confidenceScore < b.confidenceScore
    || (a.confidenceScore == b.confidenceScore && |a.evidenceSources| < |b.evidenceSources|)
  }

  predicate SortedDesc(s: seq<Candidate>) {
    forall i, j :: 0 <= i < j < |s| ==> !KeyLess(s[i], s[j])
  }

  /** The first step: every candidate gets its confidence written. */
  function WithScores(cands: seq<Candidate>): (r: seq<Candidate>)
    ensures |r| == |cands|
  {
    seq(|cands|, i requires 0 <= i < |cands| => cands[i].(confidenceScore := Confidence(cands[i])))
  }

  /** The candidates whose score reaches the threshold, in order. */
  function KeepAbove(s: seq<Candidate>, minConfidence: real): seq<Candidate> {
    if s == [] then []
    else
      var c := s[|s| - 1];
      KeepAbove(s[..|s| - 1], minConfidence) + (if c.confidenceScore >= minConfidence then [c] else [])
  }

  /** Put `x` after every element whose key is at least its own. */
  function Insert(s: seq<Candidate>, x: Candidate): seq<Candidate> {
    if s == [] then [x]
    else if KeyLess(s[0], x) then [x] + s
    else [s[0]] + Insert(s[1..], x)
  }

  /** Stable descending sort: insertion of each element in input order. */
  function SortDesc(s: seq<Candidate>): seq<Candidate> {
    if s == [] then [] else Insert(SortDesc(s[..|s| - 1]), s[|s| - 1])
  }

  /** Ranks 1, 2, ... in list order. */
  function AssignRanks(s: seq<Candidate>): (r: seq<Candidate>)
    ensures |r| == |s|
  {
    seq(|s|, i requires 0 <= i < |s| => s[i].(rank := i + 1))
  }

  /** Python's `s[:n]`: a negative `n` counts from the end. */
  function Head<T>(s: seq<T>, n: int): (r: seq<T>)
    ensures r <= s
    ensures 0 <= n ==> |r| == if n <= |s| then n else |s|
    ensures n < 0 ==> |r| == if |s| + n >= 0 then |s| + n else 0
  {
    if n >= 0 then (if n <= |s| then s[..n] else s)
    else if |s| + n >= 0 then s[..|s| + n] else []
  }

  /** The elements of `s` with key `k`, in order. */
  function WithKey(s: seq<Candidate>, k: SortKey): seq<Candidate> {
    if s == [] then [] else (if Key(s[0]) == k then [s[0]] else []) + WithKey(s[1..], k)
  }

  lemma {:induction false} InsertPermutes(s: seq<Candidate>, x: Candidate)
    ensures multiset(Insert(s, x)) == multiset(s) + multiset{x}
  {
    if s != [] && !KeyLess(s[0], x) {
      InsertPermutes(s[1..], x);
      assert s == [s[0]] + s[1..];
    }
  }

  lemma {:induction false} InsertSorted(s: seq<Candidate>, x: Candidate)
    requires SortedDesc(s)
    ensures SortedDesc(Insert(s, x))
  {
    if s != [] && !KeyLess(s[0], x) {
      InsertSorted(s[1..], x);
      InsertPermutes(s[1..], x);
      var r := Insert(s[1..], x);
      forall j | 0 <= j < |r| ensures !KeyLess(s[0], r[j]) {
        assert r[j] in multiset(r);
        if r[j] != x {
          assert r[j] in multiset(s[1..]);
          var k :| 0 <= k < |s[1..]| && s[1..][k] == r[j];
          assert s[k + 1] == r[j];
        }
      }
    }
  }

  lemma {:induction false} WithKeyNone(s: seq<Candidate>, x: Candidate)
    requires SortedDesc(s) && s != [] && KeyLess(s[0], x)
    ensures WithKey(s, Key(x)) == []
    decreases |s|
  {
    if |s| > 1 {
      assert !KeyLess(s[0], s[1]);
      assert SortedDesc(s[1..]) by {
        forall i, j | 0 <= i < j < |s[1..]| ensures !KeyLess(s[1..][i], s[1..][j]) {
          assert s[1..][i] == s[i + 1] && s[1..][j] == s[j + 1];
        }
      }
      WithKeyNone(s[1..], x);
    }
  }

  /** Inserting keeps the relative order of equal keys and puts `x` last among them. */
  lemma {:induction false} WithKeyInsert(s: seq<Candidate>, x: Candidate, k: SortKey)
    requires SortedDesc(s)
    ensures WithKey(Insert(s, x), k) == WithKey(s, k) + (if Key(x) == k then [x] else [])
  {
    if s == [] {
    } else if KeyLess(s[0], x) {
      WithKeyNone(s, x);
      assert ([x] + s)[1..] == s;
    } else {
      assert SortedDesc(s[1..]) by {
        forall i, j | 0 <= i < j < |s[1..]| ensures !KeyLess(s[1..][i], s[1..][j]) {
          assert s[1..][i] == s[i + 1] && s[1..][j] == s[j + 1];
        }
      }
      WithKeyInsert(s[1..], x, k);
      assert ([s[0]] + Insert(s[1..], x))[1..] == Insert(s[1..], x);
    }
  }

  lemma {:induction false} WithKeyAppend(a: seq<Candidate>, b: seq<Candidate>, k: SortKey)
    ensures WithKey(a + b, k) == WithKey(a, k) + WithKey(b, k)
  {
    if a != [] {
      assert (a + b)[1..] == a[1..] + b;
      WithKeyAppend(a[1..], b, k);
    } else {
      assert a + b == b;
    }
  }

  /** The sort is a sorted permutation that keeps equal keys in input order. */
  lemma {:induction false} SortDescCorrect(s: seq<Candidate>)
    ensures SortedDesc(SortDesc(s))
    ensures multiset(SortDesc(s)) == multiset(s)
    ensures forall k :: WithKey(SortDesc(s), k) == WithKey(s, k)
  {
    if s != [] {
      var init := s[..|s| - 1];
      var x := s[|s| - 1];
      assert s == init + [x];
      SortDescCorrect(init);
      InsertSorted(SortDesc(init), x);
      InsertPermutes(SortDesc(init), x);
      forall k ensures WithKey(SortDesc(s), k) == WithKey(s, k) {
        WithKeyInsert(SortDesc(init), x, k);
        WithKeyAppend(init, [x], k);
      }
    }
  }

  lemma {:induction false} KeepAboveProps(s: seq<Candidate>, minConfidence: real)
    ensures forall c :: c in KeepAbove(s, minConfidence) <==> c in s && c.confidenceScore >= minConfidence
  {
    if s != [] {
      var init := s[..|s| - 1];
      assert s == init + [s[|s| - 1]];
      KeepAboveProps(init, minConfidence);
    }
  }

  /** The reference meaning of `rank_candidates`: the inputs with their
      scores written, the full ranked list, and the truncated result. */
  function RankSpec(cands: seq<Candidate>, q: SearchQuery): (seq<Candidate>, seq<Candidate>, seq<Candidate>) {
    var scored := WithScores(cands);
    var ranked := AssignRanks(SortDesc(KeepAbove(scored, q.minConfidence)));
    (scored, ranked, Head(ranked, q.maxResults))
  }

  /** `rank_candidates`. `scored` is the input list after its scores have
      been written in place, `ranked` the full sorted list after ranks are
      written, and `result` what is returned. */
  method RankCandidates(cands: seq<Candidate>, q: SearchQuery)
    returns (scored: seq<Candidate>, ranked: seq<Candidate>, result: seq<Candidate>)
    ensures (scored, ranked, result) == RankSpec(cands, q)
  {
    scored := ScoreAll(cands);
    var filtered := FilterAbove(scored, q.minConfidence);
    var ordered := SortStable(filtered);
    ranked := RankInOrder(ordered);
    result := Head(ranked, q.maxResults);
  }

  method ScoreAll(cands: seq<Candidate>) returns (scored: seq<Candidate>)
    ensures scored == WithScores(cands)
  {
    ghost var w := WithScores(cands);
    scored := [];
    var i := 0;
    while i < |cands|
      invariant 0 <= i <= |cands|
      invariant scored == w[..i]
    {
      var c := cands[i].(confidenceScore := Confidence(cands[i]));
      assert w[i] == c;
      TakeOneMore(w, i);
      scored := scored + [c];
      i := i + 1;
    }
    assert w[..i] == w;
  }

  lemma TakeOneMore<T>(s: seq<T>, i: nat)
    requires i < |s|
    ensures s[..i + 1] == s[..i] + [s[i]]
  {
  }

  method RankInOrder(ordered: seq<Candidate>) returns (ranked: seq<Candidate>)
    ensures ranked == AssignRanks(ordered)
  {
    ranked := [];
    var i := 0;
    while i < |ordered|
      invariant 0 <= i <= |ordered|
      invariant ranked == AssignRanks(ordered)[..i]
    {
      ranked := ranked + [ordered[i].(rank := i + 1)];
      i := i + 1;
    }
  }

  method FilterAbove(s: seq<Candidate>, minConfidence: real) returns (r: seq<Candidate>)
    ensures r == KeepAbove(s, minConfidence)
  {
    r := [];
    var i := 0;
    while i < |s|
      invariant 0 <= i <= |s|
      invariant r == KeepAbove(s[..i], minConfidence)
    {
      assert s[..i + 1][..i] == s[..i];
      if s[i].confidenceScore >= minConfidence {
        r := r + [s[i]];
      }
      i := i + 1;
    }
    assert s[..i] == s;
  }

  method SortStable(s: seq<Candidate>) returns (r: seq<Candidate>)
    ensures r == SortDesc(s)
  {
    r := [];
    var i := 0;
    while i < |s|
      invariant 0 <= i <= |s|
      invariant r == SortDesc(s[..i])
    {
      assert s[..i + 1][..i] == s[..i];
      r := Insert(r, s[i]);
      i := i + 1;
    }
    assert s[..i] == s;
  }

  /** What the ranker promises: every input gets its confidence and keeps
      everything else; the result is the sorted, ranked survivors of the
      threshold, each with score at least `min_confidence`, ranks 1..k in
      order, and as many as `max_results` allows; the full ranked list holds
      exactly the surviving candidates, with equal keys in input order. */
  lemma RankProperties(cands: seq<Candidate>, q: SearchQuery)
    ensures var (scored, ranked, result) := RankSpec(cands, q);
      && |scored| == |cands|
      && (forall i :: 0 <= i < |cands| ==>
            scored[i].confidenceScore == Confidence(cands[i])
            && scored[i].(confidenceScore := cands[i].confidenceScore) == cands[i])
      && SortedDesc(result)
      && (forall i :: 0 <= i < |result| ==> result[i].confidenceScore >= q.minConfidence && result[i].rank == i + 1)
      && (q.maxResults >= 0 ==>
            |result| == if q.maxResults <= |ranked| then q.maxResults else |ranked|)
      && |ranked| == |KeepAbove(scored, q.minConfidence)|
  {
    var scored := WithScores(cands);
    var kept := KeepAbove(scored, q.minConfidence);
    var ordered := SortDesc(kept);
    var ranked := AssignRanks(ordered);
    var result := Head(ranked, q.maxResults);
    assert RankSpec(cands, q) == (scored, ranked, result);
    assert SortedDesc(ordered) && |ordered| == |kept|
      && forall c: Candidate :: c in multiset(ordered) ==> c.confidenceScore >= q.minConfidence
    by {
      SortDescCorrect(kept);
      KeepAboveProps(scored, q.minConfidence);
      assert |multiset(ordered)| == |multiset(kept)|;
    }
    RankedHead(ordered, q.maxResults, q.minConfidence);
  }

  /** Ranking a sorted list whose scores all pass keeps it sorted and
      passing, and numbers it 1, 2, ...; so does every prefix. */
  lemma RankedHead(ordered: seq<Candidate>, n: int, minConfidence: real)
    requires SortedDesc(ordered)
    requires forall c :: c in multiset(ordered) ==> c.confidenceScore >= minConfidence
    ensures var result := Head(AssignRanks(ordered), n);
      && SortedDesc(result)
      && (forall i :: 0 <= i < |result| ==> result[i].confidenceScore >= minConfidence && result[i].rank == i + 1)
  {
    var ranked := AssignRanks(ordered);
    var result := Head(ranked, n);
    forall i | 0 <= i < |result| ensures result[i] == ranked[i] {
    }
    forall i | 0 <= i < |result| ensures result[i].confidenceScore >= minConfidence {
      assert ordered[i] in multiset(ordered);
    }
  }

  /** The survivors of the threshold are exactly the ranked list, up to ranks:
      a permutation of the scored inputs that pass, with equal keys kept in
      input order. */
  lemma RankedIsStablePermutation(cands: seq<Candidate>, q: SearchQuery)
    ensures var kept := KeepAbove(WithScores(cands), q.minConfidence);
      var ordered := SortDesc(kept);
      && multiset(ordered) == multiset(kept)
      && (forall k :: WithKey(ordered, k) == WithKey(kept, k))
      && RankSpec(cands, q).1 == AssignRanks(ordered)
      && (forall c :: c in kept <==> c in WithScores(cands) && c.confidenceScore >= q.minConfidence)
  {
    var kept := KeepAbove(WithScores(cands), q.minConfidence);
    SortDescCorrect(kept);
    KeepAboveProps(WithScores(cands), q.minConfidence);
  }
}
