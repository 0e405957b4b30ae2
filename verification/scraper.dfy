/** The extraction side of the candidate pipeline (jcmars/backend/scraper.py):
    the search-engine query string, the per-page filter over pattern matches,
    and the cross-page aggregation by normalised name. The regex engine and
    the HTML-to-text step are an oracle: a fetched page arrives with its text
    and, per extraction pattern, the ordered matches found in that text once
    its whitespace runs are collapsed. */
module Scraper {
  import opened Wrappers
  import opened Text
  import opened Names
  import opened Models

  // ---------------------------------------------------------------------------
  // Search query string (build_search_query)
  // ---------------------------------------------------------------------------

  function Quote(s: string): string {
    "\"" + s + "\""
  }

  /** `"2024年" OR "2024年度"` */
  function YearTerm(year: int): string {
    Quote(IntToString(year) + "年") + " OR " + Quote(IntToString(year) + "年度")
  }

  const JcTerm: string := "\"青年会議所\" OR \"JC\""

  /** The council qualifier inferred from the region name: block wins over district. */
  function TierTerms(regionName: string): seq<string> {
    if Contains(regionName, "ブロック") then [Quote("ブロック協議会")]
    else if Contains(regionName, "地区") then [Quote("地区協議会")]
    else []
  }

  /** Python truthiness of an optional string: present and non-empty. */
  predicate Truthy(kw: Option<string>) {
    kw.Some? && kw.value != ""
  }

  function SearchTerms(q: SearchQuery): seq<string> {
    [YearTerm(q.year), Quote(q.regionName), Quote(q.position)] + TierTerms(q.regionName) + [JcTerm]
    + (if Truthy(q.keywords) then [q.keywords.value] else [])
  }

  /** `build_search_query`: the terms joined by single spaces. */
  function BuildSearchQuery(q: SearchQuery): string {
    Join(" ", SearchTerms(q))
  }

  /** The whole string when no keywords are given: year alternation, quoted
      region, quoted position, the council qualifier if any, and the
      organisation alternation. */
  lemma QueryLayout(q: SearchQuery)
    requires !Truthy(q.keywords)
    ensures BuildSearchQuery(q) ==
      YearTerm(q.year) + " " + Quote(q.regionName) + " " + Quote(q.position) + TierText(q.regionName) + " " + JcTerm
  {
    var tail := TierTerms(q.regionName) + [JcTerm];
    var y, r, p := YearTerm(q.year), Quote(q.regionName), Quote(q.position);
    assert SearchTerms(q) == [y] + ([r] + ([p] + tail));
    JoinCons(" ", y, [r] + ([p] + tail));
    JoinCons(" ", r, [p] + tail);
    JoinCons(" ", p, tail);
    var j := Join(" ", tail);
    var t := TierText(q.regionName);
    TierTail(q.regionName);
    assert BuildSearchQuery(q) == y + " " + (r + " " + (p + " " + j));
    Assoc(p, " ", j);
    Assoc(r + " ", p, " " + j);
    Assoc(y + " ", r + " " + p, " " + j);
    Assoc(y + " ", r + " ", p);
    Assoc(y + " ", r, " ");
    var head := y + " " + r + " " + p;
    assert BuildSearchQuery(q) == head + (" " + j);
    Assoc(head, t + " ", JcTerm);
    Assoc(head, t, " ");
  }

  /** The council qualifier as it appears in the query: a space and the
      quoted council name, or nothing. */
  function TierText(regionName: string): (r: string)
    ensures r == if Contains(regionName, "ブロック") then " \"ブロック協議会\""
      else if Contains(regionName, "地区") then " \"地区協議会\""
      else ""
  {
    var tier := TierTerms(regionName);
    if tier == [] then "" else " " + tier[0]
  }

  lemma TierTail(regionName: string)
    ensures " " + Join(" ", TierTerms(regionName) + [JcTerm]) == TierText(regionName) + " " + JcTerm
  {
    var tier := TierTerms(regionName);
    if tier == [] {
      assert tier + [JcTerm] == [JcTerm];
    } else {
      assert tier + [JcTerm] == [tier[0]] + [JcTerm];
      JoinCons(" ", tier[0], [JcTerm]);
    }
  }

  /** Keywords are appended verbatim as the last term exactly when they are
      truthy; `None` and `""` give the same string. */
  lemma {:induction false} QueryKeywordsLast(q: SearchQuery)
    ensures Truthy(q.keywords) ==>
      BuildSearchQuery(q) == BuildSearchQuery(q.(keywords := None)) + " " + q.keywords.value
    ensures !Truthy(q.keywords) <==> BuildSearchQuery(q) == BuildSearchQuery(q.(keywords := None))
    ensures BuildSearchQuery(q.(keywords := Some(""))) == BuildSearchQuery(q.(keywords := None))
  {
    var q0 := q.(keywords := None);
    if Truthy(q.keywords) {
      assert SearchTerms(q) == SearchTerms(q0) + [q.keywords.value];
      JoinSnoc(" ", SearchTerms(q0), q.keywords.value);
      assert |BuildSearchQuery(q)| > |BuildSearchQuery(q0)|;
    }
  }

  /** The council qualifier agrees with `detect_organization_level` on block
      and district names. */
  lemma QueryTierMatchesLevel(q: SearchQuery)
    ensures DetectOrganizationLevel(q.regionName) == Block ==> TierTerms(q.regionName) == [Quote("ブロック協議会")]
    ensures DetectOrganizationLevel(q.regionName) == District && !Contains(q.regionName, "ブロック")
      ==> TierTerms(q.regionName) == [Quote("地区協議会")]
  {
    if Contains(q.regionName, "地区協議会") {
      ContainsPrefixOfPattern(q.regionName, "地区協議会", 2);
      assert "地区協議会"[..2] == "地区";
    }
  }

  // ---------------------------------------------------------------------------
  // Extraction from one page (extract_candidates)
  // ---------------------------------------------------------------------------

  /** One regex match: the named captures it has (a pattern without a group
      yields `None`) and its span in the collapsed page text. */
  datatype Match = Match(
    name: Option<string>,
    position: Option<string>,
    year: Option<int>,
    region: Option<string>,
    start: nat,
    end: nat)

  /** A fetched page: raw HTML, its extracted text, and per extraction
      pattern (in pattern order) the matches in the collapsed text. */
  datatype Page = Page(html: string, text: string, matches: seq<seq<Match>>)

  /** One record emitted by the extractor. */
  datatype Extracted = Extracted(
    name: string,
    position: string,
    year: int,
    regionName: string,
    organizationName: string,
    sourceUrl: string,
    context: string)

  const ContextRadius: nat := 50

  /** The raw capture exists and has 2 to 8 characters (checked before normalising). */
  predicate ValidRawName(m: Match) {
    m.name.Some? && 2 <= |m.name.value| <= 8
  }

  function MatchYear(m: Match, q: SearchQuery): int {
    m.year.GetOr(q.year)
  }

  /** `abs(year - query.year) <= 1` */
  predicate InYearWindow(m: Match, q: SearchQuery) {
    -1 <= MatchYear(m, q) - q.year <= 1
  }

  predicate Accepted(m: Match, q: SearchQuery) {
    ValidRawName(m) && InYearWindow(m, q)
  }

  function NormalizedName(m: Match): string
    requires ValidRawName(m)
  {
    NormalizePersonName(m.name.value)
  }

  /** Up to 50 characters either side of the match, stripped. */
  function Context(text: string, m: Match): string {
    var lo := if m.start >= ContextRadius then m.start - ContextRadius else 0;
    var hi := if |text| <= m.end + ContextRadius then |text| else m.end + ContextRadius;
    Strip(PySlice(text, lo, hi))
  }

  /** The record built from an accepted match: missing captures default to
      the query, and the organisation name is the region. */
  function MakeRecord(m: Match, q: SearchQuery, url: string, text: string): (r: Extracted)
    requires ValidRawName(m)
  {
    var region := m.region.GetOr(q.regionName);
    Extracted(NormalizedName(m), m.position.GetOr(q.position), MatchYear(m, q),
              region, region, url, Context(text, m))
  }

  /** All matches, pattern by pattern. */
  function Flatten(mss: seq<seq<Match>>): seq<Match> {
    if mss == [] then [] else Flatten(mss[..|mss| - 1]) + mss[|mss| - 1]
  }

  /** Records of the accepted matches, in match order (no de-duplication yet). */
  function AcceptedRecords(ms: seq<Match>, q: SearchQuery, url: string, text: string): seq<Extracted> {
    if ms == [] then []
    else
      var m := ms[|ms| - 1];
      AcceptedRecords(ms[..|ms| - 1], q, url, text) + (if Accepted(m, q) then [MakeRecord(m, q, url, text)] else [])
  }

  function NameSet(s: seq<Extracted>): set<string> {
    set r | r in s :: r.name
  }

  predicate NamesDistinct(s: seq<Extracted>) {
    forall i, j :: 0 <= i < j < |s| ==> s[i].name != s[j].name
  }

  /** Keep the first record of each name. */
  function DedupFirst(s: seq<Extracted>): seq<Extracted> {
    if s == [] then []
    else
      var init := s[..|s| - 1];
      if s[|s| - 1].name in NameSet(init) then DedupFirst(init) else DedupFirst(init) + [s[|s| - 1]]
  }

  /** Reference meaning of `extract_candidates`: nothing for an empty page or
      empty text; otherwise the first accepted record of each normalised name. */
  function ExtractSpec(page: Page, url: string, q: SearchQuery): seq<Extracted> {
    if page.html == "" || page.text == "" then []
    else DedupFirst(AcceptedRecords(Flatten(page.matches), q, url, CollapseSpaces(page.text)))
  }

  lemma NameSetSnoc(s: seq<Extracted>, x: Extracted)
    ensures NameSet(s + [x]) == NameSet(s) + {x.name}
  {
    assert forall r :: r in s + [x] <==> r in s || r == x;
  }

  lemma NameSetLast(s: seq<Extracted>)
    requires s != []
    ensures NameSet(s) == NameSet(s[..|s| - 1]) + {s[|s| - 1].name}
  {
    assert s == s[..|s| - 1] + [s[|s| - 1]];
    NameSetSnoc(s[..|s| - 1], s[|s| - 1]);
  }

  lemma DedupFirstSnoc(s: seq<Extracted>, x: Extracted)
    ensures DedupFirst(s + [x]) == if x.name in NameSet(s) then DedupFirst(s) else DedupFirst(s) + [x]
  {
    assert (s + [x])[..|s + [x]| - 1] == s;
  }

  lemma {:induction false} DedupFirstProps(s: seq<Extracted>)
    ensures NameSet(DedupFirst(s)) == NameSet(s)
    ensures NamesDistinct(DedupFirst(s))
    ensures forall x :: x in DedupFirst(s) ==> x in s
  {
    if s != [] {
      var init := s[..|s| - 1];
      var x := s[|s| - 1];
      assert s == init + [x];
      DedupFirstProps(init);
      NameSetSnoc(init, x);
      if x.name !in NameSet(init) {
        NameSetSnoc(DedupFirst(init), x);
        var d := DedupFirst(s);
        forall i, j | 0 <= i < j < |d| ensures d[i].name != d[j].name {
          if j == |d| - 1 {
            assert d[i] in DedupFirst(init);
          }
        }
      }
    }
  }

  /** De-duplicating a longer stream extends the result for its prefix. */
  lemma {:induction false} DedupFirstPrefix(s: seq<Extracted>, k: nat)
    requires k <= |s|
    ensures DedupFirst(s[..k]) <= DedupFirst(s)
    decreases |s|
  {
    if k < |s| {
      var init := s[..|s| - 1];
      assert init[..k] == s[..k];
      DedupFirstPrefix(init, k);
    } else {
      assert s[..k] == s;
    }
  }

  /** A record whose name has not been seen before it survives de-duplication. */
  lemma DedupFirstKeepsFirst(s: seq<Extracted>, k: nat)
    requires k < |s| && s[k].name !in NameSet(s[..k])
    ensures s[k] in DedupFirst(s)
  {
    assert s[..k + 1] == s[..k] + [s[k]];
    DedupFirstSnoc(s[..k], s[k]);
    DedupFirstPrefix(s, k + 1);
    assert s[k] in DedupFirst(s[..k + 1]);
  }

  lemma AcceptedRecordsSnoc(ms: seq<Match>, m: Match, q: SearchQuery, url: string, text: string)
    ensures AcceptedRecords(ms + [m], q, url, text)
         == AcceptedRecords(ms, q, url, text) + (if Accepted(m, q) then [MakeRecord(m, q, url, text)] else [])
  {
    assert (ms + [m])[..|ms + [m]| - 1] == ms;
  }

  lemma AcceptedRecordsStep(ms: seq<Match>, k: nat, q: SearchQuery, url: string, text: string)
    requires k < |ms|
    ensures AcceptedRecords(ms[..k + 1], q, url, text)
         == AcceptedRecords(ms[..k], q, url, text) + (if Accepted(ms[k], q) then [MakeRecord(ms[k], q, url, text)] else [])
  {
    assert ms[..k + 1][..k] == ms[..k];
  }

  lemma {:induction false} AcceptedRecordsSound(ms: seq<Match>, q: SearchQuery, url: string, text: string)
    ensures forall r :: r in AcceptedRecords(ms, q, url, text) ==>
      exists m :: m in ms && Accepted(m, q) && r == MakeRecord(m, q, url, text)
  {
    if ms != [] {
      var init := ms[..|ms| - 1];
      var m := ms[|ms| - 1];
      assert ms == init + [m];
      AcceptedRecordsSound(init, q, url, text);
      AcceptedRecordsSnoc(init, m, q, url, text);
      forall r | r in AcceptedRecords(ms, q, url, text)
        ensures exists m' :: m' in ms && Accepted(m', q) && r == MakeRecord(m', q, url, text)
      {
        if r in AcceptedRecords(init, q, url, text) {
          var m' :| m' in init && Accepted(m', q) && r == MakeRecord(m', q, url, text);
          assert m' in ms;
        } else {
          assert m in ms && Accepted(m, q) && r == MakeRecord(m, q, url, text);
        }
      }
    }
  }

  /** A member of a non-empty sequence is in its front part or is its last element. */
  lemma InitOrLast<T>(s: seq<T>, x: T)
    requires x in s
    ensures x in s[..|s| - 1] || x == s[|s| - 1]
  {
    var i :| 0 <= i < |s| && s[i] == x;
    if i < |s| - 1 {
      assert s[..|s| - 1][i] == x;
    }
  }

  lemma {:induction false} AcceptedRecordsComplete(ms: seq<Match>, q: SearchQuery, url: string, text: string)
    ensures forall m :: m in ms && Accepted(m, q) ==> NormalizedName(m) in NameSet(AcceptedRecords(ms, q, url, text))
  {
    if ms != [] {
      var init := ms[..|ms| - 1];
      var m := ms[|ms| - 1];
      AcceptedRecordsComplete(init, q, url, text);
      var before := AcceptedRecords(init, q, url, text);
      var after := AcceptedRecords(ms, q, url, text);
      if Accepted(m, q) {
        NameSetSnoc(before, MakeRecord(m, q, url, text));
        assert NameSet(after) == NameSet(before) + {NormalizedName(m)};
      } else {
        assert after == before + [];
        assert NameSet(after) == NameSet(before);
      }
      forall m' | m' in ms && Accepted(m', q)
        ensures NormalizedName(m') in NameSet(after)
      {
        InitOrLast(ms, m');
      }
    }
  }

  lemma {:induction false} AcceptedRecordsPrefix(ms: seq<Match>, k: nat, q: SearchQuery, url: string, text: string)
    requires k <= |ms|
    ensures AcceptedRecords(ms[..k], q, url, text) <= AcceptedRecords(ms, q, url, text)
    decreases |ms|
  {
    if k < |ms| {
      assert ms[..|ms| - 1][..k] == ms[..k];
      AcceptedRecordsPrefix(ms[..|ms| - 1], k, q, url, text);
    } else {
      assert ms[..k] == ms;
    }
  }

  lemma {:induction false} AcceptedRecordsNameAbsent(ms: seq<Match>, n: string, q: SearchQuery, url: string, text: string)
    requires forall j :: 0 <= j < |ms| && Accepted(ms[j], q) ==> NormalizedName(ms[j]) != n
    ensures n !in NameSet(AcceptedRecords(ms, q, url, text))
  {
    if ms != [] {
      var init := ms[..|ms| - 1];
      var m := ms[|ms| - 1];
      assert forall j :: 0 <= j < |init| ==> init[j] == ms[j];
      AcceptedRecordsNameAbsent(init, n, q, url, text);
      var a := AcceptedRecords(init, q, url, text);
      if Accepted(m, q) {
        NameSetSnoc(a, MakeRecord(m, q, url, text));
      } else {
        assert AcceptedRecords(ms, q, url, text) == a + [];
        assert a + [] == a;
      }
    }
  }

  /** `flat[k]` is accepted and no accepted match before it has its name. */
  predicate FirstAcceptedOfName(flat: seq<Match>, k: int, q: SearchQuery) {
    && 0 <= k < |flat| && Accepted(flat[k], q)
    && forall j :: 0 <= j < k && Accepted(flat[j], q) ==> NormalizedName(flat[j]) != NormalizedName(flat[k])
  }

  lemma PrefixMember<T>(a: seq<T>, b: seq<T>, x: T)
    requires a <= b && x in a
    ensures x in b
  {
    var i :| 0 <= i < |a| && a[i] == x;
    assert b[i] == x;
  }

  lemma AcceptedPrefixKept(flat: seq<Match>, k: nat, q: SearchQuery, url: string, text: string)
    requires FirstAcceptedOfName(flat, k, q)
    ensures MakeRecord(flat[k], q, url, text) in DedupFirst(AcceptedRecords(flat[..k + 1], q, url, text))
  {
    var pre := AcceptedRecords(flat[..k], q, url, text);
    var x := MakeRecord(flat[k], q, url, text);
    AcceptedRecordsStep(flat, k, q, url, text);
    AcceptedRecordsNameAbsent(flat[..k], x.name, q, url, text);
    DedupFirstSnoc(pre, x);
  }

  lemma DedupAcceptedPrefix(flat: seq<Match>, k: nat, q: SearchQuery, url: string, text: string)
    requires k <= |flat|
    ensures DedupFirst(AcceptedRecords(flat[..k], q, url, text)) <= DedupFirst(AcceptedRecords(flat, q, url, text))
  {
    var part := AcceptedRecords(flat[..k], q, url, text);
    var recs := AcceptedRecords(flat, q, url, text);
    AcceptedRecordsPrefix(flat, k, q, url, text);
    assert recs[..|part|] == part;
    DedupFirstPrefix(recs, |part|);
  }

  /** The earliest accepted match of a name is the one kept. */
  lemma FirstAcceptedKept(flat: seq<Match>, k: nat, q: SearchQuery, url: string, text: string)
    requires FirstAcceptedOfName(flat, k, q)
    ensures MakeRecord(flat[k], q, url, text) in DedupFirst(AcceptedRecords(flat, q, url, text))
  {
    AcceptedPrefixKept(flat, k, q, url, text);
    DedupAcceptedPrefix(flat, k + 1, q, url, text);
    PrefixMember(DedupFirst(AcceptedRecords(flat[..k + 1], q, url, text)),
                 DedupFirst(AcceptedRecords(flat, q, url, text)),
                 MakeRecord(flat[k], q, url, text));
  }

  /** Facts about one page's output: names are pairwise distinct; every
      record comes from an accepted match (raw name of 2 to 8 characters,
      year within one of the query's, missing captures defaulted); every
      accepted match's name is emitted; and the earliest accepted match of
      a name is the one emitted. */
  lemma ExtractProperties(page: Page, url: string, q: SearchQuery)
    requires page.html != "" && page.text != ""
    ensures NamesDistinct(ExtractSpec(page, url, q))
    ensures forall r :: r in ExtractSpec(page, url, q) ==>
      exists m :: m in Flatten(page.matches) && Accepted(m, q) && r == MakeRecord(m, q, url, CollapseSpaces(page.text))
    ensures forall m :: m in Flatten(page.matches) && Accepted(m, q) ==> NormalizedName(m) in NameSet(ExtractSpec(page, url, q))
    ensures forall k :: FirstAcceptedOfName(Flatten(page.matches), k, q) ==>
      MakeRecord(Flatten(page.matches)[k], q, url, CollapseSpaces(page.text)) in ExtractSpec(page, url, q)
  {
    var flat := Flatten(page.matches);
    var text := CollapseSpaces(page.text);
    ExtractSound(flat, q, url, text);
    ExtractComplete(flat, q, url, text);
    ExtractKeepsFirst(flat, q, url, text);
  }

  /** Page-level soundness: every output record is an accepted match's, and names are distinct. */
  lemma ExtractSound(flat: seq<Match>, q: SearchQuery, url: string, text: string)
    ensures NamesDistinct(DedupFirst(AcceptedRecords(flat, q, url, text)))
    ensures forall r :: r in DedupFirst(AcceptedRecords(flat, q, url, text)) ==>
      exists m :: m in flat && Accepted(m, q) && r == MakeRecord(m, q, url, text)
  {
    DedupFirstProps(AcceptedRecords(flat, q, url, text));
    AcceptedRecordsSound(flat, q, url, text);
  }

  /** Page-level completeness: every accepted match's name is emitted. */
  lemma ExtractComplete(flat: seq<Match>, q: SearchQuery, url: string, text: string)
    ensures forall m :: m in flat && Accepted(m, q) ==>
      NormalizedName(m) in NameSet(DedupFirst(AcceptedRecords(flat, q, url, text)))
  {
    DedupFirstProps(AcceptedRecords(flat, q, url, text));
    AcceptedRecordsComplete(flat, q, url, text);
  }

  /** The earliest accepted match of each name is the record kept. */
  lemma ExtractKeepsFirst(flat: seq<Match>, q: SearchQuery, url: string, text: string)
    ensures forall k :: FirstAcceptedOfName(flat, k, q) ==>
      MakeRecord(flat[k], q, url, text) in DedupFirst(AcceptedRecords(flat, q, url, text))
  {
    forall k | FirstAcceptedOfName(flat, k, q)
      ensures MakeRecord(flat[k], q, url, text) in DedupFirst(AcceptedRecords(flat, q, url, text))
    {
      FirstAcceptedKept(flat, k, q, url, text);
    }
  }

  /** Empty HTML or empty text yields nothing. */
  lemma ExtractEmptyPage(page: Page, url: string, q: SearchQuery)
    requires page.html == "" || page.text == ""
    ensures ExtractSpec(page, url, q) == []
  {
  }

  /** A match dropped for its year does not mark its name as found: a later
      accepted match of the same name is still the one emitted. */
  lemma YearDropDoesNotBlock(page: Page, url: string, q: SearchQuery, i: nat, k: nat)
    requires page.html != "" && page.text != ""
    requires i < k < |Flatten(page.matches)|
    requires ValidRawName(Flatten(page.matches)[i]) && !InYearWindow(Flatten(page.matches)[i], q)
    requires FirstAcceptedOfName(Flatten(page.matches), k, q)
    requires NormalizedName(Flatten(page.matches)[i]) == NormalizedName(Flatten(page.matches)[k])
    ensures MakeRecord(Flatten(page.matches)[k], q, url, CollapseSpaces(page.text)) in ExtractSpec(page, url, q)
  {
    FirstAcceptedKept(Flatten(page.matches), k, q, url, CollapseSpaces(page.text));
  }

  /** One step of the source's inner loop, stated on the reference. */
  lemma ExtractStep(seen: seq<Match>, m: Match, q: SearchQuery, url: string, text: string)
    ensures var d := DedupFirst(AcceptedRecords(seen, q, url, text));
      DedupFirst(AcceptedRecords(seen + [m], q, url, text))
      == if ValidRawName(m) && NormalizedName(m) !in NameSet(d) && InYearWindow(m, q)
         then d + [MakeRecord(m, q, url, text)] else d
  {
    var before := AcceptedRecords(seen, q, url, text);
    DedupFirstProps(before);
    AcceptedRecordsSnoc(seen, m, q, url, text);
    if Accepted(m, q) {
      var x := MakeRecord(m, q, url, text);
      assert x.name == NormalizedName(m);
      assert AcceptedRecords(seen + [m], q, url, text) == before + [x];
      DedupFirstSnoc(before, x);
    } else {
      assert AcceptedRecords(seen + [m], q, url, text) == before;
    }
  }

  lemma FlattenSnoc(mss: seq<seq<Match>>, p: nat)
    requires p < |mss|
    ensures Flatten(mss[..p + 1]) == Flatten(mss[..p]) + mss[p]
  {
    assert mss[..p + 1][..p] == mss[..p];
  }

  /** The body of the source's inner loop for one match. */
  method ConsiderMatch(m: Match, q: SearchQuery, url: string, text: string,
                       ghost seen: seq<Match>, out: seq<Extracted>, found: set<string>)
    returns (out': seq<Extracted>, found': set<string>)
    requires out == DedupFirst(AcceptedRecords(seen, q, url, text)) && found == NameSet(out)
    ensures out' == DedupFirst(AcceptedRecords(seen + [m], q, url, text)) && found' == NameSet(out')
  {
    ExtractStep(seen, m, q, url, text);
    out', found' := out, found;
    if !ValidRawName(m) {
      return;
    }
    var name := NormalizePersonName(m.name.value);
    if name in found {
      return;
    }
    var year := m.year.GetOr(q.year);
    var diff := year - q.year;
    if diff > 1 || diff < -1 {
      return;
    }
    var rec := MakeRecord(m, q, url, text);
    NameSetSnoc(out, rec);
    out' := out + [rec];
    found' := found + {name};
  }

  lemma SnocSlice<T>(a: seq<T>, b: seq<T>, i: nat)
    requires i < |b|
    ensures a + b[..i + 1] == (a + b[..i]) + [b[i]]
  {
    assert b[..i + 1] == b[..i] + [b[i]];
  }

  /** The matches of one pattern, in order. */
  method ConsiderMatches(ms: seq<Match>, q: SearchQuery, url: string, text: string,
                         ghost seen: seq<Match>, out: seq<Extracted>, found: set<string>)
    returns (out': seq<Extracted>, found': set<string>)
    requires out == DedupFirst(AcceptedRecords(seen, q, url, text)) && found == NameSet(out)
    ensures out' == DedupFirst(AcceptedRecords(seen + ms, q, url, text)) && found' == NameSet(out')
  {
    out', found' := out, found;
    var i := 0;
    ghost var done := seen;
    assert seen + ms[..0] == seen;
    while i < |ms|
      invariant 0 <= i <= |ms|
      invariant done == seen + ms[..i]
      invariant out' == DedupFirst(AcceptedRecords(done, q, url, text))
      invariant found' == NameSet(out')
    {
      out', found' := ConsiderMatch(ms[i], q, url, text, done, out', found');
      SnocSlice(seen, ms, i);
      done := done + [ms[i]];
      i := i + 1;
    }
    assert ms[..i] == ms;
  }

  /** `extract_candidates` as the source writes it: patterns in order, matches
      in order, a set of names already found on this page. */
  method ExtractCandidates(page: Page, url: string, q: SearchQuery) returns (out: seq<Extracted>)
    ensures out == ExtractSpec(page, url, q)
  {
    if page.html == "" {
      return [];
    }
    if page.text == "" {
      return [];
    }
    var text := CollapseSpaces(page.text);
    out := [];
    var found: set<string> := {};
    var p := 0;
    while p < |page.matches|
      invariant 0 <= p <= |page.matches|
      invariant out == DedupFirst(AcceptedRecords(Flatten(page.matches[..p]), q, url, text))
      invariant found == NameSet(out)
    {
      out, found := ConsiderMatches(page.matches[p], q, url, text, Flatten(page.matches[..p]), out, found);
      FlattenSnoc(page.matches, p);
      p := p + 1;
    }
    assert page.matches[..p] == page.matches;
  }

  // ---------------------------------------------------------------------------
  // Aggregation across pages (scrape)
  // ---------------------------------------------------------------------------

  /** One search hit and what fetching it gave: `None` when the fetch failed. */
  datatype Fetched = Fetched(url: string, page: Option<Page>)

  /** Only the first 20 search hits are fetched. */
  const MaxUrls: nat := 20

  function Processed(fs: seq<Fetched>): seq<Fetched> {
    if |fs| <= MaxUrls then fs else fs[..MaxUrls]
  }

  /** A page that could not be fetched, or came back empty, is skipped. */
  function PageRecords(f: Fetched, q: SearchQuery): seq<Extracted> {
    if f.page.None? || f.page.value.html == "" then [] else ExtractSpec(f.page.value, f.url, q)
  }

  /** Every record of every page, page by page. */
  function AllRecords(fs: seq<Fetched>, q: SearchQuery): seq<Extracted> {
    if fs == [] then [] else AllRecords(fs[..|fs| - 1], q) + PageRecords(fs[|fs| - 1], q)
  }

  /** Source URLs of the records with name `n`, in order. */
  function UrlsOf(s: seq<Extracted>, n: string): seq<string> {
    if s == [] then []
    else UrlsOf(s[..|s| - 1], n) + (if s[|s| - 1].name == n then [s[|s| - 1].sourceUrl] else [])
  }

  /** Context snippets of the records with name `n`, in order. */
  function ContextsOf(s: seq<Extracted>, n: string): seq<string> {
    if s == [] then []
    else ContextsOf(s[..|s| - 1], n) + (if s[|s| - 1].name == n then [s[|s| - 1].context] else [])
  }

  /** The URLs of the pages (in order) whose records include name `n`. */
  function PagesWith(fs: seq<Fetched>, n: string, q: SearchQuery): seq<string> {
    if fs == [] then []
    else
      var f := fs[|fs| - 1];
      PagesWith(fs[..|fs| - 1], n, q) + (if n in NameSet(PageRecords(f, q)) then [f.url] else [])
  }

  /** Position of the first record named `n`. */
  function FirstIndex(s: seq<Extracted>, n: string): (i: nat)
    requires n in NameSet(s)
    ensures i < |s| && s[i].name == n
    ensures forall j :: 0 <= j < i ==> s[j].name != n
  {
    if s[0].name == n then 0
    else
      assert forall r :: r in s && r != s[0] ==> r in s[1..];
      1 + FirstIndex(s[1..], n)
  }

  /** The entry created when a name is first seen: the first record's fields,
      no score, no rank, and empty evidence lists. */
  function Shell(first: Extracted): Candidate {
    Candidate(first.name, first.regionName, first.organizationName, first.position, first.year,
              0.0, 0, [], [], "", false)
  }

  /** Append one record's URL and context to an entry. */
  function AddEvidence(c: Candidate, x: Extracted): Candidate {
    c.(evidenceSources := c.evidenceSources + [x.sourceUrl],
       contextSnippets := c.contextSnippets + [x.context])
  }

  function Summarize(first: Extracted, recs: seq<Extracted>): Candidate {
    Shell(first).(evidenceSources := UrlsOf(recs, first.name),
                  contextSnippets := ContextsOf(recs, first.name))
  }

  /** One entry per name in first-seen order, built from that name's first
      record, carrying all of the name's URLs and contexts. */
  function Aggregate(recs: seq<Extracted>): seq<Candidate> {
    var d := DedupFirst(recs);
    seq(|d|, i requires 0 <= i < |d| => Summarize(d[i], recs))
  }

  /** Reference meaning of `scrape` over the fetched search hits. */
  function ScrapeSpec(fs: seq<Fetched>, q: SearchQuery): seq<Candidate> {
    Aggregate(AllRecords(Processed(fs), q))
  }

  lemma UrlsOfSnoc(s: seq<Extracted>, x: Extracted, n: string)
    ensures UrlsOf(s + [x], n) == UrlsOf(s, n) + (if x.name == n then [x.sourceUrl] else [])
    ensures ContextsOf(s + [x], n) == ContextsOf(s, n) + (if x.name == n then [x.context] else [])
  {
    assert (s + [x])[..|s|] == s;
  }

  lemma {:induction false} UrlsOfAppend(a: seq<Extracted>, b: seq<Extracted>, n: string)
    ensures UrlsOf(a + b, n) == UrlsOf(a, n) + UrlsOf(b, n)
    decreases |b|
  {
    if b != [] {
      var init := b[..|b| - 1];
      var x := b[|b| - 1];
      assert b == init + [x];
      assert a + b == (a + init) + [x];
      UrlsOfAppend(a, init, n);
      UrlsOfSnoc(a + init, x, n);
      UrlsOfSnoc(init, x, n);
    } else {
      assert a + b == a;
    }
  }

  lemma {:induction false} UrlsContextsSameLength(s: seq<Extracted>, n: string)
    ensures |UrlsOf(s, n)| == |ContextsOf(s, n)|
    ensures |UrlsOf(s, n)| > 0 <==> n in NameSet(s)
  {
    if s != [] {
      var init := s[..|s| - 1];
      assert s == init + [s[|s| - 1]];
      UrlsContextsSameLength(init, n);
      NameSetSnoc(init, s[|s| - 1]);
    }
  }

  /** Within one page names are distinct and share one URL, so the page
      contributes its URL once or not at all. */
  lemma {:induction false} UrlsOfOnePage(s: seq<Extracted>, n: string, u: string)
    requires NamesDistinct(s)
    requires forall r :: r in s ==> r.sourceUrl == u
    ensures UrlsOf(s, n) == if n in NameSet(s) then [u] else []
  {
    if s != [] {
      var init := s[..|s| - 1];
      var x := s[|s| - 1];
      forall r | r in init ensures r.sourceUrl == u {
        var j :| 0 <= j < |init| && init[j] == r;
        assert s[j] == r;
      }
      UrlsOfOnePage(init, n, u);
      NameSetLast(s);
      if n in NameSet(init) {
        var r :| r in init && r.name == n;
        var j :| 0 <= j < |init| && init[j] == r;
        assert s[j].name != s[|s| - 1].name;
      }
    }
  }

  lemma PageRecordsShape(f: Fetched, q: SearchQuery)
    ensures NamesDistinct(PageRecords(f, q))
    ensures forall r :: r in PageRecords(f, q) ==> r.sourceUrl == f.url
  {
    if f.page.Some? && f.page.value.html != "" && f.page.value.text != "" {
      ExtractProperties(f.page.value, f.url, q);
    }
  }

  /** A name's URLs across pages are the URLs of the pages that yielded it. */
  lemma {:induction false} UrlsOfAllRecords(fs: seq<Fetched>, n: string, q: SearchQuery)
    ensures UrlsOf(AllRecords(fs, q), n) == PagesWith(fs, n, q)
  {
    if fs != [] {
      var init := fs[..|fs| - 1];
      var f := fs[|fs| - 1];
      UrlsOfAllRecords(init, n, q);
      UrlsOfAppend(AllRecords(init, q), PageRecords(f, q), n);
      PageRecordsShape(f, q);
      UrlsOfOnePage(PageRecords(f, q), n, f.url);
    }
  }

  lemma FirstIndexUnique(s: seq<Extracted>, n: string, i: nat)
    requires i < |s| && s[i].name == n
    requires forall j :: 0 <= j < i ==> s[j].name != n
    ensures n in NameSet(s) && FirstIndex(s, n) == i
  {
    assert s[i] in s;
  }

  /** Each kept record is the first record of its name. */
  lemma {:induction false} DedupFirstIsFirst(s: seq<Extracted>, x: Extracted)
    requires x in DedupFirst(s)
    ensures x.name in NameSet(s) && x == s[FirstIndex(s, x.name)]
  {
    var init := s[..|s| - 1];
    var y := s[|s| - 1];
    NameSetLast(s);
    if x in DedupFirst(init) {
      DedupFirstIsFirst(init, x);
      var i := FirstIndex(init, x.name);
      assert s[i] == init[i];
      forall j | 0 <= j < i ensures s[j].name != x.name {
        assert s[j] == init[j];
      }
      FirstIndexUnique(s, x.name, i);
    } else {
      assert x == y && y.name !in NameSet(init);
      forall j | 0 <= j < |s| - 1 ensures s[j].name != x.name {
        assert s[j] == init[j] && init[j] in init;
      }
      FirstIndexUnique(s, x.name, |s| - 1);
    }
  }

  /** A record whose name is new appends a fresh entry carrying its evidence. */
  lemma AggregateSnocNew(recs: seq<Extracted>, x: Extracted)
    requires x.name !in NameSet(recs)
    ensures Aggregate(recs + [x]) == Aggregate(recs) + [AddEvidence(Shell(x), x)]
  {
    var d := DedupFirst(recs);
    DedupFirstSnoc(recs, x);
    DedupFirstProps(recs);
    var a := Aggregate(recs + [x]);
    var b := Aggregate(recs) + [AddEvidence(Shell(x), x)];
    assert |a| == |b|;
    forall i | 0 <= i < |a| ensures a[i] == b[i] {
      if i < |d| {
        assert d[i] in d;
        UrlsOfSnoc(recs, x, d[i].name);
      } else {
        UrlsOfSnoc(recs, x, x.name);
        UrlsContextsSameLength(recs, x.name);
      }
    }
  }

  /** A record whose name is already present adds its evidence to that
      name's entry and leaves every other entry alone. */
  lemma AggregateSnocOld(recs: seq<Extracted>, x: Extracted, k: nat)
    requires k < |Aggregate(recs)| && Aggregate(recs)[k].name == x.name
    ensures x.name in NameSet(recs)
    ensures Aggregate(recs + [x]) == Aggregate(recs)[k := AddEvidence(Aggregate(recs)[k], x)]
  {
    var d := DedupFirst(recs);
    DedupFirstProps(recs);
    assert d[k] in d;
    DedupFirstSnoc(recs, x);
    var a := Aggregate(recs + [x]);
    var b := Aggregate(recs)[k := AddEvidence(Aggregate(recs)[k], x)];
    forall i | 0 <= i < |a| ensures a[i] == b[i] {
      UrlsOfSnoc(recs, x, d[i].name);
    }
  }

  /** Which entry holds which name; the source keeps this as its dict. */
  predicate IndexOk(cands: seq<Candidate>, index: map<string, nat>) {
    && (forall n :: n in index ==> index[n] < |cands| && cands[index[n]].name == n)
    && (forall i :: 0 <= i < |cands| ==> cands[i].name in index)
  }

  lemma IndexOkAppend(cands: seq<Candidate>, index: map<string, nat>, c: Candidate)
    requires IndexOk(cands, index) && c.name !in index
    ensures IndexOk(cands + [c], index[c.name := |cands|])
  {
  }

  lemma IndexOkUpdate(cands: seq<Candidate>, index: map<string, nat>, k: nat, c: Candidate)
    requires IndexOk(cands, index) && k < |cands| && c.name == cands[k].name
    ensures IndexOk(cands[k := c], index)
  {
  }

  /** One record of the aggregation loop: create the entry if the name is
      new, then append the URL and the context. */
  method AddRecord(cands: seq<Candidate>, index: map<string, nat>, ghost done: seq<Extracted>, x: Extracted)
    returns (cands': seq<Candidate>, index': map<string, nat>)
    requires cands == Aggregate(done) && IndexOk(cands, index)
    ensures cands' == Aggregate(done + [x]) && IndexOk(cands', index')
  {
    DedupFirstProps(done);
    cands', index' := cands, index;
    if x.name !in index' {
      forall r | r in DedupFirst(done) ensures r.name != x.name {
        var i :| 0 <= i < |cands| && DedupFirst(done)[i] == r;
        assert cands[i].name == r.name;
      }
      AggregateSnocNew(done, x);
      IndexOkAppend(cands', index', Shell(x));
      index' := index'[x.name := |cands'|];
      cands' := cands' + [Shell(x)];
    } else {
      AggregateSnocOld(done, x, index[x.name]);
    }
    var k := index'[x.name];
    IndexOkUpdate(cands', index', k, AddEvidence(cands'[k], x));
    cands' := cands'[k := AddEvidence(cands'[k], x)];
  }

  /** The records of one page, in order. */
  method AddRecords(cands: seq<Candidate>, index: map<string, nat>, ghost done: seq<Extracted>, recs: seq<Extracted>)
    returns (cands': seq<Candidate>, index': map<string, nat>)
    requires cands == Aggregate(done) && IndexOk(cands, index)
    ensures cands' == Aggregate(done + recs) && IndexOk(cands', index')
  {
    cands', index' := cands, index;
    var j := 0;
    assert done + recs[..0] == done;
    while j < |recs|
      invariant 0 <= j <= |recs|
      invariant cands' == Aggregate(done + recs[..j]) && IndexOk(cands', index')
    {
      cands', index' := AddRecord(cands', index', done + recs[..j], recs[j]);
      assert done + recs[..j + 1] == done + recs[..j] + [recs[j]];
      j := j + 1;
    }
    assert recs[..j] == recs;
  }

  /** `scrape` over the search hits and their fetched pages: the first 20
      hits are processed in order, skipped when the fetch gave nothing, and
      each page's records are folded into one entry per name. */
  method Scrape(fetched: seq<Fetched>, q: SearchQuery) returns (cands: seq<Candidate>)
    ensures cands == ScrapeSpec(fetched, q)
  {
    var fs := Processed(fetched);
    cands := [];
    var index: map<string, nat> := map[];
    var i := 0;
    while i < |fs|
      invariant 0 <= i <= |fs|
      invariant cands == Aggregate(AllRecords(fs[..i], q)) && IndexOk(cands, index)
    {
      var f := fs[i];
      ghost var done := AllRecords(fs[..i], q);
      AllRecordsStep(fs, i, q);
      if f.page.Some? && f.page.value.html != "" {
        var recs := ExtractCandidates(f.page.value, f.url, q);
        assert recs == PageRecords(f, q);
        cands, index := AddRecords(cands, index, done, recs);
      } else {
        assert done + PageRecords(f, q) == done;
      }
      i := i + 1;
    }
    assert fs[..i] == fs;
  }

  lemma AllRecordsStep(fs: seq<Fetched>, i: nat, q: SearchQuery)
    requires i < |fs|
    ensures AllRecords(fs[..i + 1], q) == AllRecords(fs[..i], q) + PageRecords(fs[i], q)
  {
    assert fs[..i + 1][..i] == fs[..i];
  }

  /** One entry per distinct extracted name: the entries' names are pairwise
      distinct and are exactly the names found on the processed pages. */
  lemma ScrapeNames(fs: seq<Fetched>, q: SearchQuery)
    ensures forall i, j :: 0 <= i < j < |ScrapeSpec(fs, q)| ==> ScrapeSpec(fs, q)[i].name != ScrapeSpec(fs, q)[j].name
    ensures forall n ::
      (exists i :: 0 <= i < |ScrapeSpec(fs, q)| && ScrapeSpec(fs, q)[i].name == n)
      <==> n in NameSet(AllRecords(Processed(fs), q))
  {
    var recs := AllRecords(Processed(fs), q);
    var d := DedupFirst(recs);
    DedupFirstProps(recs);
    forall n | n in NameSet(recs)
      ensures exists i :: 0 <= i < |ScrapeSpec(fs, q)| && ScrapeSpec(fs, q)[i].name == n
    {
      var r :| r in d && r.name == n;
      var i :| 0 <= i < |d| && d[i] == r;
      assert ScrapeSpec(fs, q)[i].name == n;
    }
    forall i | 0 <= i < |ScrapeSpec(fs, q)|
      ensures ScrapeSpec(fs, q)[i].name in NameSet(recs)
    {
      assert d[i] in d;
    }
  }

  /** What one entry holds: the fields of the name's first record, no score
      or rank yet, and one URL per processed page that yielded the name, in
      page order, with a context snippet alongside each. */
  lemma ScrapeEntry(fs: seq<Fetched>, q: SearchQuery, i: nat)
    requires i < |ScrapeSpec(fs, q)|
    ensures var c := ScrapeSpec(fs, q)[i];
      var recs := AllRecords(Processed(fs), q);
      && c.name in NameSet(recs)
      && var first := recs[FirstIndex(recs, c.name)];
      && c.regionName == first.regionName && c.organizationName == first.organizationName
      && c.position == first.position && c.year == first.year
      && c.confidenceScore == 0.0 && c.rank == 0 && c.fullTitle == "" && !c.verified
      && c.evidenceSources == PagesWith(Processed(fs), c.name, q)
      && |c.contextSnippets| == |c.evidenceSources| > 0
  {
    var recs := AllRecords(Processed(fs), q);
    var d := DedupFirst(recs);
    assert d[i] in d;
    DedupFirstIsFirst(recs, d[i]);
    UrlsOfAllRecords(Processed(fs), d[i].name, q);
    UrlsContextsSameLength(recs, d[i].name);
  }

  /** Hits after the twentieth are never looked at. */
  lemma ScrapeIgnoresTail(fs: seq<Fetched>, extra: seq<Fetched>, q: SearchQuery)
    requires |fs| >= MaxUrls
    ensures ScrapeSpec(fs + extra, q) == ScrapeSpec(fs, q)
  {
    assert (fs + extra)[..MaxUrls] == fs[..MaxUrls];
    if |fs| == MaxUrls {
      assert fs[..MaxUrls] == fs;
    }
    assert Processed(fs + extra) == Processed(fs);
  }
}
