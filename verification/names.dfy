/** Person-name normalisation and the domain heuristics of the candidate
    pipeline (jcmars/backend/utils.py). */
module Names {
  import opened Text

  /** The legacy-variant table, in the order the source's dict lists it:
      each archaic kanji on the left is folded to the modern form on the right. */
  const VariantTable: seq<(char, char)> := [
    ('齋', '斉'), ('齊', '斉'),
    ('邊', '辺'), ('邉', '辺'),
    ('髙', '高'),
    ('濵', '浜'), ('濱', '浜'),
    ('澤', '沢'), ('澁', '渋'),
    ('瀨', '瀬'), ('繩', '縄'),
    ('廣', '広'), ('櫻', '桜'),
    ('眞', '真'), ('萬', '万')
  ]

  predicate IsVariantKey(c: char, t: seq<(char, char)>) {
    exists k :: 0 <= k < |t| && t[k].0 == c
  }

  /** No replacement character is itself replaced by a later (or earlier) entry. */
  predicate NoValueIsKey(t: seq<(char, char)>) {
    forall i, j :: 0 <= i < |t| && 0 <= j < |t| ==> t[i].1 != t[j].0
  }

  lemma VariantTableWellFormed()
    ensures NoValueIsKey(VariantTable)
    ensures forall k :: 0 <= k < |VariantTable| ==> !IsPySpace(VariantTable[k].1)
  {
    var keys := {'齋', '齊', '邊', '邉', '髙', '濵', '濱', '澤', '澁', '瀨', '繩', '廣', '櫻', '眞', '萬'};
    var values := {'斉', '辺', '高', '浜', '沢', '渋', '瀬', '縄', '広', '桜', '真', '万'};
    assert forall k :: 0 <= k < |VariantTable| ==> VariantTable[k].0 in keys && VariantTable[k].1 in values;
    assert forall c :: c in values ==> c !in keys && !IsPySpace(c);
  }

  /** Python's `s.replace(old, new)` for single characters. */
  function ReplaceChar(s: string, from: char, to: char): (r: string)
    ensures |r| == |s|
    ensures forall i :: 0 <= i < |s| ==> r[i] == (if s[i] == from then to else s[i])
  {
    seq(|s|, i requires 0 <= i < |s| => if s[i] == from then to else s[i])
  }

  /** The source's loop: apply every `replace` of the table, in table order. */
  function ApplyTable(s: string, t: seq<(char, char)>): string
    decreases |t|
  {
    if t == [] then s else ApplyTable(ReplaceChar(s, t[0].0, t[0].1), t[1..])
  }

  /** The same loop, followed by one character. */
  function ApplyTableChar(c: char, t: seq<(char, char)>): char
    decreases |t|
  {
    if t == [] then c else ApplyTableChar(if c == t[0].0 then t[0].1 else c, t[1..])
  }

  /** Reference folding: the table entry for `c` if there is one, else `c`. */
  function Fold(c: char, t: seq<(char, char)>): (r: char)
    ensures IsVariantKey(c, t) ==> exists k :: 0 <= k < |t| && t[k].0 == c && r == t[k].1
    ensures !IsVariantKey(c, t) ==> r == c
    decreases |t|
  {
    if t == [] then c else if t[0].0 == c then t[0].1 else Fold(c, t[1..])
  }

  lemma {:induction false} ApplyTableCharwise(s: string, t: seq<(char, char)>)
    ensures |ApplyTable(s, t)| == |s|
    ensures forall i :: 0 <= i < |s| ==> ApplyTable(s, t)[i] == ApplyTableChar(s[i], t)
    decreases |t|
  {
    if t != [] {
      ApplyTableCharwise(ReplaceChar(s, t[0].0, t[0].1), t[1..]);
    }
  }

  lemma {:induction false} ApplyTableCharFixed(c: char, t: seq<(char, char)>)
    requires !IsVariantKey(c, t)
    ensures ApplyTableChar(c, t) == c
    decreases |t|
  {
    if t != [] {
      assert t[0].0 != c;
      forall k | 0 <= k < |t[1..]| ensures t[1..][k].0 != c {
        assert t[1..][k] == t[k + 1];
      }
      ApplyTableCharFixed(c, t[1..]);
    }
  }

  /** Because no replacement is itself a key, replacing one table entry after
      another is the same as looking each character up once. */
  lemma {:induction false} ApplyTableCharIsFold(c: char, t: seq<(char, char)>)
    requires NoValueIsKey(t)
    ensures ApplyTableChar(c, t) == Fold(c, t)
    decreases |t|
  {
    if t != [] {
      var rest := t[1..];
      assert NoValueIsKey(rest) by {
        forall i, j | 0 <= i < |rest| && 0 <= j < |rest| ensures rest[i].1 != rest[j].0 {
          assert rest[i].1 == t[i + 1].1 && rest[j].0 == t[j + 1].0;
        }
      }
      if c == t[0].0 {
        forall k | 0 <= k < |rest| ensures rest[k].0 != t[0].1 {
          assert rest[k] == t[k + 1];
        }
        ApplyTableCharFixed(t[0].1, rest);
      } else {
        ApplyTableCharIsFold(c, rest);
      }
    }
  }

  /** `normalize_person_name`: strip all whitespace, then apply each
      `replace` of the variant table in turn. */
  function NormalizePersonName(name: string): string {
    ApplyTable(RemoveSpaces(name), VariantTable)
  }

  /** The result is the space-free name with each character looked up once
      in the table. */
  lemma NormalizeCharwise(name: string)
    ensures |NormalizePersonName(name)| == |RemoveSpaces(name)|
    ensures forall i :: 0 <= i < |NormalizePersonName(name)| ==>
      NormalizePersonName(name)[i] == Fold(RemoveSpaces(name)[i], VariantTable)
  {
    var s := RemoveSpaces(name);
    ApplyTableCharwise(s, VariantTable);
    VariantTableWellFormed();
    forall i | 0 <= i < |s| ensures ApplyTableChar(s[i], VariantTable) == Fold(s[i], VariantTable) {
      ApplyTableCharIsFold(s[i], VariantTable);
    }
  }

  lemma FoldNeverSpaceNorKey(c: char)
    requires !IsPySpace(c)
    ensures !IsPySpace(Fold(c, VariantTable))
    ensures !IsVariantKey(Fold(c, VariantTable), VariantTable)
  {
    VariantTableWellFormed();
  }

  /** The normalised name contains no whitespace and no legacy variant. */
  lemma NormalizedIsClean(name: string)
    ensures NoSpaces(NormalizePersonName(name))
    ensures forall i, k ::
              0 <= i < |NormalizePersonName(name)| && 0 <= k < |VariantTable| ==>
              NormalizePersonName(name)[i] != VariantTable[k].0
  {
    var s := RemoveSpaces(name);
    var r := NormalizePersonName(name);
    NormalizeCharwise(name);
    forall i | 0 <= i < |r|
      ensures !IsPySpace(r[i]) && !IsVariantKey(r[i], VariantTable)
    {
      FoldNeverSpaceNorKey(s[i]);
    }
  }

  /** Normalisation is idempotent. */
  lemma NormalizeIdempotent(name: string)
    ensures NormalizePersonName(NormalizePersonName(name)) == NormalizePersonName(name)
  {
    var r := NormalizePersonName(name);
    NormalizedIsClean(name);
    NormalizeCharwise(name);
    assert RemoveSpaces(r) == r;
    var rr := NormalizePersonName(r);
    NormalizeCharwise(r);
    forall i | 0 <= i < |r| ensures rr[i] == r[i] {
      assert !IsVariantKey(r[i], VariantTable);
    }
  }

  /** Every substitution is one character for one, so the normalised name is
      exactly as long as the number of non-whitespace characters. */
  lemma NormalizePreservesLength(name: string)
    ensures |NormalizePersonName(name)| == CountNonSpace(name)
  {
    RemoveSpacesCount(name);
    NormalizeCharwise(name);
  }

  /** Two names normalise alike exactly when, once whitespace is dropped,
      they agree character by character up to the variant table. */
  lemma NormalizeEqualIff(a: string, b: string)
    ensures NormalizePersonName(a) == NormalizePersonName(b)
        <==> (&& |RemoveSpaces(a)| == |RemoveSpaces(b)|
              && forall i :: 0 <= i < |RemoveSpaces(a)| ==>
                   Fold(RemoveSpaces(a)[i], VariantTable) == Fold(RemoveSpaces(b)[i], VariantTable))
  {
    var ra, rb := NormalizePersonName(a), NormalizePersonName(b);
    NormalizeCharwise(a);
    NormalizeCharwise(b);
    if NormalizePersonName(a) == NormalizePersonName(b) {
      forall i | 0 <= i < |RemoveSpaces(a)|
        ensures Fold(RemoveSpaces(a)[i], VariantTable) == Fold(RemoveSpaces(b)[i], VariantTable)
      {
        assert ra[i] == rb[i];
      }
    }
  }

  /** `.(org|com|jp)` starting at index `j`. */
  predicate DotTldAt(s: string, j: int)
    requires 0 <= j <= |s|
  {
    StartsWith(s[j..], ".org") || StartsWith(s[j..], ".com") || StartsWith(s[j..], ".jp")
  }

  /** No line break before index `j` (`.` in a Python regex does not match `\n`). */
  predicate LineFreeBefore(s: string, j: int)
    requires 0 <= j <= |s|
  {
    forall k :: 0 <= k < j ==> s[k] != '\n'
  }

  /** The regex tail `.*\.(org|com|jp)` matches at the start of `s`. */
  function ReachesTld(s: string): bool
  {
    if DotTldAt(s, 0) then true
    else if s == [] || s[0] == '\n' then false
    else ReachesTld(s[1..])
  }

  lemma {:induction false} ReachesTldIff(s: string)
    ensures ReachesTld(s) <==> exists j :: 0 <= j <= |s| && LineFreeBefore(s, j) && DotTldAt(s, j)
  {
    if DotTldAt(s, 0) {
      assert LineFreeBefore(s, 0);
    } else if s == [] || s[0] == '\n' {
      assert forall j :: 0 < j <= |s| ==> !LineFreeBefore(s, j);
    } else {
      ReachesTldIff(s[1..]);
      if ReachesTld(s[1..]) {
        var j :| 0 <= j <= |s[1..]| && LineFreeBefore(s[1..], j) && DotTldAt(s[1..], j);
        assert s[j + 1..] == s[1..][j..];
        assert LineFreeBefore(s, j + 1) && DotTldAt(s, j + 1);
      } else {
        forall j | 0 < j <= |s| && LineFreeBefore(s, j) ensures !DotTldAt(s, j) {
          assert s[j..] == s[1..][j - 1..];
          assert LineFreeBefore(s[1..], j - 1);
        }
      }
    }
  }

  /** The regex `jci.*\.(org|com|jp)` matches somewhere in `s`. */
  function JciThenTld(s: string): bool
  {
    if StartsWith(s, "jci") && ReachesTld(s[3..]) then true
    else if s == [] then false
    else JciThenTld(s[1..])
  }

  lemma JciShift(s: string, i: int)
    requires 0 < i <= |s|
    ensures OccursAt(s, "jci", i) <==> OccursAt(s[1..], "jci", i - 1)
    ensures OccursAt(s, "jci", i) ==> s[i + 3..] == s[1..][i + 2..]
  {
    if i + 3 <= |s| {
      assert s[i..i + 3] == s[1..][i - 1..i + 2];
    }
  }

  lemma {:induction false} JciThenTldIff(s: string)
    ensures JciThenTld(s) <==> exists i :: OccursAt(s, "jci", i) && ReachesTld(s[i + 3..])
  {
    if StartsWith(s, "jci") && ReachesTld(s[3..]) {
      assert OccursAt(s, "jci", 0);
    } else if s == [] {
    } else {
      JciThenTldIff(s[1..]);
      if JciThenTld(s[1..]) {
        var i :| OccursAt(s[1..], "jci", i) && ReachesTld(s[1..][i + 3..]);
        JciShift(s, i + 1);
        assert OccursAt(s, "jci", i + 1) && ReachesTld(s[i + 4..]);
      } else {
        forall i | OccursAt(s, "jci", i) ensures !ReachesTld(s[i + 3..]) {
          if i > 0 {
            JciShift(s, i);
          }
        }
      }
    }
  }

  /** The six official-site patterns of `is_jc_official_site`, applied to an
      already lower-cased URL. */
  predicate OfficialPatternHit(u: string) {
    || Contains(u, "jc.or.jp")
    || Contains(u, "-jc.org") || Contains(u, "-jc.com") || Contains(u, "-jc.jp") || Contains(u, "-jc.net")
    || (StartsWith(u, "jc-") && ReachesTld(u[3..]))
    || JciThenTld(u)
    || Contains(u, "jaycee") || Contains(u, "junior.chamber")
    || Contains(u, "青年会議所")
  }

  /** `is_jc_official_site`: any pattern matches the lower-cased URL. */
  function IsJcOfficialSite(url: string): (b: bool)
    ensures b <==> OfficialPatternHit(Lower(url))
  {
    OfficialPatternHit(Lower(url))
  }

  /** The predicate ignores letter case, and the four plain-substring
      patterns are enough on their own, in any case. */
  lemma {:induction false} OfficialSiteCaseInsensitive(url: string)
    ensures IsJcOfficialSite(url) == IsJcOfficialSite(Lower(url))
    ensures Contains(Lower(url), "jc.or.jp") || Contains(Lower(url), "jaycee")
         || Contains(Lower(url), "junior.chamber") || Contains(Lower(url), "青年会議所")
         ==> IsJcOfficialSite(url)
  {
    LowerIdempotent(url);
  }

  lemma {:induction false} OfficialSiteByName(url: string)
    requires Contains(url, "jc.or.jp") || Contains(url, "jaycee")
          || Contains(url, "junior.chamber") || Contains(url, "青年会議所")
    ensures IsJcOfficialSite(url)
  {
    if Contains(url, "jc.or.jp") { ContainsLower(url, "jc.or.jp"); }
    else if Contains(url, "jaycee") { ContainsLower(url, "jaycee"); }
    else if Contains(url, "junior.chamber") { ContainsLower(url, "junior.chamber"); }
    else { ContainsLower(url, "青年会議所"); }
  }

  datatype OrgLevel = National | District | Block | Lom

  /** `detect_organization_level`: the first of national, district, block
      whose marker occurs in the region name, else a local chapter. */
  function DetectOrganizationLevel(regionName: string): (r: OrgLevel)
    ensures r == National <==> Contains(regionName, "日本青年会議所")
    ensures r == District <==> !Contains(regionName, "日本青年会議所") && Contains(regionName, "地区協議会")
    ensures r == Block <==> !Contains(regionName, "日本青年会議所") && !Contains(regionName, "地区協議会")
                            && Contains(regionName, "ブロック")
    ensures r == Lom <==> !Contains(regionName, "日本青年会議所") && !Contains(regionName, "地区協議会")
                          && !Contains(regionName, "ブロック")
  {
    if Contains(regionName, "日本青年会議所") then National
    else if Contains(regionName, "地区協議会") then District
    else if Contains(regionName, "ブロック") then Block
    else Lom
  }
}
