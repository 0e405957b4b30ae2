/** Tweet length control of the auto-poster's content generator
    (aix/x-auto-poster/src/contentGenerator.js). Strings are JavaScript
    strings: sequences of UTF-16 code units, and `length` counts code units.
    The language-model completion is an input. */
module Tweets {
  import opened Wrappers

  newtype CodeUnit = x: int | 0 <= x < 0x1_0000

  type JsString = seq<CodeUnit>

  const Newline: CodeUnit := 0x0A
  const Ellipsis: JsString := [0x2E, 0x2E, 0x2E]

  /** Default limit when the configuration gives none. */
  const DefaultMaxLength: int := 280

  /** `config.maxTweetLength || 280`: a missing or zero limit means 280. */
  function EffectiveMaxLength(configured: Option<int>): (m: int)
    ensures configured.Some? && configured.value != 0 ==> m == configured.value
    ensures configured.None? || configured.value == 0 ==> m == DefaultMaxLength
  {
    if configured.None? || configured.value == 0 then DefaultMaxLength else configured.value
  }

  // ---------------------------------------------------------------------------
  // trim and split
  // ---------------------------------------------------------------------------

  /** ECMAScript WhiteSpace and LineTerminator code units, which `trim` removes. */
  predicate IsJsSpace(c: CodeUnit) {
    c == 0x09 || c == 0x0A || c == 0x0B || c == 0x0C || c == 0x0D || c == 0x20 || c == 0xA0
    || c == 0x1680 || (0x2000 <= c <= 0x200A) || c == 0x2028 || c == 0x2029
    || c == 0x202F || c == 0x205F || c == 0x3000 || c == 0xFEFF
  }

  predicate Blank(s: JsString) {
    forall i :: 0 <= i < |s| ==> IsJsSpace(s[i])
  }

  /** Number of white-space code units at the front of `s`. */
  function LeadingSpaces(s: JsString): (k: nat)
    ensures k <= |s|
    ensures Blank(s[..k])
    ensures k < |s| ==> !IsJsSpace(s[k])
  {
    if s == [] || !IsJsSpace(s[0]) then 0
    else
      var k := 1 + LeadingSpaces(s[1..]);
      assert s[..k] == [s[0]] + s[1..][..k - 1];
      k
  }

  /** Length of `s` without its white-space tail. */
  function TrailingStart(s: JsString): (e: nat)
    ensures e <= |s|
    ensures Blank(s[e..])
    ensures e > 0 ==> !IsJsSpace(s[e - 1])
  {
    if s == [] || !IsJsSpace(s[|s| - 1]) then |s|
    else
      var e := TrailingStart(s[..|s| - 1]);
      assert s[e..] == s[..|s| - 1][e..] + [s[|s| - 1]];
      e
  }

  /** `String.prototype.trim`. */
  function Trim(s: JsString): (r: JsString)
    ensures |r| <= |s|
    ensures r != [] ==> !IsJsSpace(r[0]) && !IsJsSpace(r[|r| - 1])
    ensures r == [] <==> Blank(s)
    ensures exists k, e :: 0 <= k <= e <= |s| && r == s[k..e] && Blank(s[..k]) && Blank(s[e..])
  {
    var k := LeadingSpaces(s);
    var t := s[k..];
    var e := TrailingStart(t);
    TrimSlice(s, k, e);
    t[..e]
  }

  /** How the two scans cut `s`: the kept part is a slice of `s`, and it is
      empty exactly when `s` is all white space. */
  lemma TrimSlice(s: JsString, k: nat, e: nat)
    requires k == LeadingSpaces(s) && e == TrailingStart(s[k..])
    ensures k + e <= |s|
    ensures s[k..][..e] == s[k..k + e] && s[k..][e..] == s[k + e..]
    ensures e == 0 <==> Blank(s)
  {
    var t := s[k..];
    SliceOfSuffix(s, k, e);
    if e == 0 {
      assert t[e..] == t;
      BlankJoin(s, k);
    }
  }

  lemma SliceOfSuffix<T>(s: seq<T>, k: nat, e: nat)
    requires k + e <= |s|
    ensures s[k..][..e] == s[k..k + e] && s[k..][e..] == s[k + e..]
  {
  }

  /** The trimmed text is the only slice with blank margins whose ends
      are not white space (or that is empty). */
  lemma TrimUnique(s: JsString, k: nat, e: nat)
    requires k <= e <= |s| && Blank(s[..k]) && Blank(s[e..])
    requires k < e ==> !IsJsSpace(s[k]) && !IsJsSpace(s[e - 1])
    ensures Trim(s) == s[k..e]
  {
    if k == e {
      BlankJoin(s, k);
    } else {
      LeadingSpacesAt(s, k);
      TrailingAfterLeading(s, k, e);
    }
  }

  lemma BlankJoin(s: JsString, k: nat)
    requires k <= |s| && Blank(s[..k]) && Blank(s[k..])
    ensures Blank(s)
  {
    forall i | 0 <= i < |s| ensures IsJsSpace(s[i]) {
      if i < k { assert s[..k][i] == s[i]; } else { assert s[k..][i - k] == s[i]; }
    }
  }

  lemma TrailingAfterLeading(s: JsString, k: nat, e: nat)
    requires k < e <= |s| && Blank(s[e..]) && !IsJsSpace(s[e - 1])
    ensures s[k..][..TrailingStart(s[k..])] == s[k..e]
  {
    var t := s[k..];
    assert t[e - k..] == s[e..] && t[e - k - 1] == s[e - 1];
    TrailingStartAt(t, e - k);
  }

  /** A blank prefix followed by a non-space is the leading white space. */
  lemma {:induction false} LeadingSpacesAt(s: JsString, k: nat)
    requires k <= |s| && Blank(s[..k])
    requires k < |s| ==> !IsJsSpace(s[k])
    ensures LeadingSpaces(s) == k
  {
    if k > 0 {
      assert s[..k][0] == s[0];
      var u := s[1..];
      assert u[..k - 1] == s[..k][1..];
      assert k - 1 < |u| ==> u[k - 1] == s[k];
      LeadingSpacesAt(u, k - 1);
    }
  }

  /** A blank suffix preceded by a non-space is the trailing white space. */
  lemma {:induction false} TrailingStartAt(s: JsString, e: nat)
    requires e <= |s| && Blank(s[e..])
    requires e > 0 ==> !IsJsSpace(s[e - 1])
    ensures TrailingStart(s) == e
  {
    if e < |s| {
      assert s[e..][|s| - 1 - e] == s[|s| - 1];
      var p := s[..|s| - 1];
      assert p[e..] == s[e..][..|s| - 1 - e];
      assert e > 0 ==> p[e - 1] == s[e - 1];
      TrailingStartAt(p, e);
    }
  }

  /** Trimming twice is trimming once. */
  lemma TrimIdempotent(s: JsString)
    ensures Trim(Trim(s)) == Trim(s)
  {
    var r := Trim(s);
    assert r[..0] == [] && r[|r|..] == [] && r[0..|r|] == r;
    TrimUnique(r, 0, |r|);
  }

  /** `s.split('\n')`: the pieces between newlines, possibly empty. */
  function SplitLines(s: JsString): (parts: seq<JsString>)
    ensures |parts| >= 1
    ensures forall p :: p in parts ==> Newline !in p
  {
    if s == [] then [[]]
    else
      var init := SplitLines(s[..|s| - 1]);
      var c := s[|s| - 1];
      if c == Newline then init + [[]]
      else init[..|init| - 1] + [init[|init| - 1] + [c]]
  }

  function JoinLines(parts: seq<JsString>): JsString
    requires |parts| >= 1
  {
    if |parts| == 1 then parts[0] else JoinLines(parts[..|parts| - 1]) + [Newline] + parts[|parts| - 1]
  }

  /** Splitting on newlines loses nothing: joining the pieces back with
      newlines gives the original text. */
  lemma {:induction false} SplitJoin(s: JsString)
    ensures JoinLines(SplitLines(s)) == s
  {
    if s != [] {
      var init := s[..|s| - 1];
      var ps := SplitLines(init);
      var c := s[|s| - 1];
      SplitJoin(init);
      assert s == init + [c];
      if c == Newline {
        assert SplitLines(s) == ps + [[]];
        JoinLinesSnoc(ps, []);
      } else {
        assert SplitLines(s) == ps[..|ps| - 1] + [ps[|ps| - 1] + [c]];
        JoinLastGrows(ps, c);
      }
    }
  }

  lemma JoinLinesSnoc(ps: seq<JsString>, p: JsString)
    requires |ps| >= 1
    ensures JoinLines(ps + [p]) == JoinLines(ps) + [Newline] + p
  {
    assert (ps + [p])[..|ps|] == ps;
  }

  lemma JoinLastGrows(ps: seq<JsString>, c: CodeUnit)
    requires |ps| >= 1
    ensures JoinLines(ps[..|ps| - 1] + [ps[|ps| - 1] + [c]]) == JoinLines(ps) + [c]
  {
    var qs := ps[..|ps| - 1] + [ps[|ps| - 1] + [c]];
    if |ps| > 1 {
      assert qs[..|qs| - 1] == ps[..|ps| - 1];
    }
  }

  // ---------------------------------------------------------------------------
  // truncateTweet
  // ---------------------------------------------------------------------------

  /** `substring(0, n)`: a negative end counts as 0, a long one as the length. */
  function Prefix(s: JsString, n: int): (r: JsString)
    ensures r <= s
    ensures |r| == if n <= 0 then 0 else if n >= |s| then |s| else n
  {
    if n <= 0 then [] else if n >= |s| then s else s[..n]
  }

  /** Text within the limit is kept; longer text keeps its first
      `maxLength - 3` code units and gains "...". */
  function Truncate(text: JsString, maxLength: int): (r: JsString)
    ensures |text| <= maxLength ==> r == text
    ensures |text| > maxLength ==> r == Prefix(text, maxLength - 3) + Ellipsis
    ensures |text| > maxLength ==> |r| == if maxLength >= 3 then maxLength else 3
  {
    if |text| <= maxLength then text else Prefix(text, maxLength - 3) + Ellipsis
  }

  /** With a limit of at least 3 nothing longer than the limit comes out,
      and truncating twice is truncating once, for every limit. */
  lemma TruncateBounds(text: JsString, maxLength: int)
    ensures maxLength >= 3 ==> |Truncate(text, maxLength)| <= maxLength
    ensures Truncate(Truncate(text, maxLength), maxLength) == Truncate(text, maxLength)
    ensures |text| > maxLength ==> Truncate(text, maxLength)[..|Truncate(text, maxLength)| - 3] <= text
  {
    if |text| > maxLength && maxLength < 3 {
      assert Truncate(text, maxLength) == Ellipsis;
    }
  }

  // ---------------------------------------------------------------------------
  // Uses (generateTweet, generateThread, generateVariation)
  // ---------------------------------------------------------------------------

  /** `generateTweet`: the trimmed completion, truncated only when too long. */
  function GenerateTweet(completion: JsString, maxLength: int): (r: JsString)
    ensures r == Truncate(Trim(completion), maxLength)
  {
    var tweet := Trim(completion);
    if |tweet| > maxLength then Truncate(tweet, maxLength) else tweet
  }

  /** `generateVariation`: the trimmed completion, truncated. */
  function GenerateVariation(completion: JsString, maxLength: int): (r: JsString)
    ensures maxLength >= 3 ==> |r| <= maxLength
  {
    TruncateBounds(Trim(completion), maxLength);
    Truncate(Trim(completion), maxLength)
  }

  /** The lines of the completion that are not blank, in order. */
  function NonBlank(lines: seq<JsString>): seq<JsString> {
    if lines == [] then []
    else
      var l := lines[|lines| - 1];
      NonBlank(lines[..|lines| - 1]) + (if Blank(l) then [] else [l])
  }

  /** The kept lines are lines of the input, and none is blank. */
  lemma {:induction false} NonBlankSound(lines: seq<JsString>)
    ensures forall l :: l in NonBlank(lines) ==> l in lines && !Blank(l)
  {
    if lines != [] {
      var init := lines[..|lines| - 1];
      NonBlankSound(init);
      forall l | l in init ensures l in lines {
        var j :| 0 <= j < |init| && init[j] == l;
        assert lines[j] == l;
      }
    }
  }

  /** Reference meaning of `generateThread`: trim, split on newlines, drop
      blank lines, truncate each. */
  function ThreadSpec(completion: JsString, maxLength: int): seq<JsString> {
    TruncateAll(NonBlank(SplitLines(Trim(completion))), maxLength)
  }

  function TruncateAll(lines: seq<JsString>, maxLength: int): (r: seq<JsString>)
    ensures |r| == |lines|
  {
    if lines == [] then []
    else TruncateAll(lines[..|lines| - 1], maxLength) + [Truncate(lines[|lines| - 1], maxLength)]
  }

  lemma {:induction false} TruncateAllAt(lines: seq<JsString>, maxLength: int, i: nat)
    requires i < |lines|
    ensures TruncateAll(lines, maxLength)[i] == Truncate(lines[i], maxLength)
  {
    if i < |lines| - 1 {
      TruncateAllAt(lines[..|lines| - 1], maxLength, i);
    }
  }

  lemma NonBlankStep(lines: seq<JsString>, i: nat)
    requires i < |lines|
    ensures NonBlank(lines[..i + 1]) == NonBlank(lines[..i]) + (if Blank(lines[i]) then [] else [lines[i]])
  {
    assert lines[..i + 1][..i] == lines[..i];
  }

  lemma TruncateAllSnoc(lines: seq<JsString>, l: JsString, maxLength: int)
    ensures TruncateAll(lines + [l], maxLength) == TruncateAll(lines, maxLength) + [Truncate(l, maxLength)]
  {
    assert (lines + [l])[..|lines|] == lines;
  }

  /** One more line either adds its truncation to the thread or, when blank, nothing. */
  lemma TruncateNonBlankStep(lines: seq<JsString>, i: nat, maxLength: int)
    requires i < |lines|
    ensures Blank(lines[i]) ==>
      TruncateAll(NonBlank(lines[..i + 1]), maxLength) == TruncateAll(NonBlank(lines[..i]), maxLength)
    ensures !Blank(lines[i]) ==>
      TruncateAll(NonBlank(lines[..i + 1]), maxLength)
        == TruncateAll(NonBlank(lines[..i]), maxLength) + [Truncate(lines[i], maxLength)]
  {
    var done := NonBlank(lines[..i]);
    NonBlankStep(lines, i);
    if Blank(lines[i]) {
      assert done + [] == done;
    } else {
      TruncateAllSnoc(done, lines[i], maxLength);
    }
  }

  /** `generateThread` with its filter and map written as one loop. */
  method GenerateThread(completion: JsString, maxLength: int) returns (tweets: seq<JsString>)
    ensures tweets == ThreadSpec(completion, maxLength)
  {
    var lines := SplitLines(Trim(completion));
    tweets := TruncateNonBlank(lines, maxLength);
  }

  /** The filter-then-map loop over the split lines. */
  method TruncateNonBlank(lines: seq<JsString>, maxLength: int) returns (tweets: seq<JsString>)
    ensures tweets == TruncateAll(NonBlank(lines), maxLength)
  {
    tweets := [];
    var i := 0;
    while i < |lines|
      invariant 0 <= i <= |lines|
      invariant tweets == TruncateAll(NonBlank(lines[..i]), maxLength)
    {
      TruncateNonBlankStep(lines, i, maxLength);
      if !Blank(lines[i]) {
        tweets := tweets + [Truncate(lines[i], maxLength)];
      }
      i := i + 1;
    }
    assert lines[..i] == lines;
  }

  /** One non-blank line without newlines stays non-blank and without
      newlines through truncation. */
  lemma TruncateLine(l: JsString, maxLength: int)
    requires !Blank(l) && Newline !in l
    ensures var t := Truncate(l, maxLength);
      (maxLength >= 3 ==> |t| <= maxLength) && !Blank(t) && Newline !in t
  {
    TruncateBounds(l, maxLength);
    var t := Truncate(l, maxLength);
    if |l| > maxLength {
      var p := Prefix(l, maxLength - 3);
      assert t == p + Ellipsis;
      assert t[|t| - 1] == 0x2E;
      assert Newline !in p;
    }
  }

  /** Every thread tweet respects a limit of at least 3, is not blank, and
      holds no newline; there is one tweet per non-blank line. */
  lemma ThreadTweetsFit(completion: JsString, maxLength: int)
    ensures |ThreadSpec(completion, maxLength)| == |NonBlank(SplitLines(Trim(completion)))|
    ensures forall t :: t in ThreadSpec(completion, maxLength) ==>
      (maxLength >= 3 ==> |t| <= maxLength) && !Blank(t) && Newline !in t
  {
    var parts := SplitLines(Trim(completion));
    var lines := NonBlank(parts);
    var ts := ThreadSpec(completion, maxLength);
    forall t | t in ts
      ensures (maxLength >= 3 ==> |t| <= maxLength) && !Blank(t) && Newline !in t
    {
      var i :| 0 <= i < |ts| && ts[i] == t;
      var l := lines[i];
      TruncateAllAt(lines, maxLength, i);
      NonBlankSound(parts);
      assert l in lines;
      TruncateLine(l, maxLength);
    }
  }
}
