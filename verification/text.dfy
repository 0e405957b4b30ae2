/** String helpers shared by the models: Python's whitespace class, the
    `re.sub` / `str.strip` / `str.lower` / `' '.join` idioms the source uses,
    substring search, and decimal formatting of integers. Strings are
    sequences of Unicode code points, as in Python 3. */
module Text {

  /** Python's `str.isspace`, which is also what `\s` and `str.strip()` use. */
  predicate IsPySpace(c: char) {
    var n := c as int;
    || (0x09 <= n <= 0x0D) || (0x1C <= n <= 0x1F) || n == 0x20 || n == 0x85
    || n == 0xA0 || n == 0x1680 || (0x2000 <= n <= 0x200A) || n == 0x2028
    || n == 0x2029 || n == 0x202F || n == 0x205F || n == 0x3000
  }

  predicate NoSpaces(s: string) {
    forall i :: 0 <= i < |s| ==> !IsPySpace(s[i])
  }

  /** `re.sub(r'\s+', '', s)`: every whitespace character removed. */
  function RemoveSpaces(s: string): (r: string)
    ensures NoSpaces(r)
    ensures |r| <= |s|
    ensures NoSpaces(s) ==> r == s
  {
    if s == [] then []
    else (if IsPySpace(s[0]) then [] else [s[0]]) + RemoveSpaces(s[1..])
  }

  /** Number of non-whitespace characters of `s`, counted from the end. */
  function CountNonSpace(s: string): (n: nat)
    ensures n <= |s|
  {
    if s == [] then 0
    else CountNonSpace(s[..|s| - 1]) + (if IsPySpace(s[|s| - 1]) then 0 else 1)
  }

  lemma {:induction false} RemoveSpacesAppend(a: string, b: string)
    ensures RemoveSpaces(a + b) == RemoveSpaces(a) + RemoveSpaces(b)
  {
    if a != [] {
      assert (a + b)[1..] == a[1..] + b;
      RemoveSpacesAppend(a[1..], b);
    } else {
      assert a + b == b;
    }
  }

  /** Removing whitespace keeps exactly the non-whitespace characters. */
  lemma {:induction false} RemoveSpacesCount(s: string)
    ensures |RemoveSpaces(s)| == CountNonSpace(s)
  {
    if s != [] {
      var init := s[..|s| - 1];
      assert s == init + [s[|s| - 1]];
      RemoveSpacesAppend(init, [s[|s| - 1]]);
      RemoveSpacesCount(init);
    }
  }

  /** Leading whitespace run of `s` removed. */
  function DropLeadingSpaces(s: string): (r: string)
    ensures |r| <= |s| && r == s[|s| - |r|..]
    ensures forall i :: 0 <= i < |s| - |r| ==> IsPySpace(s[i])
    ensures r == [] || !IsPySpace(r[0])
  {
    if s != [] && IsPySpace(s[0]) then DropLeadingSpaces(s[1..]) else s
  }

  /** Trailing whitespace run of `s` removed. */
  function DropTrailingSpaces(s: string): (r: string)
    ensures |r| <= |s| && r == s[..|r|]
    ensures forall i :: |r| <= i < |s| ==> IsPySpace(s[i])
    ensures r == [] || !IsPySpace(r[|r| - 1])
  {
    if s != [] && IsPySpace(s[|s| - 1]) then DropTrailingSpaces(s[..|s| - 1]) else s
  }

  /** `r` is `s[i..]` cut short, with only whitespace cut away on either side. */
  predicate IsTrimmedSlice(s: string, r: string, i: int) {
    && 0 <= i <= |s| - |r| && r == s[i..i + |r|]
    && (forall k :: 0 <= k < i ==> IsPySpace(s[k]))
    && (forall k :: i + |r| <= k < |s| ==> IsPySpace(s[k]))
  }

  /** Python's `s.strip()`: the longest slice of `s` that neither starts nor
      ends with whitespace, everything cut off being whitespace. */
  function Strip(s: string): (r: string)
    ensures exists i :: IsTrimmedSlice(s, r, i)
    ensures r == [] || (!IsPySpace(r[0]) && !IsPySpace(r[|r| - 1]))
  {
    var a := DropLeadingSpaces(s);
    var r := DropTrailingSpaces(a);
    assert IsTrimmedSlice(s, r, |s| - |a|);
    r
  }

  /** `re.sub(r'\s+', ' ', s)`: each maximal run of whitespace becomes one space. */
  function CollapseSpaces(s: string): string
    decreases |s|
  {
    if s == [] then []
    else if IsPySpace(s[0]) then " " + CollapseSpaces(DropLeadingSpaces(s))
    else [s[0]] + CollapseSpaces(s[1..])
  }

  /** Collapsing keeps every non-space character in order, turns each
      whitespace run into a single plain space, and never grows the text. */
  lemma {:induction false} CollapseSpacesProps(s: string)
    ensures var r := CollapseSpaces(s);
      && |r| <= |s|
      && (r == [] <==> s == [])
      && (s != [] && !IsPySpace(s[0]) ==> r[0] == s[0])
      && (forall i :: 0 <= i < |r| && IsPySpace(r[i]) ==> r[i] == ' ')
      && (forall i :: 0 <= i < |r| - 1 ==> !(IsPySpace(r[i]) && IsPySpace(r[i + 1])))
      && RemoveSpaces(r) == RemoveSpaces(s)
    decreases |s|
  {
    if s != [] {
      var r := CollapseSpaces(s);
      if IsPySpace(s[0]) {
        var rest := DropLeadingSpaces(s);
        var t := CollapseSpaces(rest);
        CollapseSpacesProps(rest);
        RemoveSpacesOfLeadingRun(s);
        assert r == " " + t;
        assert r[1..] == t;
        forall i | 0 <= i < |r| - 1 ensures !(IsPySpace(r[i]) && IsPySpace(r[i + 1])) {
          if i > 0 {
            assert r[i] == t[i - 1] && r[i + 1] == t[i];
          }
        }
      } else {
        var t := CollapseSpaces(s[1..]);
        CollapseSpacesProps(s[1..]);
        assert r == [s[0]] + t;
        assert r[1..] == t;
        forall i | 0 <= i < |r| - 1 ensures !(IsPySpace(r[i]) && IsPySpace(r[i + 1])) {
          if i > 0 {
            assert r[i] == t[i - 1] && r[i + 1] == t[i];
          }
        }
      }
    }
  }

  lemma {:induction false} RemoveSpacesOfLeadingRun(s: string)
    ensures RemoveSpaces(s) == RemoveSpaces(DropLeadingSpaces(s))
  {
    if s != [] && IsPySpace(s[0]) {
      RemoveSpacesOfLeadingRun(s[1..]);
    }
  }

  /** ASCII case folding; other characters are left alone. */
  function LowerChar(c: char): (r: char)
    ensures 'A' <= c <= 'Z' ==> r as int == c as int + 32
    ensures !('A' <= c <= 'Z') ==> r == c
  {
    if 'A' <= c <= 'Z' then (c as int + 32) as char else c
  }

  /** Python's `s.lower()`, restricted to ASCII letters. */
  function Lower(s: string): (r: string)
    ensures |r| == |s|
    ensures forall i :: 0 <= i < |s| ==> r[i] == LowerChar(s[i])
  {
    seq(|s|, i requires 0 <= i < |s| => LowerChar(s[i]))
  }

  predicate IsLowerFixed(p: string) {
    forall i :: 0 <= i < |p| ==> !('A' <= p[i] <= 'Z')
  }

  lemma LowerIdempotent(s: string)
    ensures Lower(Lower(s)) == Lower(s)
    ensures IsLowerFixed(Lower(s))
  {
  }

  predicate StartsWith(s: string, p: string) {
    |p| <= |s| && s[..|p|] == p
  }

  predicate OccursAt(s: string, p: string, i: int) {
    0 <= i && i + |p| <= |s| && s[i..i + |p|] == p
  }

  /** Python's `p in s`, as a left-to-right scan. */
  function Contains(s: string, p: string): (b: bool)
    ensures b <==> exists i :: OccursAt(s, p, i)
  {
    if StartsWith(s, p) then
      assert OccursAt(s, p, 0);
      true
    else if |s| == 0 then
      assert forall i :: !OccursAt(s, p, i);
      false
    else
      var b := Contains(s[1..], p);
      ContainsShift(s, p);
      b
  }

  lemma ContainsShift(s: string, p: string)
    requires |s| > 0 && !StartsWith(s, p)
    ensures (exists i :: OccursAt(s, p, i)) <==> (exists i :: OccursAt(s[1..], p, i))
  {
    if exists i :: OccursAt(s, p, i) {
      var i :| OccursAt(s, p, i);
      assert i != 0;
      assert s[1..][i - 1..i - 1 + |p|] == s[i..i + |p|];
      assert OccursAt(s[1..], p, i - 1);
    }
    if exists i :: OccursAt(s[1..], p, i) {
      var i :| OccursAt(s[1..], p, i);
      assert s[i + 1..i + 1 + |p|] == s[1..][i..i + |p|];
      assert OccursAt(s, p, i + 1);
    }
  }

  /** A lower-case pattern found in `s` is still found after lower-casing `s`. */
  lemma {:induction false} ContainsLower(s: string, p: string)
    requires IsLowerFixed(p)
    requires Contains(s, p)
    ensures Contains(Lower(s), p)
  {
    var i :| OccursAt(s, p, i);
    var ls := Lower(s);
    forall k | 0 <= k < |p|
      ensures ls[i..i + |p|][k] == p[k]
    {
      assert s[i..i + |p|][k] == p[k];
      assert ls[i + k] == LowerChar(s[i + k]);
    }
    assert ls[i..i + |p|] == p;
    assert OccursAt(ls, p, i);
  }

  /** A string containing `p` contains every prefix of `p`. */
  lemma ContainsPrefixOfPattern(s: string, p: string, k: nat)
    requires k <= |p|
    requires Contains(s, p)
    ensures Contains(s, p[..k])
  {
    var i :| OccursAt(s, p, i);
    assert s[i..i + k] == s[i..i + |p|][..k];
    assert OccursAt(s, p[..k], i);
  }

  /** Python's `sep.join(parts)`. */
  function Join(sep: string, parts: seq<string>): (r: string)
    ensures |parts| == 1 ==> r == parts[0]
  {
    if |parts| == 0 then ""
    else if |parts| == 1 then parts[0]
    else parts[0] + sep + Join(sep, parts[1..])
  }

  /** Joining one more part appends the separator and that part. */
  lemma {:induction false} JoinSnoc(sep: string, parts: seq<string>, x: string)
    requires |parts| > 0
    ensures Join(sep, parts + [x]) == Join(sep, parts) + sep + x
  {
    if |parts| == 1 {
      assert (parts + [x])[1..] == [x];
    } else {
      assert (parts + [x])[1..] == parts[1..] + [x];
      JoinSnoc(sep, parts[1..], x);
    }
  }

  /** Regrouping a concatenation. */
  lemma Assoc<T>(a: seq<T>, b: seq<T>, c: seq<T>)
    ensures a + (b + c) == a + b + c
  {
  }

  /** Joining a part in front of a non-empty list puts the separator after it. */
  lemma JoinCons(sep: string, x: string, rest: seq<string>)
    requires |rest| > 0
    ensures Join(sep, [x] + rest) == x + sep + Join(sep, rest)
  {
    assert ([x] + rest)[1..] == rest;
  }

  /** Joining a non-empty list of parts starts with its first part. */
  lemma JoinStartsWith(sep: string, parts: seq<string>)
    requires |parts| > 0
    ensures StartsWith(Join(sep, parts), parts[0])
  {
  }

  function Clamp(x: int, lo: int, hi: int): (r: int)
    requires lo <= hi
    ensures lo <= r <= hi
    ensures lo <= x <= hi ==> r == x
  {
    if x < lo then lo else if x > hi then hi else x
  }

  /** Python's `s[lo:hi]` for non-negative bounds: both bounds are clamped to
      the string and an inverted range gives the empty string. */
  function PySlice(s: string, lo: int, hi: int): (r: string)
    requires 0 <= lo && 0 <= hi
    ensures |r| <= |s|
    ensures lo <= hi <= |s| ==> r == s[lo..hi]
    ensures hi <= lo ==> r == []
  {
    var a := Clamp(lo, 0, |s|);
    var b := Clamp(hi, 0, |s|);
    if a <= b then s[a..b] else []
  }

  function DigitChar(d: int): (c: char)
    requires 0 <= d < 10
    ensures '0' <= c <= '9'
    ensures c as int - '0' as int == d
  {
    ('0' as int + d) as char
  }

  predicate IsDigit(c: char) {
    '0' <= c <= '9'
  }

  /** Decimal digits of a natural number, without leading zeros. */
  function NatToString(n: nat): (r: string)
    ensures |r| > 0
    ensures forall i :: 0 <= i < |r| ==> IsDigit(r[i])
    ensures |r| > 1 ==> r[0] != '0'
  {
    if n < 10 then [DigitChar(n)] else NatToString(n / 10) + [DigitChar(n % 10)]
  }

  /** Value of a string of decimal digits. */
  function ParseDigits(s: string): nat
    requires forall i :: 0 <= i < |s| ==> IsDigit(s[i])
  {
    if s == [] then 0
    else
      assert IsDigit(s[|s| - 1]);
      10 * ParseDigits(s[..|s| - 1]) + (s[|s| - 1] as int - '0' as int)
  }

  lemma {:induction false} ParseNatToString(n: nat)
    ensures ParseDigits(NatToString(n)) == n
  {
    if n >= 10 {
      var r := NatToString(n);
      assert r[..|r| - 1] == NatToString(n / 10);
      ParseNatToString(n / 10);
    }
  }

  /** Python's `str(n)` / PHP's `%d`. */
  function IntToString(n: int): (r: string)
    ensures |r| > 0
    ensures n >= 0 ==> r == NatToString(n)
    ensures n < 0 ==> r[0] == '-' && r[1..] == NatToString(-n)
  {
    if n < 0 then "-" + NatToString(-n) else NatToString(n)
  }

  /** PHP's `%02d` for a non-negative number below 100. */
  function Pad2(n: nat): (r: string)
    requires n < 100
    ensures |r| == 2
    ensures IsDigit(r[0]) && IsDigit(r[1]) && ParseDigits(r) == n
  {
    assert ParseDigits([DigitChar(n / 10)]) == n / 10;
    [DigitChar(n / 10), DigitChar(n % 10)]
  }
}
