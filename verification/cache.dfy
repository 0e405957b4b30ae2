/** The search-result cache (jcmars/backend/cache.py): an insertion-ordered
    store with least-recently-used eviction and lazy time-to-live expiry.
    The clock is an explicit parameter (microseconds); the key is the
    canonical form of the query dictionary, standing in for the hex digest
    of its sorted-key JSON text. */
module Cache {
  import opened Wrappers
  import opened Models

  // ---------------------------------------------------------------------------
  // Keys (_make_key)
  // ---------------------------------------------------------------------------

  /** The JSON values a query dictionary holds. */
  datatype JsonValue = JNull | JInt(i: int) | JStr(s: string)

  /** A dictionary as its items in insertion order. */
  type QueryDict = seq<(string, JsonValue)>

  /** The canonical form: field name to value, with no order left. A later
      item with the same name overrides an earlier one, as in a dict display. */
  type Key = map<string, JsonValue>

  predicate DistinctNames(d: QueryDict) {
    forall i, j :: 0 <= i < j < |d| ==> d[i].0 != d[j].0
  }

  function MakeKey(d: QueryDict): (k: Key)
    ensures forall name :: name in k <==> exists i :: 0 <= i < |d| && d[i].0 == name
  {
    if d == [] then map[]
    else
      var init := d[..|d| - 1];
      assert forall i :: 0 <= i < |init| ==> init[i] == d[i];
      MakeKey(init)[d[|d| - 1].0 := d[|d| - 1].1]
  }

  lemma {:induction false} MakeKeyAt(d: QueryDict, i: nat)
    requires DistinctNames(d) && i < |d|
    ensures d[i].0 in MakeKey(d) && MakeKey(d)[d[i].0] == d[i].1
  {
    var init := d[..|d| - 1];
    if i < |d| - 1 {
      assert DistinctNames(init) by {
        forall a, b | 0 <= a < b < |init| ensures init[a].0 != init[b].0 {
          assert init[a] == d[a] && init[b] == d[b];
        }
      }
      assert d[i] != d[|d| - 1] && init[i] == d[i];
      MakeKeyAt(init, i);
    }
  }

  /** Equal fields give equal keys whatever the insertion order. */
  lemma MakeKeyOrderFree(a: QueryDict, b: QueryDict)
    requires DistinctNames(a) && DistinctNames(b)
    requires forall p :: p in a <==> p in b
    ensures MakeKey(a) == MakeKey(b)
  {
    var ka, kb := MakeKey(a), MakeKey(b);
    forall name | name in ka ensures name in kb && ka[name] == kb[name] {
      var i :| 0 <= i < |a| && a[i].0 == name;
      assert a[i] in b;
      var j :| 0 <= j < |b| && b[j] == a[i];
      MakeKeyAt(a, i);
      MakeKeyAt(b, j);
    }
    forall name | name in kb ensures name in ka {
      var j :| 0 <= j < |b| && b[j].0 == name;
      assert b[j] in a;
    }
  }

  function KeywordsJson(kw: Option<string>): JsonValue {
    if kw.None? then JNull else JStr(kw.value)
  }

  /** The dictionary the search endpoint caches under: exactly year, region,
      position and keywords, so the ranking knobs never affect identity. */
  function QueryDictOf(q: SearchQuery): QueryDict {
    [("year", JInt(q.year)), ("region_name", JStr(q.regionName)),
     ("position", JStr(q.position)), ("keywords", KeywordsJson(q.keywords))]
  }

  /** Two queries share a key exactly when the four identity fields agree;
      missing keywords and empty keywords are different keys. */
  lemma QueryKeyIdentity(p: SearchQuery, q: SearchQuery)
    ensures MakeKey(QueryDictOf(p)) == MakeKey(QueryDictOf(q)) <==>
      p.year == q.year && p.regionName == q.regionName && p.position == q.position && p.keywords == q.keywords
    ensures p.keywords == None && q.keywords == Some("") ==> MakeKey(QueryDictOf(p)) != MakeKey(QueryDictOf(q))
  {
    var dp, dq := QueryDictOf(p), QueryDictOf(q);
    assert DistinctNames(dp) && DistinctNames(dq);
    if MakeKey(dp) == MakeKey(dq) {
      MakeKeyAt(dp, 0); MakeKeyAt(dq, 0);
      MakeKeyAt(dp, 1); MakeKeyAt(dq, 1);
      MakeKeyAt(dp, 2); MakeKeyAt(dq, 2);
      MakeKeyAt(dp, 3); MakeKeyAt(dq, 3);
    }
  }

  // ---------------------------------------------------------------------------
  // The cache
  // ---------------------------------------------------------------------------

  /** The store is generic in its key; the service keys it with
      `MakeKey` of the query dictionary, as `get` and `set` do. */
  datatype Entry<K, V> = Entry(key: K, value: V, timestamp: int)

  /** `entries` runs from least to most recently used. */
  datatype Lru<K, V> = Lru(entries: seq<Entry<K, V>>, maxSize: int, ttl: int)

  const MicrosPerMinute: int := 60 * 1000 * 1000

  predicate UniqueKeys<K(==), V>(s: seq<Entry<K, V>>) {
    forall i, j :: 0 <= i < j < |s| ==> s[i].key != s[j].key
  }

  /** Each key has at most one entry. */
  predicate Valid<K(==), V>(c: Lru<K, V>) {
    UniqueKeys(c.entries)
  }

  function Keys<K(==), V>(s: seq<Entry<K, V>>): set<K> {
    set i | 0 <= i < |s| :: s[i].key
  }

  function NewCache<K(==), V>(maxSize: int, ttlMinutes: int): (c: Lru<K, V>)
    ensures Valid(c) && Size(c) == 0
  {
    Lru([], maxSize, ttlMinutes * MicrosPerMinute)
  }

  function Size<K(==), V>(c: Lru<K, V>): nat {
    |c.entries|
  }

  function Clear<K(==), V>(c: Lru<K, V>): (c': Lru<K, V>)
    ensures Valid(c') && Size(c') == 0
    ensures c'.maxSize == c.maxSize && c'.ttl == c.ttl
  {
    c.(entries := [])
  }

  /** Position of the entry for `k`, or -1. */
  function Find<K(==), V>(s: seq<Entry<K, V>>, k: K): (i: int)
    ensures -1 <= i < |s|
    ensures i == -1 <==> k !in Keys(s)
    ensures i >= 0 ==> s[i].key == k
  {
    if s == [] then -1
    else if s[|s| - 1].key == k then |s| - 1
    else
      var init := s[..|s| - 1];
      assert forall e :: e in s ==> e in init || e == s[|s| - 1];
      Find(init, k)
  }

  function RemoveAt<T>(s: seq<T>, i: nat): (r: seq<T>)
    requires i < |s|
    ensures |r| == |s| - 1
  {
    s[..i] + s[i + 1..]
  }

  lemma RemoveAtKeys<K, V>(s: seq<Entry<K, V>>, i: nat)
    requires UniqueKeys(s) && i < |s|
    ensures UniqueKeys(RemoveAt(s, i))
    ensures Keys(RemoveAt(s, i)) == Keys(s) - {s[i].key}
  {
    var r := RemoveAt(s, i);
    assert forall a :: 0 <= a < |r| ==> r[a] == if a < i then s[a] else s[a + 1];
    forall a | 0 <= a < |r| ensures r[a].key in Keys(s) - {s[i].key} {
      var b := if a < i then a else a + 1;
      assert r[a] == s[b];
    }
    forall a | 0 <= a < |s| && a != i ensures s[a].key in Keys(r) {
      var b := if a < i then a else a - 1;
      assert r[b] == s[a];
    }
  }

  lemma AppendFreshKey<K, V>(s: seq<Entry<K, V>>, e: Entry<K, V>)
    requires UniqueKeys(s) && e.key !in Keys(s)
    ensures UniqueKeys(s + [e])
    ensures Keys(s + [e]) == Keys(s) + {e.key}
  {
    var r := s + [e];
    forall i, j | 0 <= i < j < |r| ensures r[i].key != r[j].key {
      if j == |s| {
        assert r[i].key == s[i].key;
      }
    }
    forall a | 0 <= a < |r| ensures r[a].key in Keys(s) + {e.key} {
      if a < |s| { assert r[a] == s[a]; }
    }
    forall a | 0 <= a < |s| ensures s[a].key in Keys(r) {
      assert r[a] == s[a];
    }
    assert r[|s|] == e;
  }

  /** The entries without the one for `k`, if any. */
  function Without<K(==), V>(s: seq<Entry<K, V>>, k: K): (r: seq<Entry<K, V>>)
    requires UniqueKeys(s)
    ensures UniqueKeys(r) && Keys(r) == Keys(s) - {k}
    ensures |r| == if k in Keys(s) then |s| - 1 else |s|
  {
    var i := Find(s, k);
    if i < 0 then s
    else
      RemoveAtKeys(s, i);
      RemoveAt(s, i)
  }

  /** `get` for the key of the query: a fresh entry (younger than the
      time-to-live) is returned and moved to the most-recent end with its
      timestamp unchanged; a stale entry is removed and reported as a miss;
      an absent key is a miss that changes nothing. */
  function Get<K(==), V>(c: Lru<K, V>, k: K, now: int): (r: (Lru<K, V>, Option<V>))
    requires Valid(c)
    ensures Valid(r.0) && r.0.maxSize == c.maxSize && r.0.ttl == c.ttl
    ensures k !in Keys(c.entries) ==> r == (c, None)
    ensures forall i :: 0 <= i < |c.entries| && c.entries[i].key == k ==>
      if now - c.entries[i].timestamp < c.ttl
      then r.1 == Some(c.entries[i].value) && r.0.entries == RemoveAt(c.entries, i) + [c.entries[i]]
      else r.1 == None && r.0.entries == RemoveAt(c.entries, i)
  {
    var i := Find(c.entries, k);
    if i < 0 then
      assert forall j :: 0 <= j < |c.entries| ==> c.entries[j].key in Keys(c.entries);
      (c, None)
    else
      assert forall j :: 0 <= j < |c.entries| && c.entries[j].key == k ==> j == i;
      Hit(c, i, now)
  }

  /** The read of the entry at `i`: moved to the most-recent end while
      fresh, removed once stale. */
  function Hit<K(==), V>(c: Lru<K, V>, i: nat, now: int): (r: (Lru<K, V>, Option<V>))
    requires Valid(c) && i < |c.entries|
    ensures Valid(r.0) && r.0.maxSize == c.maxSize && r.0.ttl == c.ttl
    ensures now - c.entries[i].timestamp < c.ttl ==>
      r.1 == Some(c.entries[i].value) && r.0.entries == RemoveAt(c.entries, i) + [c.entries[i]]
    ensures now - c.entries[i].timestamp >= c.ttl ==> r.1 == None && r.0.entries == RemoveAt(c.entries, i)
  {
    RemoveAtKeys(c.entries, i);
    var e := c.entries[i];
    if now - e.timestamp < c.ttl then
      AppendFreshKey(RemoveAt(c.entries, i), e);
      (c.(entries := RemoveAt(c.entries, i) + [e]), Some(e.value))
    else
      (c.(entries := RemoveAt(c.entries, i)), None)
  }

  /** `set` for the key of the query: drop any entry for the key, append
      the new entry as most recent, then evict the least recently used
      entry if over capacity. */
  function Put<K(==), V>(c: Lru<K, V>, k: K, value: V, now: int): (c': Lru<K, V>)
    requires Valid(c)
    ensures Valid(c') && c'.maxSize == c.maxSize && c'.ttl == c.ttl
    ensures Size(c) <= c.maxSize ==> Size(c') <= c.maxSize
    ensures c.maxSize >= 1 ==> |c'.entries| > 0 && c'.entries[|c'.entries| - 1] == Entry(k, value, now)
    ensures k in Keys(c.entries) && Size(c) <= c.maxSize ==> Size(c') == Size(c)
  {
    var rest := Without(c.entries, k);
    var grown := rest + [Entry(k, value, now)];
    AppendFreshKey(rest, Entry(k, value, now));
    if |grown| > c.maxSize then
      assert UniqueKeys(grown[1..]) by {
        forall a, b | 0 <= a < b < |grown[1..]| ensures grown[1..][a].key != grown[1..][b].key {
          assert grown[1..][a] == grown[a + 1] && grown[1..][b] == grown[b + 1];
        }
      }
      c.(entries := grown[1..])
    else c.(entries := grown)
  }

  /** The write against the old entries: a new key is appended, evicting
      the oldest entry when the cache is already full; an existing key is
      moved to the most-recent end with its new value and nothing else goes
      while the cache is within capacity. */
  lemma PutEvictsLeastRecent<K, V>(c: Lru<K, V>, k: K, value: V, now: int)
    requires Valid(c)
    ensures var e, r := Entry(k, value, now), Put(c, k, value, now).entries;
      && (k !in Keys(c.entries) && |c.entries| < c.maxSize ==> r == c.entries + [e])
      && (k !in Keys(c.entries) && |c.entries| >= c.maxSize && |c.entries| >= 1 ==> r == c.entries[1..] + [e])
      && (k in Keys(c.entries) && |c.entries| <= c.maxSize ==> r == RemoveAt(c.entries, Find(c.entries, k)) + [e])
      && (k in Keys(c.entries) && |c.entries| > c.maxSize && |c.entries| >= 2 ==>
            r == RemoveAt(c.entries, Find(c.entries, k))[1..] + [e])
      && (|c.entries| <= 1 && c.maxSize <= 0 && (c.entries == [] || k in Keys(c.entries)) ==> r == [])
  {
    var e := Entry(k, value, now);
    var rest := Without(c.entries, k);
    if k in Keys(c.entries) {
      assert rest == RemoveAt(c.entries, Find(c.entries, k));
    } else {
      assert rest == c.entries;
    }
    if |rest| >= 1 {
      assert (rest + [e])[1..] == rest[1..] + [e];
    }
  }

  /** Where an entry under another key sits once the entry for `k` is
      taken out: at the front only if nothing but `k` preceded it. */
  lemma WithoutPosition<K, V>(s: seq<Entry<K, V>>, k: K, i: nat) returns (a: nat)
    requires UniqueKeys(s) && i < |s| && s[i].key != k
    ensures a < |Without(s, k)| && Without(s, k)[a] == s[i]
    ensures a == 0 ==> forall j :: 0 <= j < i ==> s[j].key == k
  {
    var f := Find(s, k);
    a := if f < 0 || i < f then i else i - 1;
    if f >= 0 {
      assert Without(s, k)[a] == (s[..f] + s[f + 1..])[a];
      if a == 0 && i == 1 {
        assert f == 0;
      }
    }
  }

  /** What survives a write: every old entry under another key, except
      the single oldest such entry when the write overflows the
      capacity. */
  lemma PutKeepsOthers<K, V>(c: Lru<K, V>, k: K, value: V, now: int, i: nat)
    requires Valid(c) && i < |c.entries| && c.entries[i].key != k
    ensures c.entries[i] in Put(c, k, value, now).entries
      || ((if k in Keys(c.entries) then |c.entries| else |c.entries| + 1) > c.maxSize
          && forall j :: 0 <= j < i ==> c.entries[j].key == k)
  {
    var grown := Without(c.entries, k) + [Entry(k, value, now)];
    var a := WithoutPosition(c.entries, k, i);
    assert grown[a] == c.entries[i];
    if a > 0 && |grown| > c.maxSize {
      assert grown[1..][a - 1] == c.entries[i];
    }
  }

  /** Where an entry left after taking out `k` came from: an old entry
      under another key. */
  lemma WithoutOrigin<K, V>(s: seq<Entry<K, V>>, k: K, x: Entry<K, V>)
    requires UniqueKeys(s) && x in Without(s, k)
    ensures x in s && x.key != k
  {
    var a :| 0 <= a < |Without(s, k)| && Without(s, k)[a] == x;
    assert x.key in Keys(Without(s, k));
    var f := Find(s, k);
    if f >= 0 {
      assert x in s[..f] + s[f + 1..];
    }
  }

  /** A write invents nothing: besides the new entry, only old entries
      under other keys remain. */
  lemma PutAddsOnlyNew<K, V>(c: Lru<K, V>, k: K, value: V, now: int, x: Entry<K, V>)
    requires Valid(c) && x in Put(c, k, value, now).entries
    ensures x == Entry(k, value, now) || (x in c.entries && x.key != k)
  {
    var grown := Without(c.entries, k) + [Entry(k, value, now)];
    assert x in grown;
    if x != Entry(k, value, now) {
      WithoutOrigin(c.entries, k, x);
    }
  }

  /** A fresh read after a write returns the written value. */
  lemma PutThenGet<K, V>(c: Lru<K, V>, k: K, value: V, now: int, later: int)
    requires Valid(c) && c.maxSize >= 1
    requires 0 <= later - now < c.ttl
    ensures Get(Put(c, k, value, now), k, later).1 == Some(value)
  {
    var c' := Put(c, k, value, now);
    var n := |c'.entries| - 1;
    assert c'.entries[n].key == k;
  }

  /** A read that misses never adds an entry, and any read leaves the keys
      of other entries untouched. */
  lemma GetKeepsOtherKeys<K, V>(c: Lru<K, V>, k: K, now: int)
    requires Valid(c)
    ensures Keys(Get(c, k, now).0.entries) - {k} == Keys(c.entries) - {k}
    ensures Size(Get(c, k, now).0) <= Size(c)
  {
    var i := Find(c.entries, k);
    if i >= 0 {
      var rest, r := RemoveAt(c.entries, i), Get(c, k, now).0.entries;
      RemoveAtKeys(c.entries, i);
      if now - c.entries[i].timestamp < c.ttl {
        assert r == rest + [c.entries[i]];
        AppendFreshKey(rest, c.entries[i]);
        assert Keys(r) == Keys(rest) + {k};
      } else {
        assert r == rest;
      }
    }
  }

  /** Expiry is lazy: the size counts expired entries until they are read,
      and reading one entry removes at most that entry. */
  lemma ExpiryIsLazy<K, V>(c: Lru<K, V>, k: K, now: int)
    requires Valid(c)
    ensures Size(Get(c, k, now).0) >= Size(c) - 1
    ensures Get(c, k, now).1.None? && k in Keys(c.entries) ==> Size(Get(c, k, now).0) == Size(c) - 1
  {
  }
}
