/** The size-bounded least-recently-used cache of src/resourceLimits.js.

    The insertion-ordered Map is a sequence of entries, oldest first, with distinct keys.
    The class works in place; the functions say what each operation does to the sequence;
    the lemmas say what a whole trace of accesses leaves behind. */
module LruCache {
  import opened Prelude

  datatype Entry<K, V> = Entry(key: K, value: V, size: int)

  predicate Has<K(==), V>(es: seq<Entry<K, V>>, k: K) {
    es != [] && (es[0].key == k || Has(es[1..], k))
  }

  predicate DistinctKeys<K(==), V>(es: seq<Entry<K, V>>) {
    forall i, j :: 0 <= i < j < |es| ==> es[i].key != es[j].key
  }

  function Bytes<K, V>(es: seq<Entry<K, V>>): int {
    if es == [] then 0 else es[0].size + Bytes(es[1..])
  }

  /** Map.prototype.delete */
  function Without<K(==), V>(es: seq<Entry<K, V>>, k: K): (r: seq<Entry<K, V>>)
    ensures forall e :: e in r ==> e in es && e.key != k
    ensures forall e :: e in es && e.key != k ==> e in r
  {
    if es == [] then [] else (if es[0].key == k then [] else [es[0]]) + Without(es[1..], k)
  }

  /** The first suffix, starting from the whole sequence, that fits. */
  function Evicted<K, V>(es: seq<Entry<K, V>>, max: int): seq<Entry<K, V>> {
    if es == [] || Bytes(es) <= max then es else Evicted(es[1..], max)
  }

  /** `get`: a hit moves the entry to the young end. */
  function Touched<K(==), V>(es: seq<Entry<K, V>>, k: K): seq<Entry<K, V>> {
    match Lookup(es, k)
    case None => es
    case Some(e) => Without(es, k) + [e]
  }

  function Lookup<K(==), V>(es: seq<Entry<K, V>>, k: K): (r: Option<Entry<K, V>>)
    ensures r.None? <==> !Has(es, k)
    ensures r.Some? ==> r.value in es && r.value.key == k
  {
    if es == [] then None else if es[0].key == k then Some(es[0]) else Lookup(es[1..], k)
  }

  /** `set` for a size within the limit. */
  function Stored<K(==), V>(es: seq<Entry<K, V>>, k: K, v: V, size: int, max: int): seq<Entry<K, V>> {
    Evicted(Without(es, k) + [Entry(k, v, size)], max)
  }

  /** `_bytes` and the entries, updated in place. */
  class SizedLruCache<K(==), V> {
    const maxBytes: int
    var bytes: int
    var entries: seq<Entry<K, V>>

    ghost predicate Valid()
      reads this
    {
      DistinctKeys(entries) && bytes == Bytes(entries)
    }

    constructor (maxBytes: int)
      ensures Valid() && entries == [] && this.maxBytes == maxBytes
    {
      this.maxBytes := maxBytes;
      bytes := 0;
      entries := [];
    }

    method Get(k: K) returns (r: Option<V>)
      requires Valid()
      modifies this
      ensures Valid() && entries == Touched(old(entries), k)
      ensures bytes == old(bytes)
      ensures r.Some? <==> Has(old(entries), k)
      ensures r.Some? ==> exists e :: e in old(entries) && e.key == k && e.value == r.value
    {
      var entry := Lookup(entries, k);
      if entry.None? { return None; }
      WithoutDistinct(entries, k);
      BytesWithout(entries, entry.value);
      BytesAppend(Without(entries, k), [entry.value]);
      entries := Without(entries, k) + [entry.value];
      r := Some(entry.value.value);
    }

    /** A value larger than the whole cache is refused before anything changes. */
    method Set(k: K, v: V, size: int) returns (ok: bool)
      requires Valid()
      modifies this
      ensures Valid()
      ensures ok <==> size <= maxBytes
      ensures !ok ==> entries == old(entries)
      ensures ok ==> entries == Stored(old(entries), k, v, size, maxBytes)
      ensures ok ==> bytes <= maxBytes && entries != [] && entries[|entries| - 1] == Entry(k, v, size)
    {
      if size > maxBytes { return false; }
      Remove(k);
      StoreNew(k, v, size);
      return true;
    }

    method Remove(k: K)
      requires Valid()
      modifies this
      ensures Valid() && entries == Without(old(entries), k) && k !in Keys(entries)
    {
      WithoutDistinct(entries, k);
      var existing := Lookup(entries, k);
      if existing.Some? {
        BytesWithout(entries, existing.value);
        entries := Without(entries, k);
        bytes := bytes - existing.value.size;
      } else {
        WithoutAbsent(entries, k);
      }
    }

    /** The second half of `set`: the key is absent by now. */
    method StoreNew(k: K, v: V, size: int)
      requires Valid() && k !in Keys(entries) && size <= maxBytes
      modifies this
      ensures Valid() && entries == Evicted(old(entries) + [Entry(k, v, size)], maxBytes)
      ensures bytes <= maxBytes && entries != [] && entries[|entries| - 1] == Entry(k, v, size)
    {
      BytesAppend(entries, [Entry(k, v, size)]);
      assert forall i :: 0 <= i < |entries| ==> entries[i].key == Keys(entries)[i];
      entries := entries + [Entry(k, v, size)];
      bytes := bytes + size;
      NewestSurvives(entries, maxBytes);
      Evict();
    }

    method Clear()
      modifies this
      ensures Valid() && entries == []
    {
      entries := [];
      bytes := 0;
    }

    method Evict()
      requires Valid()
      modifies this
      ensures Valid() && entries == Evicted(old(entries), maxBytes)
    {
      while bytes > maxBytes
        invariant Valid()
        invariant Evicted(entries, maxBytes) == Evicted(old(entries), maxBytes)
        decreases |entries|
      {
        if entries == [] { break; }
        var oldest := entries[0];
        entries := entries[1..];
        bytes := bytes - oldest.size;
      }
    }
  }

  lemma {:induction false} BytesAppend<K, V>(a: seq<Entry<K, V>>, b: seq<Entry<K, V>>)
    ensures Bytes(a + b) == Bytes(a) + Bytes(b)
  {
    if a == [] {
      assert a + b == b;
    } else {
      assert (a + b)[1..] == a[1..] + b;
      BytesAppend(a[1..], b);
    }
  }

  lemma {:induction false} WithoutAbsent<K, V>(es: seq<Entry<K, V>>, k: K)
    requires !Has(es, k)
    ensures Without(es, k) == es
  {
    if es != [] { WithoutAbsent(es[1..], k); }
  }

  lemma {:induction false} HasKey<K, V>(es: seq<Entry<K, V>>, k: K)
    ensures Has(es, k) <==> k in Keys(es)
  {
    if es != [] {
      HasKey(es[1..], k);
      assert Keys(es) == [es[0].key] + Keys(es[1..]);
    }
  }

  lemma {:induction false} WithoutDistinct<K, V>(es: seq<Entry<K, V>>, k: K)
    requires DistinctKeys(es)
    ensures DistinctKeys(Without(es, k))
    ensures k !in Keys(Without(es, k))
  {
    if es != [] {
      WithoutDistinct(es[1..], k);
      var rest := Without(es[1..], k);
      forall e | e in rest ensures e.key != es[0].key {
        assert e in es[1..];
        var i :| 0 <= i < |es[1..]| && es[1..][i] == e;
        assert es[i + 1] == e;
      }
      assert Without(es, k) == (if es[0].key == k then [] else [es[0]]) + rest;
    }
  }

  lemma {:induction false} BytesWithout<K, V>(es: seq<Entry<K, V>>, e: Entry<K, V>)
    requires DistinctKeys(es) && e in es
    ensures Bytes(Without(es, e.key)) == Bytes(es) - e.size
  {
    if es[0].key == e.key {
      assert e == es[0];
      HasKey(es[1..], e.key);
      WithoutAbsent(es[1..], e.key);
      assert Without(es, e.key) == es[1..];
    } else {
      BytesWithout(es[1..], e);
      BytesAppend([es[0]], Without(es[1..], e.key));
    }
  }

  /** Eviction brings the total within the limit and never reaches the newest entry. */
  lemma {:induction false} NewestSurvives<K, V>(es: seq<Entry<K, V>>, max: int)
    requires es != [] && es[|es| - 1].size <= max
    ensures Evicted(es, max) != []
    ensures Bytes(Evicted(es, max)) <= max
    ensures Evicted(es, max)[|Evicted(es, max)| - 1] == es[|es| - 1]
  {
    if Bytes(es) > max {
      BytesAppend(es[..|es| - 1], [es[|es| - 1]]);
      assert es == es[..|es| - 1] + [es[|es| - 1]];
      NewestSurvives(es[1..], max);
    }
  }

  // ---- Traces of accesses --------------------------------------------------------------

  /** `Fetch` is a `get` followed by a `set` on a miss; `Write` is a bare `set`. */
  datatype Access<K> = Fetch(key: K) | Write(key: K)

  /** One access, every key having one size; values play no part. */
  function AccessStep<K(==)>(es: seq<Entry<K, ()>>, a: Access<K>, size: K -> nat, max: int): seq<Entry<K, ()>> {
    if a.Fetch? && Has(es, a.key) then Touched(es, a.key)
    else if size(a.key) > max then es
    else Stored(es, a.key, (), size(a.key), max)
  }

  function Run<K(==)>(trace: seq<Access<K>>, size: K -> nat, max: int): seq<Entry<K, ()>> {
    if trace == [] then []
    else AccessStep(Run(trace[..|trace| - 1], size, max), trace[|trace| - 1], size, max)
  }

  function Minus<K(==)>(ks: seq<K>, k: K): (r: seq<K>)
    ensures forall x :: x in r ==> x in ks && x != k
    ensures forall x :: x in ks && x != k ==> x in r
  {
    if ks == [] then [] else (if ks[0] == k then [] else [ks[0]]) + Minus(ks[1..], k)
  }

  /** The keys of a trace in order of last use, oldest first. */
  function ByLastUse<K(==)>(trace: seq<Access<K>>): seq<K> {
    if trace == [] then []
    else Minus(ByLastUse(trace[..|trace| - 1]), trace[|trace| - 1].key) + [trace[|trace| - 1].key]
  }

  function Total<K>(ks: seq<K>, size: K -> nat): nat {
    if ks == [] then 0 else size(ks[0]) + Total(ks[1..], size)
  }

  /** The longest suffix of `ks` whose sizes add up to at most `max`. */
  function Newest<K>(ks: seq<K>, size: K -> nat, max: int): (r: seq<K>)
    ensures |r| <= |ks|
  {
    if ks == [] || Total(ks, size) <= max then ks else Newest(ks[1..], size, max)
  }

  lemma {:induction false} NewestFits<K>(ks: seq<K>, size: K -> nat, max: int)
    ensures Newest(ks, size, max) == ks[|ks| - |Newest(ks, size, max)|..]
    ensures max >= 0 ==> Total(Newest(ks, size, max), size) <= max
  {
    if ks != [] && Total(ks, size) > max { NewestFits(ks[1..], size, max); }
  }

  lemma {:induction false} NewestIsLongest<K>(ks: seq<K>, size: K -> nat, max: int, n: nat)
    requires |Newest(ks, size, max)| < n <= |ks|
    ensures Total(ks[|ks| - n..], size) > max
  {
    if n < |ks| {
      assert ks[|ks| - n..] == ks[1..][|ks[1..]| - n..];
      NewestIsLongest(ks[1..], size, max, n);
    } else {
      assert ks[|ks| - n..] == ks;
    }
  }

  function Keys<K, V>(es: seq<Entry<K, V>>): (r: seq<K>)
    ensures |r| == |es| && forall i :: 0 <= i < |es| ==> r[i] == es[i].key
  {
    seq(|es|, i requires 0 <= i < |es| => es[i].key)
  }

  ghost predicate Sized<K>(es: seq<Entry<K, ()>>, size: K -> nat) {
    forall e :: e in es ==> e.size == size(e.key)
  }

  /** The accesses that a cache with this limit does not refuse. */
  function Cacheable<K>(trace: seq<Access<K>>, size: K -> nat, max: int): seq<Access<K>> {
    if trace == [] then [] else
      var a := trace[|trace| - 1];
      Cacheable(trace[..|trace| - 1], size, max) + if size(a.key) <= max then [a] else []
  }

  /** No key is refused by the one limit and taken by the other. */
  ghost predicate NoneBetween<K>(trace: seq<Access<K>>, size: K -> nat, lo: int, hi: int) {
    forall a :: a in trace ==> !(lo < size(a.key) <= hi)
  }

  lemma {:induction false} TotalAppend<K>(a: seq<K>, b: seq<K>, size: K -> nat)
    ensures Total(a + b, size) == Total(a, size) + Total(b, size)
  {
    if a == [] {
      assert a + b == b;
    } else {
      assert (a + b)[1..] == a[1..] + b;
      TotalAppend(a[1..], b, size);
    }
  }

  lemma {:induction false} MinusAbsent<K>(ks: seq<K>, k: K)
    requires k !in ks
    ensures Minus(ks, k) == ks
  {
    if ks != [] { MinusAbsent(ks[1..], k); }
  }

  lemma {:induction false} MinusAppend<K>(a: seq<K>, b: seq<K>, k: K)
    ensures Minus(a + b, k) == Minus(a, k) + Minus(b, k)
  {
    if a == [] {
      assert a + b == b;
    } else {
      assert (a + b)[1..] == a[1..] + b;
      MinusAppend(a[1..], b, k);
    }
  }

  ghost predicate Distinct<K>(ks: seq<K>) {
    forall i, j :: 0 <= i < j < |ks| ==> ks[i] != ks[j]
  }

  lemma {:induction false} MinusDistinct<K>(ks: seq<K>, k: K, size: K -> nat)
    requires Distinct(ks)
    ensures Distinct(Minus(ks, k))
    ensures k in ks ==> Total(Minus(ks, k), size) == Total(ks, size) - size(k)
  {
    if ks != [] {
      assert ks[0] !in ks[1..];
      MinusDistinct(ks[1..], k, size);
      if ks[0] == k { MinusAbsent(ks[1..], k); assert Minus(ks, k) == ks[1..]; }
      else { TotalAppend([ks[0]], Minus(ks[1..], k), size); }
    }
  }

  lemma {:induction false} ByLastUseDistinct<K>(trace: seq<Access<K>>, size: K -> nat)
    ensures Distinct(ByLastUse(trace))
  {
    if trace != [] {
      ByLastUseDistinct(trace[..|trace| - 1], size);
      MinusDistinct(ByLastUse(trace[..|trace| - 1]), trace[|trace| - 1].key, size);
    }
  }

  /** A prefix whose last element already overflows the rest is dropped whole. */
  lemma {:induction false} NewestDropsPrefix<K>(p: seq<K>, s: seq<K>, size: K -> nat, max: int)
    requires p == [] || size(p[|p| - 1]) + Total(s, size) > max
    ensures Newest(p + s, size, max) == Newest(s, size, max)
  {
    if p == [] {
      assert p + s == s;
    } else {
      TotalAppend(p, s, size);
      TotalAppend(p[..|p| - 1], [p[|p| - 1]], size);
      assert p == p[..|p| - 1] + [p[|p| - 1]];
      assert (p + s)[1..] == p[1..] + s;
      NewestDropsPrefix(p[1..], s, size, max);
    }
  }

  /** What overflowed `f` still overflows once `k` has become newest. */
  lemma StillOverflows<K>(a: seq<K>, f: seq<K>, k: K, size: K -> nat, max: int)
    requires Distinct(a + f) && a != [] && size(a[|a| - 1]) + Total(f, size) > max
    ensures Minus(a, k) == [] || size(Minus(a, k)[|Minus(a, k)| - 1]) + Total(Minus(f, k) + [k], size) > max
  {
    var z := a[|a| - 1];
    assert a == a[..|a| - 1] + [z];
    MinusAppend(a[..|a| - 1], [z], k);
    TotalAppend(Minus(f, k), [k], size);
    if k in f {
      assert Distinct(f) by { assert forall i :: 0 <= i < |f| ==> f[i] == (a + f)[|a| + i]; }
      MinusDistinct(f, k, size);
      var i :| 0 <= i < |f| && f[i] == k;
      assert (a + f)[|a| + i] == k && (a + f)[|a| - 1] == z;
      assert Minus([z], k) == [z];
    } else {
      MinusAbsent(f, k);
      assert Minus([z], k) == if z == k then [] else [z];
    }
  }

  lemma JustOverflows<K>(m: seq<K>, a: seq<K>, f: seq<K>, size: K -> nat, max: int)
    requires f == Newest(m, size, max) && m == a + f && a != []
    ensures size(a[|a| - 1]) + Total(f, size) > max
  {
    assert m[|m| - (|f| + 1)..] == [a[|a| - 1]] + f;
    NewestIsLongest(m, size, max, |f| + 1);
    assert ([a[|a| - 1]] + f)[1..] == f;
  }

  /** Cutting down to what fits commutes with using a key once more. */
  lemma NewestAbsorbsUse<K>(m: seq<K>, k: K, size: K -> nat, max: int)
    requires Distinct(m)
    ensures Newest(Minus(Newest(m, size, max), k) + [k], size, max) == Newest(Minus(m, k) + [k], size, max)
  {
    var f := Newest(m, size, max);
    var a := m[..|m| - |f|];
    assert m == a + f by { NewestFits(m, size, max); }
    if a != [] {
      JustOverflows(m, a, f, size, max);
      StillOverflows(a, f, k, size, max);
    }
    NewestDropsPrefix(Minus(a, k), Minus(f, k) + [k], size, max);
    assert Minus(m, k) + [k] == Minus(a, k) + (Minus(f, k) + [k]) by { MinusAppend(a, f, k); }
  }

  lemma {:induction false} NewestNested<K>(m: seq<K>, size: K -> nat, lo: int, hi: int)
    requires lo <= hi
    ensures var small, large := Newest(m, size, lo), Newest(m, size, hi);
            |small| <= |large| && small == large[|large| - |small|..]
  {
    if m == [] || Total(m, size) <= lo {
    } else if Total(m, size) <= hi {
      NewestFits(m, size, lo);
    } else {
      NewestNested(m[1..], size, lo, hi);
    }
  }

  lemma {:induction false} KeysWithout<K, V>(es: seq<Entry<K, V>>, k: K)
    ensures Keys(Without(es, k)) == Minus(Keys(es), k)
  {
    if es != [] {
      KeysWithout(es[1..], k);
      assert Keys(es)[1..] == Keys(es[1..]);
    }
  }

  lemma {:induction false} BytesIsTotal<K>(es: seq<Entry<K, ()>>, size: K -> nat)
    requires Sized(es, size)
    ensures Bytes(es) == Total(Keys(es), size)
  {
    if es != [] {
      assert Sized(es[1..], size);
      assert Keys(es)[1..] == Keys(es[1..]);
      BytesIsTotal(es[1..], size);
    }
  }

  lemma {:induction false} KeysEvicted<K>(es: seq<Entry<K, ()>>, size: K -> nat, max: int)
    requires Sized(es, size)
    ensures Keys(Evicted(es, max)) == Newest(Keys(es), size, max) && Sized(Evicted(es, max), size)
  {
    BytesIsTotal(es, size);
    if es != [] && Bytes(es) > max {
      assert Sized(es[1..], size);
      assert Keys(es)[1..] == Keys(es[1..]);
      KeysEvicted(es[1..], size, max);
    }
  }

  /** Either kind of access makes the key newest and then keeps what fits. */
  lemma AccessMakesNewest<K>(es: seq<Entry<K, ()>>, a: Access<K>, size: K -> nat, max: int)
    requires Sized(es, size) && Distinct(Keys(es)) && Total(Keys(es), size) <= max && size(a.key) <= max
    ensures Sized(AccessStep(es, a, size, max), size)
    ensures Keys(AccessStep(es, a, size, max)) == Newest(Minus(Keys(es), a.key) + [a.key], size, max)
  {
    var k := a.key;
    KeysWithout(es, k);
    if a.Fetch? && Has(es, k) {
      var e := Lookup(es, k).value;
      HasKey(es, k);
      assert Keys(Without(es, k) + [e]) == Minus(Keys(es), k) + [k];
      MinusDistinct(Keys(es), k, size);
      TotalAppend(Minus(Keys(es), k), [k], size);
    } else {
      var es' := Without(es, k) + [Entry(k, (), size(k))];
      assert Keys(es') == Minus(Keys(es), k) + [k];
      KeysEvicted(es', size, max);
    }
  }

  lemma {:induction false} PartOfTotal<K>(ks: seq<K>, size: K -> nat, k: K)
    requires k in ks
    ensures size(k) <= Total(ks, size)
  {
    if ks[0] != k { PartOfTotal(ks[1..], size, k); }
  }

  lemma {:induction false} NothingFits<K>(trace: seq<Access<K>>, size: K -> nat, max: int)
    requires max < 0
    ensures Cacheable(trace, size, max) == []
  {
    if trace != [] { NothingFits(trace[..|trace| - 1], size, max); }
  }

  /** A key that is refused was never stored, so the access changes nothing. */
  lemma RefusedChangesNothing<K>(es: seq<Entry<K, ()>>, a: Access<K>, size: K -> nat, max: int)
    requires size(a.key) > max && (es == [] || Total(Keys(es), size) <= max)
    ensures AccessStep(es, a, size, max) == es
  {
    HasKey(es, a.key);
    if Has(es, a.key) { PartOfTotal(Keys(es), size, a.key); }
  }

  lemma ByLastUseMore<K>(t: seq<Access<K>>, a: Access<K>)
    ensures ByLastUse(t + [a]) == Minus(ByLastUse(t), a.key) + [a.key]
  {
    assert (t + [a])[..|t|] == t;
  }

  /** After every trace, whatever the sizes and the limit, the cache holds exactly the longest
      most-recently-used run, among the keys it does not refuse, that fits. */
  lemma {:induction false} HoldsNewestRun<K>(trace: seq<Access<K>>, size: K -> nat, max: int)
    ensures Keys(Run(trace, size, max)) == Newest(ByLastUse(Cacheable(trace, size, max)), size, max)
    ensures Sized(Run(trace, size, max), size)
  {
    if trace != [] {
      var t, a := trace[..|trace| - 1], trace[|trace| - 1];
      HoldsNewestRun(t, size, max);
      var es, kept := Run(t, size, max), Cacheable(t, size, max);
      assert Run(trace, size, max) == AccessStep(es, a, size, max);
      if max < 0 {
        NothingFits(t, size, max);
        assert kept == [] && Keys(es) == [];
      } else {
        NewestFits(ByLastUse(kept), size, max);
      }
      if size(a.key) <= max {
        KeepsNewestRun(es, kept, a, size, max);
        ByLastUseMore(kept, a);
      } else {
        assert kept + [] == kept;
        RefusedChangesNothing(es, a, size, max);
      }
    }
  }

  lemma KeepsNewestRun<K>(es: seq<Entry<K, ()>>, kept: seq<Access<K>>, a: Access<K>, size: K -> nat, max: int)
    requires Sized(es, size) && Keys(es) == Newest(ByLastUse(kept), size, max) && size(a.key) <= max
    ensures Keys(AccessStep(es, a, size, max)) == Newest(Minus(ByLastUse(kept), a.key) + [a.key], size, max)
    ensures Sized(AccessStep(es, a, size, max), size)
  {
    var m := ByLastUse(kept);
    assert Distinct(m) by { ByLastUseDistinct(kept, size); }
    assert Distinct(Keys(es)) && Total(Keys(es), size) <= max by { NewestFits(m, size, max); }
    AccessMakesNewest(es, a, size, max);
    NewestAbsorbsUse(m, a.key, size, max);
  }

  lemma {:induction false} SameCacheable<K>(trace: seq<Access<K>>, size: K -> nat, lo: int, hi: int)
    requires lo <= hi && NoneBetween(trace, size, lo, hi)
    ensures Cacheable(trace, size, lo) == Cacheable(trace, size, hi)
  {
    if trace != [] {
      assert NoneBetween(trace[..|trace| - 1], size, lo, hi);
      SameCacheable(trace[..|trace| - 1], size, lo, hi);
    }
  }

  // ---- Inclusion -------------------------------------------------------------------------------

  /** The part of `ks` from `k` on: what has been used since `k` was, and `k` itself. */
  function From<K(==)>(ks: seq<K>, k: K): seq<K> {
    if ks == [] || ks[0] == k then ks else From(ks[1..], k)
  }

  /** The bytes used since `k` was last used, counting only keys that the limit admits. */
  function Distance<K(==)>(trace: seq<Access<K>>, size: K -> nat, max: int, k: K): nat {
    Total(From(ByLastUse(Cacheable(trace, size, max)), k), size)
  }

  predicate Used<K(==)>(trace: seq<Access<K>>, size: K -> nat, max: int, k: K) {
    k in ByLastUse(Cacheable(trace, size, max))
  }

  lemma {:induction false} FromIsPart<K>(ks: seq<K>, k: K, size: K -> nat)
    ensures Total(From(ks, k), size) <= Total(ks, size)
  {
    if ks != [] && ks[0] != k { FromIsPart(ks[1..], k, size); }
  }

  lemma {:induction false} NewestKeeps<K>(ks: seq<K>, k: K, size: K -> nat, max: int)
    requires Distinct(ks)
    ensures k in Newest(ks, size, max) <==> k in ks && Total(From(ks, k), size) <= max
  {
    if ks == [] || Total(ks, size) <= max {
      FromIsPart(ks, k, size);
    } else {
      assert ks == [ks[0]] + ks[1..];
      assert ks[0] !in ks[1..];
      NewestKeeps(ks[1..], k, size, max);
    }
  }

  /** After every trace, for all sizes and every limit: a key is held if and only if it has been used and
      the bytes used since then fit the limit. */
  lemma HeldExactly<K>(trace: seq<Access<K>>, size: K -> nat, max: int, k: K)
    ensures Has(Run(trace, size, max), k) <==> Used(trace, size, max, k) && Distance(trace, size, max, k) <= max
  {
    var m := ByLastUse(Cacheable(trace, size, max));
    HoldsNewestRun(trace, size, max);
    HasKey(Run(trace, size, max), k);
    ByLastUseDistinct(Cacheable(trace, size, max), size);
    NewestKeeps(m, k, size, max);
  }

  /** A key that the smaller limit admits is used under the larger one too. */
  lemma {:induction false} UsedExactly<K>(trace: seq<Access<K>>, size: K -> nat, max: int, k: K)
    ensures Used(trace, size, max, k) <==> size(k) <= max && exists a :: a in trace && a.key == k
  {
    if trace != [] {
      var t, a := trace[..|trace| - 1], trace[|trace| - 1];
      UsedExactly(t, size, max, k);
      assert trace == t + [a];
      var kept := Cacheable(t, size, max);
      if size(a.key) <= max { ByLastUseMore(kept, a); } else { assert kept + [] == kept; }
      if a.key == k { assert a in trace; }
    }
  }

  ghost predicate Includes<K(!new)>(trace: seq<Access<K>>, size: K -> nat, lo: int, hi: int) {
    forall k :: Has(Run(trace, size, lo), k) ==> Has(Run(trace, size, hi), k)
  }

  /** Every key within the smaller limit's reach is within the larger limit's. */
  ghost predicate Reaches<K(!new)>(trace: seq<Access<K>>, size: K -> nat, lo: int, hi: int) {
    forall k :: Used(trace, size, lo, k) && Distance(trace, size, lo, k) <= lo ==> Distance(trace, size, hi, k) <= hi
  }

  /** After every trace, the larger cache contains the smaller one if and only if no key that is close
      enough for the smaller limit is pushed too far for the larger by keys that only it admits. */
  lemma InclusionExactly<K(!new)>(trace: seq<Access<K>>, size: K -> nat, lo: int, hi: int)
    requires lo <= hi
    ensures Includes(trace, size, lo, hi) <==> Reaches(trace, size, lo, hi)
  {
    forall k
      ensures (Has(Run(trace, size, lo), k) ==> Has(Run(trace, size, hi), k)) <==>
              (Used(trace, size, lo, k) && Distance(trace, size, lo, k) <= lo ==> Distance(trace, size, hi, k) <= hi)
    {
      HeldExactly(trace, size, lo, k);
      HeldExactly(trace, size, hi, k);
      UsedExactly(trace, size, lo, k);
      UsedExactly(trace, size, hi, k);
    }
  }

  /** In particular when no key is admitted by the larger limit alone: distances are then the same. */
  lemma ReachesWithoutBetween<K(!new)>(trace: seq<Access<K>>, size: K -> nat, lo: int, hi: int)
    requires lo <= hi && NoneBetween(trace, size, lo, hi)
    ensures Reaches(trace, size, lo, hi)
  {
    SameCacheable(trace, size, lo, hi);
  }

  /** The smaller cache is then not only contained in the larger one but is its newest part. */
  lemma LargerContainsSmaller<K(!new)>(trace: seq<Access<K>>, size: K -> nat, lo: int, hi: int)
    requires lo <= hi && NoneBetween(trace, size, lo, hi)
    ensures Includes(trace, size, lo, hi)
    ensures var small, large := Keys(Run(trace, size, lo)), Keys(Run(trace, size, hi));
            |small| <= |large| && small == large[|large| - |small|..]
  {
    ReachesWithoutBetween(trace, size, lo, hi);
    InclusionExactly(trace, size, lo, hi);
    HoldsNewestRun(trace, size, lo);
    HoldsNewestRun(trace, size, hi);
    SameCacheable(trace, size, lo, hi);
    NewestNested(ByLastUse(Cacheable(trace, size, lo)), size, lo, hi);
  }

  function Hits<K(==)>(trace: seq<Access<K>>, size: K -> nat, max: int): nat {
    if trace == [] then 0 else
      var t := trace[..|trace| - 1];
      Hits(t, size, max) + if Has(Run(t, size, max), trace[|trace| - 1].key) then 1 else 0
  }

  /** Growing the limit never loses a hit, as long as inclusion holds along the trace. */
  lemma {:induction false} HitsWhileIncluded<K(!new)>(trace: seq<Access<K>>, size: K -> nat, lo: int, hi: int)
    requires lo <= hi && forall n :: 0 <= n <= |trace| ==> Reaches(trace[..n], size, lo, hi)
    ensures Hits(trace, size, lo) <= Hits(trace, size, hi)
  {
    if trace != [] {
      var t := trace[..|trace| - 1];
      forall n | 0 <= n <= |t| ensures Reaches(t[..n], size, lo, hi) { assert t[..n] == trace[..n]; }
      HitsWhileIncluded(t, size, lo, hi);
      InclusionExactly(t, size, lo, hi);
    }
  }

  /** In particular when no key lies between the limits. */
  lemma HitsMonotone<K(!new)>(trace: seq<Access<K>>, size: K -> nat, lo: int, hi: int)
    requires lo <= hi && NoneBetween(trace, size, lo, hi)
    ensures Hits(trace, size, lo) <= Hits(trace, size, hi)
  {
    forall n | 0 <= n <= |trace| ensures Reaches(trace[..n], size, lo, hi) {
      assert NoneBetween(trace[..n], size, lo, hi);
      ReachesWithoutBetween(trace[..n], size, lo, hi);
    }
    HitsWhileIncluded(trace, size, lo, hi);
  }

  lemma CacheableMore<K>(t: seq<Access<K>>, a: Access<K>, size: K -> nat, max: int)
    ensures Cacheable(t + [a], size, max) == Cacheable(t, size, max) + if size(a.key) <= max then [a] else []
  {
    assert (t + [a])[..|t|] == t;
  }

  lemma UsesOfTwo<K>(a: K, b: K, size: K -> nat, max: int)
    requires a != b && size(a) <= max
    ensures ByLastUse(Cacheable([Write(a), Write(b)], size, max)) == if size(b) > max then [a] else [a] + [b]
  {
    var none: seq<Access<K>> := [];
    assert [Write(a), Write(b)] == none + [Write(a)] + [Write(b)];
    CacheableMore(none, Write(a), size, max);
    CacheableMore(none + [Write(a)], Write(b), size, max);
    ByLastUseMore(none, Write(a));
    ByLastUseMore(none + [Write(a)], Write(b));
    assert none + [Write(a)] + [] == none + [Write(a)];
    MinusAbsent([a], b);
  }

  /** The shortest case where it fails, for all sizes: after writing `a` and then a key between the limits,
      the small cache still holds `a`, and the large one exactly when the two fit together. */
  lemma OversizeBreaksInclusion<K(!new)>(a: K, b: K, size: K -> nat, lo: int, hi: int)
    requires a != b && size(a) <= lo < size(b) <= hi
    ensures Includes([Write(a), Write(b)], size, lo, hi) <==> size(a) + size(b) <= hi
  {
    var trace := [Write(a), Write(b)];
    UsesOfTwo(a, b, size, lo);
    UsesOfTwo(a, b, size, hi);
    TotalAppend([a], [b], size);
    assert Total([a], size) == size(a) && Total([b], size) == size(b);
    assert Distance(trace, size, lo, a) == size(a) && Distance(trace, size, hi, a) == size(a) + size(b);
    assert Used(trace, size, lo, a);
    InclusionExactly(trace, size, lo, hi);
  }

  // ---- What a hit returns ------------------------------------------------------------------------

  datatype Op<K, V> = GetOp(key: K) | SetOp(key: K, value: V, size: int)

  function OpStep<K(==), V>(es: seq<Entry<K, V>>, op: Op<K, V>, max: int): seq<Entry<K, V>> {
    match op
    case GetOp(k) => Touched(es, k)
    case SetOp(k, v, size) => if size > max then es else Stored(es, k, v, size, max)
  }

  function RunOps<K(==), V>(ops: seq<Op<K, V>>, max: int): seq<Entry<K, V>> {
    if ops == [] then [] else OpStep(RunOps(ops[..|ops| - 1], max), ops[|ops| - 1], max)
  }

  /** The value and size that were last set for `k` and not refused. */
  function LatestSet<K(==), V>(ops: seq<Op<K, V>>, k: K, max: int): Option<(V, int)> {
    if ops == [] then None else
      var op := ops[|ops| - 1];
      if op.SetOp? && op.key == k && op.size <= max then Some((op.value, op.size))
      else LatestSet(ops[..|ops| - 1], k, max)
  }

  lemma {:induction false} EvictedIsPart<K, V>(es: seq<Entry<K, V>>, max: int)
    ensures forall e :: e in Evicted(es, max) ==> e in es
  {
    if es != [] && Bytes(es) > max { EvictedIsPart(es[1..], max); }
  }

  /** In every run of gets and sets, with sizes that may change, every entry holds what was last set for its
      key; so a hit returns the value last set. */
  lemma {:induction false} HoldsLatestSets<K, V>(ops: seq<Op<K, V>>, max: int)
    ensures forall e :: e in RunOps(ops, max) ==> LatestSet(ops, e.key, max) == Some((e.value, e.size))
  {
    if ops != [] {
      var pre, op := ops[..|ops| - 1], ops[|ops| - 1];
      var es := RunOps(pre, max);
      HoldsLatestSets(pre, max);
      if op.SetOp? && op.size <= max {
        EvictedIsPart(Without(es, op.key) + [Entry(op.key, op.value, op.size)], max);
      }
    }
  }
}
