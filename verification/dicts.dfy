/** Python dicts as ordered association lists. Iteration order is insertion
    order; assigning to a present key keeps its position. */
module Dicts {

  import opened Wrappers

  type Dict<K, V> = seq<(K, V)>

  /** `list(d.keys())`. */
  function Keys<K, V>(d: Dict<K, V>): (r: seq<K>)
    ensures |r| == |d|
    ensures forall i :: 0 <= i < |d| ==> r[i] == d[i].0
  {
    seq(|d|, i requires 0 <= i < |d| => d[i].0)
  }

  /** `list(d.values())`. */
  function Values<K, V>(d: Dict<K, V>): (r: seq<V>)
    ensures |r| == |d|
    ensures forall i :: 0 <= i < |d| ==> r[i] == d[i].1
  {
    seq(|d|, i requires 0 <= i < |d| => d[i].1)
  }

  /** `set(d)`. */
  function KeySet<K(!new), V>(d: Dict<K, V>): (r: set<K>)
    ensures forall k :: k in r <==> k in Keys(d)
  {
    set i | 0 <= i < |d| :: d[i].0
  }

  /** No key is listed twice: the shape of every real dict. */
  predicate DistinctKeys<K(==), V>(d: Dict<K, V>) {
    forall i, j :: 0 <= i < j < |d| ==> d[i].0 != d[j].0
  }

  /** Position of the entry for `k`, when there is one. */
  function IndexOf<K(==), V>(d: Dict<K, V>, k: K, from: nat := 0): (r: Option<nat>)
    requires from <= |d|
    ensures r.Some? ==> from <= r.value < |d| && d[r.value].0 == k
    ensures r.Some? ==> forall j :: from <= j < r.value ==> d[j].0 != k
    ensures r.None? ==> forall j :: from <= j < |d| ==> d[j].0 != k
    decreases |d| - from
  {
    if from == |d| then None
    else if d[from].0 == k then Some(from)
    else IndexOf(d, k, from + 1)
  }

  /** `d.get(k)`. */
  function Get<K(==), V>(d: Dict<K, V>, k: K): (r: Option<V>)
    ensures r.Some? <==> k in Keys(d)
    ensures r.Some? ==> exists i :: 0 <= i < |d| && d[i] == (k, r.value)
    ensures DistinctKeys(d) ==> forall i :: 0 <= i < |d| && d[i].0 == k ==> r == Some(d[i].1)
  {
    match IndexOf(d, k)
    case Some(i) => Some(d[i].1)
    case None => None
  }

  /** `d[k] = v`: replaces the value in place when `k` is present, appends
      otherwise; no other entry changes. */
  function Put<K(==,!new), V>(d: Dict<K, V>, k: K, v: V): (r: Dict<K, V>)
    ensures Get(r, k) == Some(v)
    ensures forall k' :: k' != k ==> Get(r, k') == Get(d, k')
    ensures k in Keys(d) ==> Keys(r) == Keys(d)
    ensures k !in Keys(d) ==> Keys(r) == Keys(d) + [k]
    ensures |d| <= |r| && forall i :: 0 <= i < |d| ==> r[i].0 == d[i].0
    ensures forall i :: 0 <= i < |d| && d[i].0 != k ==> r[i] == d[i]
    ensures DistinctKeys(d) ==> DistinctKeys(r)
  {
    match IndexOf(d, k)
    case Some(i) =>
      var r := d[i := (k, v)];
      IndexOfSame(d, r, k);
      assert forall k' :: k' != k ==> IndexOf(r, k') == IndexOf(d, k') by {
        forall k' | k' != k ensures IndexOf(r, k') == IndexOf(d, k') {
          IndexOfSame(d, r, k');
        }
      }
      r
    case None =>
      var r := d + [(k, v)];
      IndexOfAppended(d, k, v);
      assert forall k' :: k' != k ==> IndexOf(r, k') == IndexOf(d, k') by {
        forall k' | k' != k ensures IndexOf(r, k') == IndexOf(d, k') {
          IndexOfSame(d, r, k');
        }
      }
      r
  }

  /** Two dicts agreeing on every position where either holds `k` find `k`
      at the same place. */
  lemma {:induction false} IndexOfSame<K, V>(d: Dict<K, V>, e: Dict<K, V>, k: K, from: nat := 0)
    requires from <= |d| <= |e|
    requires forall j :: 0 <= j < |d| ==> (d[j].0 == k <==> e[j].0 == k)
    requires forall j :: |d| <= j < |e| ==> e[j].0 != k
    ensures IndexOf(e, k, from) == IndexOf(d, k, from)
    decreases |d| - from
  {
    if from < |d| && d[from].0 != k {
      IndexOfSame(d, e, k, from + 1);
    } else if from == |d| && from < |e| {
      IndexOfNone(e, k, from);
    }
  }

  /** Past the last entry for `k` nothing is found. */
  lemma IndexOfNone<K, V>(e: Dict<K, V>, k: K, from: nat)
    requires from <= |e|
    requires forall j :: from <= j < |e| ==> e[j].0 != k
    ensures IndexOf(e, k, from) == None
  {
  }

  /** An appended key absent before is found at the end. */
  lemma {:induction false} IndexOfAppended<K, V>(d: Dict<K, V>, k: K, v: V, from: nat := 0)
    requires from <= |d|
    requires forall j :: 0 <= j < |d| ==> d[j].0 != k
    ensures IndexOf(d + [(k, v)], k, from) == Some(|d|)
    decreases |d| - from
  {
    if from < |d| {
      IndexOfAppended(d, k, v, from + 1);
    }
  }

  /** `d |= e`: every entry of `e`, in order, assigned into `d`. */
  function Update<K(==,!new), V>(d: Dict<K, V>, e: Dict<K, V>): (r: Dict<K, V>)
    ensures forall k :: k in Keys(r) <==> k in Keys(d) || k in Keys(e)
    ensures |d| <= |r| && forall i :: 0 <= i < |d| ==> r[i].0 == d[i].0
    ensures forall k :: k !in Keys(e) ==> Get(r, k) == Get(d, k)
    ensures DistinctKeys(e) ==> forall k :: k in Keys(e) ==> Get(r, k) == Get(e, k)
    ensures DistinctKeys(d) ==> DistinctKeys(r)
    decreases |e|
  {
    if |e| == 0 then d
    else
      var d' := Put(d, e[0].0, e[0].1);
      var r := Update(d', e[1..]);
      UpdateStep(d, e, d', r);
      r
  }

  /** One step of `Update`: the contract for `e` from the one for `e[1..]`. */
  lemma UpdateStep<K(!new), V>(d: Dict<K, V>, e: Dict<K, V>, d': Dict<K, V>, r: Dict<K, V>)
    requires |e| > 0 && d' == Put(d, e[0].0, e[0].1)
    requires forall k :: k in Keys(r) <==> k in Keys(d') || k in Keys(e[1..])
    requires |d'| <= |r| && forall i :: 0 <= i < |d'| ==> r[i].0 == d'[i].0
    requires forall k :: k !in Keys(e[1..]) ==> Get(r, k) == Get(d', k)
    requires DistinctKeys(e[1..]) ==> forall k :: k in Keys(e[1..]) ==> Get(r, k) == Get(e[1..], k)
    requires DistinctKeys(d') ==> DistinctKeys(r)
    ensures forall k :: k in Keys(r) <==> k in Keys(d) || k in Keys(e)
    ensures |d| <= |r| && forall i :: 0 <= i < |d| ==> r[i].0 == d[i].0
    ensures forall k :: k !in Keys(e) ==> Get(r, k) == Get(d, k)
    ensures DistinctKeys(e) ==> forall k :: k in Keys(e) ==> Get(r, k) == Get(e, k)
    ensures DistinctKeys(d) ==> DistinctKeys(r)
  {
    assert Keys(e) == [e[0].0] + Keys(e[1..]);
    assert forall k :: k in Keys(r) <==> k in Keys(d) || k in Keys(e) by {
      UpdateStepKeys(d, e, d', r);
    }
    assert forall k :: k !in Keys(e) ==> Get(r, k) == Get(d, k) by {
      UpdateStepOthers(d, e, d', r);
    }
    assert DistinctKeys(e) ==> forall k :: k in Keys(e) ==> Get(r, k) == Get(e, k) by {
      if DistinctKeys(e) {
        DistinctTail(e);
        UpdateStepGet(e, r);
      }
    }
  }

  /** A dict without repeated keys keeps its first key out of its tail, and
      its tail has no repeated keys either. */
  lemma DistinctTail<K, V>(e: Dict<K, V>)
    requires |e| > 0 && DistinctKeys(e)
    ensures e[0].0 !in Keys(e[1..]) && DistinctKeys(e[1..])
  {
    forall i | 0 <= i < |e| - 1 ensures Keys(e[1..])[i] != e[0].0 {
      assert e[1..][i] == e[i + 1];
    }
  }

  /** The key part of `UpdateStep`. */
  lemma UpdateStepKeys<K(!new), V>(d: Dict<K, V>, e: Dict<K, V>, d': Dict<K, V>, r: Dict<K, V>)
    requires |e| > 0 && d' == Put(d, e[0].0, e[0].1)
    requires forall k :: k in Keys(r) <==> k in Keys(d') || k in Keys(e[1..])
    ensures forall k :: k in Keys(r) <==> k in Keys(d) || k in Keys(e)
  {
    assert Keys(e) == [e[0].0] + Keys(e[1..]);
  }

  /** The part of `UpdateStep` about keys `e` does not hold. */
  lemma UpdateStepOthers<K(!new), V>(d: Dict<K, V>, e: Dict<K, V>, d': Dict<K, V>, r: Dict<K, V>)
    requires |e| > 0 && d' == Put(d, e[0].0, e[0].1)
    requires forall k :: k !in Keys(e[1..]) ==> Get(r, k) == Get(d', k)
    ensures forall k :: k !in Keys(e) ==> Get(r, k) == Get(d, k)
  {
    assert Keys(e) == [e[0].0] + Keys(e[1..]);
  }

  /** The value part of `UpdateStep`. */
  lemma UpdateStepGet<K(!new), V>(e: Dict<K, V>, r: Dict<K, V>)
    requires |e| > 0 && DistinctKeys(e)
    requires Get(r, e[0].0) == Some(e[0].1)
    requires forall k :: k in Keys(e[1..]) ==> Get(r, k) == Get(e[1..], k)
    ensures forall k :: k in Keys(e) ==> Get(r, k) == Get(e, k)
  {
    assert Keys(e) == [e[0].0] + Keys(e[1..]);
    forall k | k in Keys(e) ensures Get(r, k) == Get(e, k) {
      if k != e[0].0 {
        IndexOfShift(e, k);
      }
    }
  }

  /** Looking past a first entry that does not hold `k`. */
  lemma IndexOfShift<K, V>(e: Dict<K, V>, k: K)
    requires |e| > 0 && e[0].0 != k
    ensures Get(e, k) == Get(e[1..], k)
  {
    var t := e[1..];
    if Get(t, k).Some? {
      var i :| 0 <= i < |t| && t[i].0 == k;
      assert e[i + 1] == t[i];
    }
    IndexOfTail(e, k, 1);
  }

  /** `IndexOf` from position `from` is `IndexOf` on the tail, shifted. */
  lemma {:induction false} IndexOfTail<K, V>(e: Dict<K, V>, k: K, from: nat)
    requires 1 <= from <= |e|
    ensures IndexOf(e, k, from) == match IndexOf(e[1..], k, from - 1)
                                   case Some(j) => Some(j + 1)
                                   case None => None
    decreases |e| - from
  {
    if from < |e| {
      assert e[from] == e[1..][from - 1];
      IndexOfTail(e, k, from + 1);
    }
  }

  /** `{k: v for k, v in pairs}`: later pairs overwrite earlier ones. */
  function FromPairs<K(==,!new), V>(pairs: seq<(K, V)>): (r: Dict<K, V>)
    ensures DistinctKeys(r)
    ensures forall k :: k in Keys(r) <==> k in Keys(pairs)
  {
    Update([], pairs)
  }

  /** Assigning entries whose keys are all new, and distinct among
      themselves, appends them in order. */
  lemma {:induction false} UpdateFresh<K(!new), V>(d: Dict<K, V>, e: Dict<K, V>)
    requires DistinctKeys(d + e)
    ensures Update(d, e) == d + e
    decreases |e|
  {
    if |e| > 0 {
      var k := e[0].0;
      assert forall i :: 0 <= i < |d| ==> (d + e)[i] == d[i];
      assert (d + e)[|d|] == e[0];
      assert IndexOf(d, k) == None;
      var d' := d + [e[0]];
      assert Put(d, k, e[0].1) == d';
      assert d' + e[1..] == d + e;
      UpdateFresh(d', e[1..]);
    }
  }

  /** Putting a key that is not there appends it. */
  lemma PutFresh<K(!new), V>(d: Dict<K, V>, k: K, v: V)
    requires k !in Keys(d)
    ensures Put(d, k, v) == d + [(k, v)]
  {
  }

  /** Building a dict from pairs with distinct keys keeps them as they are. */
  lemma FromPairsDistinct<K(!new), V>(pairs: seq<(K, V)>)
    requires DistinctKeys(pairs)
    ensures FromPairs(pairs) == pairs
  {
    assert [] + pairs == pairs;
    UpdateFresh([], pairs);
  }

  /** When every value of `e` is `f` of its key, `d |= e` maps each key of
      `e` to `f` of it, whatever repeats `e` holds. */
  lemma {:induction false} UpdateBy<K(!new), V>(d: Dict<K, V>, e: Dict<K, V>, f: K -> V)
    requires forall i :: 0 <= i < |e| ==> e[i].1 == f(e[i].0)
    ensures forall k :: k in Keys(e) ==> Get(Update(d, e), k) == Some(f(k))
    decreases |e|
  {
    if |e| > 0 {
      var d' := Put(d, e[0].0, e[0].1);
      assert forall i :: 0 <= i < |e| - 1 ==> e[1..][i] == e[i + 1];
      UpdateBy(d', e[1..], f);
      forall k | k in Keys(e) ensures Get(Update(d, e), k) == Some(f(k)) {
        if k !in Keys(e[1..]) {
          assert k == e[0].0;
        }
      }
    }
  }

  /** `{k: f(k) for k in keys}`: each key once, mapped to `f` of it. */
  function FromKeys<K(==,!new), V>(keys: seq<K>, f: K -> V): (r: Dict<K, V>)
    ensures DistinctKeys(r)
    ensures forall k :: k in Keys(r) <==> k in keys
    ensures forall k :: k in keys ==> Get(r, k) == Some(f(k))
  {
    var pairs := seq(|keys|, i requires 0 <= i < |keys| => (keys[i], f(keys[i])));
    assert forall k :: k in Keys(pairs) <==> k in keys by {
      forall k ensures k in Keys(pairs) <==> k in keys {
        if k in keys {
          var i :| 0 <= i < |keys| && keys[i] == k;
          assert Keys(pairs)[i] == k;
        }
      }
    }
    UpdateBy([], pairs, f);
    FromPairs(pairs)
  }

  /** Entry `j` of `e` is the last one under its key. */
  predicate LastKeyAt<K(==), V>(e: Dict<K, V>, j: int) {
    0 <= j < |e| && forall j' :: j < j' < |e| ==> e[j'].0 != e[j].0
  }

  /** `d |= e` maps a key of `e` to the value of its last entry in `e`,
      whatever repeats `e` holds. */
  lemma {:induction false} UpdateLast<K(!new), V>(d: Dict<K, V>, e: Dict<K, V>, j: nat)
    requires LastKeyAt(e, j)
    ensures Get(Update(d, e), e[j].0) == Some(e[j].1)
    decreases |e|
  {
    var d' := Put(d, e[0].0, e[0].1);
    if j == 0 {
      assert e[0].0 !in Keys(e[1..]) by {
        forall i | 0 <= i < |e| - 1 ensures Keys(e[1..])[i] != e[0].0 {
          assert e[1..][i] == e[i + 1];
        }
      }
    } else {
      assert LastKeyAt(e[1..], j - 1) by {
        forall j' | j - 1 < j' < |e| - 1 ensures e[1..][j'].0 != e[1..][j - 1].0 {
          assert e[1..][j'] == e[j' + 1];
        }
      }
      UpdateLast(d', e[1..], j - 1);
    }
  }

  /** When every entry of `e` under `k` holds `v`, `d |= e` maps `k` to `v`,
      provided `e` or `d` has it. */
  lemma {:induction false} UpdateSameValue<K(!new), V>(d: Dict<K, V>, e: Dict<K, V>, k: K, v: V)
    requires forall i :: 0 <= i < |e| && e[i].0 == k ==> e[i].1 == v
    requires (exists i :: 0 <= i < |e| && e[i].0 == k) || Get(d, k) == Some(v)
    ensures Get(Update(d, e), k) == Some(v)
    decreases |e|
  {
    if |e| > 0 {
      var d' := Put(d, e[0].0, e[0].1);
      assert forall i :: 0 <= i < |e| - 1 ==> e[1..][i] == e[i + 1];
      if e[0].0 != k && exists i :: 0 <= i < |e| && e[i].0 == k {
        var i :| 0 <= i < |e| && e[i].0 == k;
        assert e[1..][i - 1].0 == k;
      }
      UpdateSameValue(d', e[1..], k, v);
    }
  }

  /** `ks` followed by each element of `xs` it does not hold yet, in the
      order of first occurrence: the key list of a dict after assigning
      the keys `xs` in turn. */
  function AppendNew<K(==,!new)>(ks: seq<K>, xs: seq<K>): (r: seq<K>)
    ensures ks <= r
    ensures forall k :: k in r <==> k in ks || k in xs
    decreases |xs|
  {
    if |xs| == 0 then ks
    else AppendNew(if xs[0] in ks then ks else ks + [xs[0]], xs[1..])
  }

  /** Assigning a first key and then the rest. */
  lemma AppendNewCons<K(!new)>(ks: seq<K>, x: K, xs: seq<K>)
    ensures AppendNew(ks, [x] + xs) == AppendNew(if x in ks then ks else ks + [x], xs)
  {
    assert ([x] + xs)[1..] == xs;
  }

  /** `d |= e` keeps the keys of `d` in place and appends the keys of `e`
      it lacks, in the order they first appear in `e`. */
  lemma {:induction false} UpdateKeys<K(!new), V>(d: Dict<K, V>, e: Dict<K, V>)
    ensures Keys(Update(d, e)) == AppendNew(Keys(d), Keys(e))
    decreases |e|
  {
    if |e| > 0 {
      var k := e[0].0;
      var d' := Put(d, k, e[0].1);
      UpdateKeys(d', e[1..]);
      KeysCons(e);
      AppendNewCons(Keys(d), k, Keys(e[1..]));
    }
  }

  /** The keys of a non-empty dict: its first key, then those of the rest. */
  lemma KeysCons<K, V>(e: Dict<K, V>)
    requires |e| > 0
    ensures Keys(e) == [e[0].0] + Keys(e[1..])
  {
  }

  /** Assigning the keys `a` and then the keys `b` is assigning `a + b`. */
  lemma {:induction false} AppendNewAppend<K(!new)>(ks: seq<K>, a: seq<K>, b: seq<K>)
    ensures AppendNew(ks, a + b) == AppendNew(AppendNew(ks, a), b)
    decreases |a|
  {
    if |a| == 0 {
      assert a + b == b;
    } else {
      var ks' := if a[0] in ks then ks else ks + [a[0]];
      assert a + b == [a[0]] + (a[1..] + b);
      AppendNewCons(ks, a[0], a[1..] + b);
      assert a == [a[0]] + a[1..];
      AppendNewCons(ks, a[0], a[1..]);
      AppendNewAppend(ks', a[1..], b);
    }
  }

  /** Assigning keys that are all present already changes nothing. */
  lemma {:induction false} AppendNewPresent<K(!new)>(ks: seq<K>, xs: seq<K>)
    requires forall x :: x in xs ==> x in ks
    ensures AppendNew(ks, xs) == ks
    decreases |xs|
  {
    if |xs| > 0 {
      AppendNewPresent(ks, xs[1..]);
    }
  }

  /** Assigning the keys of a dict built from `xs` is assigning `xs`:
      repeats in `xs` make no difference to the order. */
  lemma {:induction false} AppendNewNested<K(!new)>(ks: seq<K>, js: seq<K>, xs: seq<K>)
    ensures AppendNew(ks, AppendNew(js, xs)) == AppendNew(AppendNew(ks, js), xs)
    decreases |xs|
  {
    if |xs| > 0 {
      var x := xs[0];
      var js' := if x in js then js else js + [x];
      AppendNewNested(ks, js', xs[1..]);
      AppendNewCons(AppendNew(ks, js), x, xs[1..]);
      assert xs == [x] + xs[1..];
      if x !in js {
        AppendNewAppend(ks, js, [x]);
      }
    }
  }

  /** `{k: f(k) for k in keys}` holds its keys in the order of their first
      occurrence in `keys`. */
  lemma FromKeysOrder<K(!new), V>(keys: seq<K>, f: K -> V)
    ensures Keys(FromKeys(keys, f)) == AppendNew([], keys)
  {
    var pairs := seq(|keys|, i requires 0 <= i < |keys| => (keys[i], f(keys[i])));
    assert Keys(pairs) == keys;
    UpdateKeys([], pairs);
  }

  /** `{k: v for k, v in pairs}` holds its keys in the order of their first
      occurrence in `pairs`. */
  lemma FromPairsOrder<K(!new), V>(pairs: seq<(K, V)>)
    ensures Keys(FromPairs(pairs)) == AppendNew([], Keys(pairs))
  {
    UpdateKeys([], pairs);
  }

  /** Dicts listing the same keys, in any order, have the same key set. */
  lemma SameKeySet<K(!new), V, W>(d: Dict<K, V>, e: Dict<K, W>)
    requires forall k :: k in Keys(d) <==> k in Keys(e)
    ensures KeySet(d) == KeySet(e)
  {
    assert forall k :: k in KeySet(d) <==> k in KeySet(e);
  }
}
