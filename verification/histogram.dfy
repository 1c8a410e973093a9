/** Frequency tables as the two pipelines build them: a count per key in
    first-seen order, then the entries sorted by descending count and cut to the
    palette capacity. */
module Histogram {
  import opened Common
  import opened OrderedMap

  type Table<K> = seq<Entry<K, nat>>

  /** `(t.get(k) || 0)`: the count stored for `k`, 0 when absent. */
  function CountOf<K(==)>(t: Table<K>, k: K): nat {
    Get(t, k).GetOr(0)
  }

  /** The counting loop `t.set(key, (t.get(key) || 0) + 1)` run over `ks` in order. */
  function Tally<K(==,!new)>(ks: seq<K>): (t: Table<K>)
    ensures DistinctKeys(t)
    decreases |ks|
  {
    if |ks| == 0 then []
    else
      var t := Tally(ks[..|ks| - 1]);
      var k := ks[|ks| - 1];
      Put(t, k, CountOf(t, k) + 1)
  }

  /** The table holds each key of `ks`, and no other. */
  lemma {:induction false} TallyKeys<K(!new)>(ks: seq<K>)
    ensures forall x :: x in KeySet(Tally(ks)) <==> x in ks
    decreases |ks|
  {
    if |ks| > 0 {
      var init := ks[..|ks| - 1];
      var last := ks[|ks| - 1];
      var t0 := Tally(init);
      TallyKeys(init);
      assert ks == init + [last];
      assert Tally(ks) == Put(t0, last, CountOf(t0, last) + 1);
      PutKeySet(t0, last, CountOf(t0, last) + 1);
    }
  }

  /** Each key is counted with its number of occurrences in `ks`. */
  lemma {:induction false} TallyCounts<K(!new)>(ks: seq<K>)
    ensures forall k :: CountOf(Tally(ks), k) == multiset(ks)[k]
    decreases |ks|
  {
    if |ks| > 0 {
      var init := ks[..|ks| - 1];
      var last := ks[|ks| - 1];
      var t0 := Tally(init);
      var t := Tally(ks);
      TallyCounts(init);
      assert ks == init + [last];
      assert multiset(ks) == multiset(init) + multiset{last};
      PutGet(t0, last, CountOf(t0, last) + 1);
      forall x ensures CountOf(t, x) == multiset(ks)[x] {
        if x != last {
          assert Get(t, x) == Get(t0, x);
        }
      }
    }
  }

  /** One more step of the counting loop. */
  lemma TallySnoc<K(!new)>(ks: seq<K>, k: K)
    ensures Tally(ks + [k]) == Put(Tally(ks), k, CountOf(Tally(ks), k) + 1)
  {
    var ks' := ks + [k];
    assert ks'[..|ks'| - 1] == ks;
    assert ks'[|ks'| - 1] == k;
  }

  /** Sum of all counts. */
  function Total<K>(t: Table<K>): nat {
    if |t| == 0 then 0 else Total(t[..|t| - 1]) + t[|t| - 1].value
  }

  lemma {:induction false} TotalAfterReplace<K>(t: Table<K>, i: nat, e: Entry<K, nat>)
    requires i < |t|
    ensures Total(t[i := e]) + t[i].value == Total(t) + e.value
    decreases |t|
  {
    var n := |t| - 1;
    if i < n {
      assert t[i := e][..n] == t[..n][i := e];
      TotalAfterReplace(t[..n], i, e);
    } else {
      assert t[i := e][..n] == t[..n];
    }
  }

  /** Every occurrence is counted once: the counts add up to the number of keys. */
  lemma {:induction false} TallyTotal<K(!new)>(ks: seq<K>)
    ensures Total(Tally(ks)) == |ks|
    decreases |ks|
  {
    if |ks| > 0 {
      var init := ks[..|ks| - 1];
      var k := ks[|ks| - 1];
      var t := Tally(init);
      TallyTotal(init);
      assert Tally(ks) == Put(t, k, CountOf(t, k) + 1);
      match IndexOf(t, k)
      case Some(i) =>
        assert t[i].key == k;
        GetFindsEntry(t, i);
        assert Tally(ks) == t[i := Entry(k, t[i].value + 1)];
        TotalAfterReplace(t, i, Entry(k, t[i].value + 1));
      case None =>
        assert Tally(ks) == t + [Entry(k, 1)];
        assert (t + [Entry(k, 1)])[..|t|] == t;
    }
  }

  predicate SortedDesc<K>(t: Table<K>) {
    forall i, j :: 0 <= i < j < |t| ==> t[i].value >= t[j].value
  }

  /** Inserts `e` in front of the first entry whose count does not exceed its own. */
  function Insert<K(==)>(e: Entry<K, nat>, t: Table<K>): (r: Table<K>)
    ensures |r| == |t| + 1
    ensures multiset(r) == multiset(t) + multiset{e}
  {
    if |t| == 0 || t[0].value <= e.value then
      [e] + t
    else
      assert t == [t[0]] + t[1..];
      [t[0]] + Insert(e, t[1..])
  }

  lemma {:induction false} InsertKeys<K>(e: Entry<K, nat>, t: Table<K>)
    ensures KeySet(Insert(e, t)) == KeySet(t) + {e.key}
    ensures DistinctKeys(t) && e.key !in KeySet(t) ==> DistinctKeys(Insert(e, t))
    decreases |t|
  {
    KeySetCons(e, t);
    if |t| > 0 && t[0].value > e.value {
      assert t == [t[0]] + t[1..];
      KeySetCons(t[0], t[1..]);
      InsertKeys(e, t[1..]);
      KeySetCons(t[0], Insert(e, t[1..]));
    }
  }

  lemma {:induction false} InsertSorted<K>(e: Entry<K, nat>, t: Table<K>)
    requires SortedDesc(t)
    ensures SortedDesc(Insert(e, t))
    decreases |t|
  {
    if |t| > 0 && t[0].value > e.value {
      var rest := Insert(e, t[1..]);
      InsertSorted(e, t[1..]);
      forall j | 0 <= j < |rest| ensures t[0].value >= rest[j].value {
        assert rest[j] in multiset(rest);
        if rest[j] != e {
          assert rest[j] in multiset(t[1..]);
          var k :| 0 <= k < |t[1..]| && t[1..][k] == rest[j];
          assert t[k + 1] == rest[j];
        }
      }
    }
  }

  /** `entries.sort((a, b) => b[1] - a[1])`. JavaScript's sort is stable, and a
      stable sort has a single possible result, which this insertion sort also
      produces: an entry is placed before the later entries of equal count. */
  function SortDesc<K(==)>(t: Table<K>): (r: Table<K>)
    ensures |r| == |t|
    ensures multiset(r) == multiset(t)
    ensures SortedDesc(r)
  {
    if |t| == 0 then []
    else
      assert t == [t[0]] + t[1..];
      InsertSorted(t[0], SortDesc(t[1..]));
      Insert(t[0], SortDesc(t[1..]))
  }

  lemma {:induction false} SortDescKeys<K>(t: Table<K>)
    ensures KeySet(SortDesc(t)) == KeySet(t)
    ensures DistinctKeys(t) ==> DistinctKeys(SortDesc(t))
    decreases |t|
  {
    if |t| > 0 {
      assert t == [t[0]] + t[1..];
      KeySetCons(t[0], t[1..]);
      SortDescKeys(t[1..]);
      InsertKeys(t[0], SortDesc(t[1..]));
    }
  }

  /** Each sorted entry carries the count the table holds for its key. */
  lemma SortDescCounts<K>(t: Table<K>)
    requires DistinctKeys(t)
    ensures forall i :: 0 <= i < |t| ==> CountOf(t, SortDesc(t)[i].key) == SortDesc(t)[i].value
  {
    var s := SortDesc(t);
    forall i | 0 <= i < |s| ensures CountOf(t, s[i].key) == s[i].value {
      assert s[i] in multiset(t);
      var j :| 0 <= j < |t| && t[j] == s[i];
      GetFindsEntry(t, j);
    }
  }

  /** `sorted.slice(0, n).map(([key]) => key)`: the keys of the `n` largest counts.
      They are distinct keys of `t`, in non-increasing count order, and none of the
      keys left out has a larger count than any key kept. */
  function TopKeys<K(==)>(t: Table<K>, n: nat): (top: seq<K>)
    requires DistinctKeys(t)
    ensures |top| == Min(n, |t|)
    ensures forall i, j :: 0 <= i < j < |top| ==> top[i] != top[j]
    ensures forall i :: 0 <= i < |top| ==> top[i] in KeySet(t)
    ensures forall i, j :: 0 <= i < j < |top| ==> CountOf(t, top[i]) >= CountOf(t, top[j])
    ensures forall k, e :: k in top && e in KeySet(t) && e !in top ==> CountOf(t, k) >= CountOf(t, e)
  {
    TopKeysPrefix(t, n);
    TopKeysDominate(t, n);
    Keys(SortDesc(t)[..Min(n, |t|)])
  }

  /** The keys of a prefix of the sorted entries are distinct keys of `t`, in
      non-increasing count order. */
  lemma TopKeysPrefix<K>(t: Table<K>, n: nat)
    requires DistinctKeys(t)
    ensures var top := Keys(SortDesc(t)[..Min(n, |t|)]);
      && |top| == Min(n, |t|)
      && (forall i, j :: 0 <= i < j < |top| ==> top[i] != top[j])
      && (forall i :: 0 <= i < |top| ==> top[i] in KeySet(t))
      && (forall i, j :: 0 <= i < j < |top| ==> CountOf(t, top[i]) >= CountOf(t, top[j]))
  {
    var s := SortDesc(t);
    var m := Min(n, |t|);
    var top := Keys(s[..m]);
    SortDescKeys(t);
    SortDescCounts(t);
    forall i | 0 <= i < m ensures top[i] == s[i].key && top[i] in KeySet(t) {
      assert s[i].key in KeySet(s);
    }
  }

  lemma TopKeysDominate<K>(t: Table<K>, n: nat)
    requires DistinctKeys(t)
    ensures var s := SortDesc(t); var top := Keys(s[..Min(n, |t|)]);
      forall k, e :: k in top && e in KeySet(t) && e !in top ==> CountOf(t, k) >= CountOf(t, e)
  {
    var s := SortDesc(t);
    var m := Min(n, |t|);
    SortDescCounts(t);
    forall k, e | k in Keys(s[..m]) && e in KeySet(t) && e !in Keys(s[..m])
      ensures CountOf(t, k) >= CountOf(t, e)
    {
      DominateKey(t, s, m, k, e);
    }
  }

  /** In a count-sorted permutation of `t`, a key among the first `m` has at
      least the count of a key of `t` that is not among them. */
  lemma DominateKey<K>(t: Table<K>, s: Table<K>, m: nat, k: K, e: K)
    requires multiset(s) == multiset(t) && SortedDesc(s) && m <= |s|
    requires forall i :: 0 <= i < |s| ==> CountOf(t, s[i].key) == s[i].value
    requires k in Keys(s[..m]) && e in KeySet(t) && e !in Keys(s[..m])
    ensures CountOf(t, k) >= CountOf(t, e)
  {
    var top := Keys(s[..m]);
    var i :| 0 <= i < m && top[i] == k;
    var j0 :| 0 <= j0 < |t| && t[j0].key == e;
    assert t[j0] in multiset(s);
    var j :| 0 <= j < |s| && s[j] == t[j0];
    forall j' | 0 <= j' < m ensures s[j'].key != e {
      assert top[j'] == s[j'].key;
      assert top[j'] in top;
    }
    assert s[i].value >= s[j].value;
  }
}
