/** Insertion-ordered tables, the way JavaScript's `Map` and plain objects whose
    keys are not array indices behave: assigning to a present key replaces its
    value in place, assigning to a new key appends it, and `entries()`,
    `Object.entries` and `Object.values` list the keys in first-insertion order. */
module OrderedMap {
  import opened Common

  datatype Entry<K, V> = Entry(key: K, value: V)

  function Keys<K, V>(t: seq<Entry<K, V>>): (ks: seq<K>)
    ensures |ks| == |t|
    ensures forall i :: 0 <= i < |t| ==> ks[i] == t[i].key
  {
    seq(|t|, i requires 0 <= i < |t| => t[i].key)
  }

  function KeySet<K, V>(t: seq<Entry<K, V>>): set<K> {
    set i | 0 <= i < |t| :: t[i].key
  }

  predicate DistinctKeys<K(==), V>(t: seq<Entry<K, V>>) {
    forall i, j :: 0 <= i < j < |t| ==> t[i].key != t[j].key
  }

  /** Position of `k` in `t`, if it is there. */
  function IndexOf<K(==), V>(t: seq<Entry<K, V>>, k: K): (r: Option<nat>)
    ensures r.None? <==> k !in KeySet(t)
    ensures r.Some? ==> r.value < |t| && t[r.value].key == k
    ensures r.Some? ==> forall j :: 0 <= j < r.value ==> t[j].key != k
  {
    if |t| == 0 then None
    else if t[0].key == k then Some(0)
    else
      var r := IndexOf(t[1..], k);
      assert KeySet(t) == {t[0].key} + KeySet(t[1..]) by {
        assert forall i :: 0 < i < |t| ==> t[i].key == t[1..][i - 1].key;
      }
      if r.None? then None else Some(r.value + 1)
  }

  /** `t.get(k)` / `t[k]`. */
  function Get<K(==), V>(t: seq<Entry<K, V>>, k: K): (r: Option<V>)
    ensures r.None? <==> k !in KeySet(t)
  {
    match IndexOf(t, k)
    case Some(i) => Some(t[i].value)
    case None => None
  }

  /** `t.set(k, v)` / `t[k] = v`. */
  function Put<K(==,!new), V>(t: seq<Entry<K, V>>, k: K, v: V): (t': seq<Entry<K, V>>)
    ensures k in KeySet(t')
    ensures DistinctKeys(t) ==> DistinctKeys(t')
  {
    match IndexOf(t, k)
    case Some(i) =>
      var t' := t[i := Entry(k, v)];
      assert KeySet(t') == KeySet(t) by {
        forall x | x in KeySet(t) ensures x in KeySet(t') {
          var j :| 0 <= j < |t| && t[j].key == x;
          assert t'[j].key == x;
        }
      }
      t'
    case None =>
      var t' := t + [Entry(k, v)];
      assert KeySet(t') == KeySet(t) + {k} by {
        assert t'[|t|].key == k;
        forall x | x in KeySet(t) ensures x in KeySet(t') {
          var j :| 0 <= j < |t| && t[j].key == x;
          assert t'[j].key == x;
        }
      }
      t'
  }

  /** After `t.set(k, v)`, `get(k)` returns `v` and every other key reads as before. */
  lemma PutGet<K(!new), V>(t: seq<Entry<K, V>>, k: K, v: V)
    ensures Get(Put(t, k, v), k) == Some(v)
    ensures forall k' :: k' != k ==> Get(Put(t, k, v), k') == Get(t, k')
  {
    match IndexOf(t, k)
    case Some(i) =>
      GetAfterReplace(t, i, k, v);
    case None =>
      GetAfterAppend(t, k, v);
  }

  /** `set` keeps the key order: a present key stays where it is, a new key goes
      last, and no other key appears or disappears. */
  lemma PutKeys<K(!new), V>(t: seq<Entry<K, V>>, k: K, v: V)
    ensures KeySet(Put(t, k, v)) == KeySet(t) + {k}
    ensures Keys(Put(t, k, v)) == if k in KeySet(t) then Keys(t) else Keys(t) + [k]
  {
    PutKeySet(t, k, v);
    var t' := Put(t, k, v);
    match IndexOf(t, k)
    case Some(i) =>
      assert t' == t[i := Entry(k, v)];
      forall x | x in KeySet(t) ensures x in KeySet(t') {
        var j :| 0 <= j < |t| && t[j].key == x;
        assert t'[j].key == x;
      }
      assert Keys(t') == Keys(t);
    case None =>
      assert t' == t + [Entry(k, v)];
      assert t'[|t|].key == k;
      forall x | x in KeySet(t) ensures x in KeySet(t') {
        var j :| 0 <= j < |t| && t[j].key == x;
        assert t'[j].key == x;
      }
      assert Keys(t') == Keys(t) + [k];
  }

  /** `set` adds its key and no other. */
  lemma PutKeySet<K(!new), V>(t: seq<Entry<K, V>>, k: K, v: V)
    ensures KeySet(Put(t, k, v)) == KeySet(t) + {k}
  {
    var t' := Put(t, k, v);
    match IndexOf(t, k)
    case Some(i) =>
      assert t' == t[i := Entry(k, v)];
      forall x | x in KeySet(t) ensures x in KeySet(t') {
        var j :| 0 <= j < |t| && t[j].key == x;
        assert t'[j].key == x;
      }
    case None =>
      assert t' == t + [Entry(k, v)];
      assert t'[|t|].key == k;
      forall x | x in KeySet(t) ensures x in KeySet(t') {
        var j :| 0 <= j < |t| && t[j].key == x;
        assert t'[j].key == x;
      }
  }

  /** Every entry after `set` is the new one or was there before. */
  lemma PutEntries<K(!new), V>(t: seq<Entry<K, V>>, k: K, v: V)
    ensures forall e :: e in Put(t, k, v) ==> e == Entry(k, v) || e in t
  {
    match IndexOf(t, k)
    case Some(i) =>
      forall e | e in Put(t, k, v) ensures e == Entry(k, v) || e in t {
        var j :| 0 <= j < |t| && Put(t, k, v)[j] == e;
        if j != i {
          assert t[j] == e;
        }
      }
    case None =>
  }

  /** Setting a new key appends it. */
  lemma PutNew<K(!new), V>(t: seq<Entry<K, V>>, k: K, v: V)
    requires k !in KeySet(t)
    ensures Put(t, k, v) == t + [Entry(k, v)]
  {
  }

  lemma GetAfterReplace<K, V>(t: seq<Entry<K, V>>, i: nat, k: K, v: V)
    requires i < |t| && t[i].key == k
    requires forall j :: 0 <= j < i ==> t[j].key != k
    ensures Get(t[i := Entry(k, v)], k) == Some(v)
    ensures forall k' :: k' != k ==> Get(t[i := Entry(k, v)], k') == Get(t, k')
  {
    var t' := t[i := Entry(k, v)];
    var r := IndexOf(t', k);
    assert t'[i].key == k;
    forall k' | k' != k
      ensures Get(t', k') == Get(t, k')
    {
      var a, b := IndexOf(t', k'), IndexOf(t, k');
      if a.Some? {
        assert a.value != i;
        assert t[a.value].key == k';
      }
      if b.Some? {
        assert b.value != i;
        assert t'[b.value].key == k';
      }
    }
  }

  lemma GetAfterAppend<K, V>(t: seq<Entry<K, V>>, k: K, v: V)
    requires k !in KeySet(t)
    ensures Get(t + [Entry(k, v)], k) == Some(v)
    ensures forall k' :: k' != k ==> Get(t + [Entry(k, v)], k') == Get(t, k')
  {
    var t' := t + [Entry(k, v)];
    assert t'[|t|].key == k;
    forall j | 0 <= j < |t| ensures t'[j].key != k {
      assert t[j].key in KeySet(t);
    }
    forall k' | k' != k
      ensures Get(t', k') == Get(t, k')
    {
      var a, b := IndexOf(t', k'), IndexOf(t, k');
      if a.Some? {
        assert t[a.value].key == k';
      }
      if b.Some? {
        assert t'[b.value].key == k';
      }
    }
  }

  /** A value `get` returns is the value of an entry stored under the key. */
  lemma GetEntry<K, V>(t: seq<Entry<K, V>>, k: K)
    requires k in KeySet(t)
    ensures Entry(k, Get(t, k).value) in t
  {
    var i := IndexOf(t, k).value;
    assert t[i] == Entry(k, Get(t, k).value);
  }

  /** With distinct keys, looking a key up finds exactly the entry stored for it. */
  lemma GetFindsEntry<K, V>(t: seq<Entry<K, V>>, i: nat)
    requires DistinctKeys(t) && i < |t|
    ensures Get(t, t[i].key) == Some(t[i].value)
  {
    var r := IndexOf(t, t[i].key);
  }

  /** A table with distinct keys has as many keys as entries. */
  lemma {:induction false} DistinctKeysCount<K, V>(t: seq<Entry<K, V>>)
    requires DistinctKeys(t)
    ensures |KeySet(t)| == |t|
    decreases |t|
  {
    if |t| > 0 {
      var init := t[..|t| - 1];
      DistinctKeysCount(init);
      assert KeySet(t) == KeySet(init) + {t[|t| - 1].key} by {
        forall x | x in KeySet(t) ensures x in KeySet(init) + {t[|t| - 1].key} {
          var j :| 0 <= j < |t| && t[j].key == x;
          if j < |t| - 1 {
            assert init[j].key == x;
          }
        }
      }
      assert t[|t| - 1].key !in KeySet(init);
    }
  }

  lemma KeySetCons<K, V>(e: Entry<K, V>, t: seq<Entry<K, V>>)
    ensures KeySet([e] + t) == {e.key} + KeySet(t)
    ensures DistinctKeys([e] + t) <==> e.key !in KeySet(t) && DistinctKeys(t)
  {
    ConsKeySet(e, t);
    ConsDistinct(e, t);
  }

  lemma ConsKeySet<K, V>(e: Entry<K, V>, t: seq<Entry<K, V>>)
    ensures KeySet([e] + t) == {e.key} + KeySet(t)
  {
    var s := [e] + t;
    forall x | x in KeySet(s) ensures x in {e.key} + KeySet(t) {
      var j :| 0 <= j < |s| && s[j].key == x;
      if j > 0 {
        assert t[j - 1].key == x;
      }
    }
    forall x | x in KeySet(t) ensures x in KeySet(s) {
      var j :| 0 <= j < |t| && t[j].key == x;
      assert s[j + 1].key == x;
    }
    assert s[0].key == e.key;
  }

  lemma ConsDistinct<K, V>(e: Entry<K, V>, t: seq<Entry<K, V>>)
    ensures DistinctKeys([e] + t) <==> e.key !in KeySet(t) && DistinctKeys(t)
  {
    var s := [e] + t;
    if DistinctKeys(s) {
      forall j | 0 <= j < |t| ensures t[j].key != e.key {
        assert s[0].key != s[j + 1].key;
      }
      forall i, j | 0 <= i < j < |t| ensures t[i].key != t[j].key {
        assert s[i + 1].key != s[j + 1].key;
      }
    }
    if e.key !in KeySet(t) && DistinctKeys(t) {
      forall i, j | 0 <= i < j < |s| ensures s[i].key != s[j].key {
        assert t[j - 1].key in KeySet(t);
      }
    }
  }

  /** `Object.values(t)`. */
  function Values<K, V>(t: seq<Entry<K, V>>): (vs: seq<V>)
    ensures |vs| == |t|
    ensures forall i :: 0 <= i < |t| ==> vs[i] == t[i].value
  {
    seq(|t|, i requires 0 <= i < |t| => t[i].value)
  }
}
