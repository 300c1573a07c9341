/**
 * Insertion-ordered string-keyed dictionaries: the shape of a parsed JSON
 * object (whose `Object.entries` keep insertion order) and of a Python `dict`.
 * A dictionary is the sequence of its (key, value) pairs in order.
 */
module Dict {
  import opened Text

  type Dict<V> = seq<(string, V)>

  function Keys<V>(d: Dict<V>): (ks: seq<string>)
    ensures |ks| == |d|
    ensures forall i :: 0 <= i < |d| ==> ks[i] == d[i].0
  {
    seq(|d|, i requires 0 <= i < |d| => d[i].0)
  }

  predicate HasKey<V>(d: Dict<V>, k: string) {
    exists i :: 0 <= i < |d| && d[i].0 == k
  }

  /** No key occurs twice, as in every JSON object and Python dict. */
  predicate DistinctKeys<V>(d: Dict<V>) {
    forall i, j :: 0 <= i < j < |d| ==> d[i].0 != d[j].0
  }

  /** Position of the first pair with key `k`, or -1. */
  function IndexOf<V>(d: Dict<V>, k: string): (r: int)
    ensures -1 <= r < |d|
    ensures r >= 0 ==> d[r].0 == k && forall i :: 0 <= i < r ==> d[i].0 != k
    ensures r < 0 <==> !HasKey(d, k)
  {
    if |d| == 0 then -1
    else if d[0].0 == k then 0
    else
      var r := IndexOf(d[1..], k);
      if r < 0 then -1 else r + 1
  }

  /** `d[k]`, or `None` when `k` is absent. */
  function Get<V>(d: Dict<V>, k: string): (r: Option<V>)
    ensures r.Some? <==> HasKey(d, k)
    ensures r.Some? ==> exists i :: 0 <= i < |d| && d[i] == (k, r.value)
  {
    var i := IndexOf(d, k);
    if i < 0 then None else Some(d[i].1)
  }

  /** `d[k] = v`: replaces the value in place when `k` is present, appends otherwise. */
  function Put<V>(d: Dict<V>, k: string, v: V): (r: Dict<V>)
    ensures HasKey(d, k) ==> |r| == |d|
    ensures !HasKey(d, k) ==> r == d + [(k, v)]
  {
    var i := IndexOf(d, k);
    if i < 0 then d + [(k, v)] else d[i := (k, v)]
  }

  /** Every pair of `Put(d, k, v)` is `(k, v)` or a pair of `d`. */
  lemma PutPairs<V>(d: Dict<V>, k: string, v: V)
    ensures forall p :: p in Put(d, k, v) ==> p == (k, v) || p in d
    ensures (k, v) in Put(d, k, v)
  {
    var i := IndexOf(d, k);
    if i >= 0 {
      var r := Put(d, k, v);
      forall p | p in r ensures p == (k, v) || p in d {
        var j :| 0 <= j < |r| && r[j] == p;
        if j != i {
          assert r[j] == d[j];
        }
      }
      assert r[i] == (k, v);
    }
  }

  /** Reading back what was just stored. */
  lemma GetPut<V>(d: Dict<V>, k: string, v: V, k': string)
    ensures Get(Put(d, k, v), k') == if k' == k then Some(v) else Get(d, k')
  {
    var i := IndexOf(d, k);
    var r := Put(d, k, v);
    if i < 0 {
      assert r == d + [(k, v)];
      IndexOfAppend(d, (k, v), k');
    } else {
      IndexOfUpdate(d, i, v, k');
    }
  }

  lemma {:induction false} IndexOfAppend<V>(d: Dict<V>, p: (string, V), k: string)
    ensures IndexOf(d + [p], k) == if HasKey(d, k) then IndexOf(d, k) else if p.0 == k then |d| else -1
  {
    if |d| > 0 {
      assert (d + [p])[1..] == d[1..] + [p];
      IndexOfAppend(d[1..], p, k);
      if d[0].0 != k {
        assert HasKey(d, k) <==> HasKey(d[1..], k) by {
          if HasKey(d, k) {
            var j :| 0 <= j < |d| && d[j].0 == k;
            assert d[1..][j - 1].0 == k;
          }
          if HasKey(d[1..], k) {
            var j :| 0 <= j < |d[1..]| && d[1..][j].0 == k;
            assert d[j + 1].0 == k;
          }
        }
      }
    }
  }

  lemma {:induction false} IndexOfUpdate<V>(d: Dict<V>, i: int, v: V, k: string)
    requires 0 <= i < |d| && i == IndexOf(d, d[i].0)
    ensures IndexOf(d[i := (d[i].0, v)], k) == IndexOf(d, k)
  {
    if i > 0 {
      assert d[i := (d[i].0, v)][1..] == d[1..][i - 1 := (d[i].0, v)];
      assert d[1..][i - 1].0 == d[i].0;
      assert IndexOf(d[1..], d[i].0) == i - 1;
      IndexOfUpdate(d[1..], i - 1, v, k);
    }
  }

  /** Storing under an existing key keeps the order of keys; a new key goes last. */
  lemma PutKeys<V>(d: Dict<V>, k: string, v: V)
    ensures Keys(Put(d, k, v)) == if HasKey(d, k) then Keys(d) else Keys(d) + [k]
    ensures forall k' :: HasKey(Put(d, k, v), k') <==> HasKey(d, k') || k' == k
  {
    var r := Put(d, k, v);
    if HasKey(d, k) {
      assert Keys(r) == Keys(d);
    } else {
      assert Keys(r) == Keys(d) + [k];
    }
    forall k' ensures HasKey(r, k') <==> HasKey(d, k') || k' == k {
      GetPut(d, k, v, k');
    }
  }

  /** `Put` keeps a dictionary free of duplicate keys. */
  lemma PutDistinct<V>(d: Dict<V>, k: string, v: V)
    requires DistinctKeys(d)
    ensures DistinctKeys(Put(d, k, v))
  {
    PutKeys(d, k, v);
    var r := Put(d, k, v);
    forall i, j | 0 <= i < j < |r| ensures r[i].0 != r[j].0 {
      assert r[i].0 == Keys(r)[i] && r[j].0 == Keys(r)[j];
      if !HasKey(d, k) && j == |d| {
        assert d[i].0 != k;
      }
    }
  }

  /** `if k not in d: d[k] = empty` followed by `d[k] = v` is one `d[k] = v`. */
  lemma PutAbsentTwice<V>(d: Dict<V>, k: string, empty: V, v: V)
    requires !HasKey(d, k)
    ensures Put(Put(d, k, empty), k, v) == Put(d, k, v)
  {
    IndexOfAppend(d, (k, empty), k);
  }
}
