/** Python's insertion-ordered `dict` with string keys, as a sequence of
    key/value pairs. Assigning to a present key keeps its position, assigning
    to an absent key appends, `del` removes. `ToMap` is the unordered view. */
module Dicts {
  import opened Wrappers

  type Dict<V> = seq<(string, V)>

  /** The keys in iteration order. */
  function Keys<V>(d: Dict<V>): (r: seq<string>)
    ensures |r| == |d|
    ensures forall i :: 0 <= i < |d| ==> r[i] == d[i].0
  {
    if |d| == 0 then [] else [d[0].0] + Keys(d[1..])
  }

  /** Python's `k in d`. */
  predicate HasKey<V>(d: Dict<V>, k: string) {
    k in Keys(d)
  }

  /** No key occurs twice, as in every real `dict`. */
  predicate Distinct<V>(d: Dict<V>) {
    forall i, j :: 0 <= i < j < |d| ==> d[i].0 != d[j].0
  }

  /** `d.get(k)`: the value at the first occurrence of `k`. */
  function Lookup<V>(d: Dict<V>, k: string): (r: Option<V>)
    ensures r.None? <==> !HasKey(d, k)
    ensures r.Some? ==> exists i :: 0 <= i < |d| && d[i] == (k, r.value)
  {
    if |d| == 0 then None
    else if d[0].0 == k then Some(d[0].1)
    else
      assert Keys(d) == [d[0].0] + Keys(d[1..]);
      var r := Lookup(d[1..], k);
      if r.Some? then
        ghost var i :| 0 <= i < |d[1..]| && d[1..][i] == (k, r.value);
        assert d[i + 1] == (k, r.value);
        r
      else r
  }

  /** `d[k]` for a present key. */
  function Get<V>(d: Dict<V>, k: string): V
    requires HasKey(d, k)
  {
    Lookup(d, k).value
  }

  /** A key of a non-empty dict is its first key or a key of the rest, and
      its value is found there. */
  lemma HeadOrTail<V>(d: Dict<V>, k: string)
    requires |d| > 0
    ensures Keys(d) == [d[0].0] + Keys(d[1..])
    ensures HasKey(d, k) <==> k == d[0].0 || HasKey(d[1..], k)
    ensures HasKey(d, k) ==> Get(d, k) == if k == d[0].0 then d[0].1 else Get(d[1..], k)
  {
    assert Keys(d) == [d[0].0] + Keys(d[1..]);
  }

  /** `d[k] = v`: overwrite in place when present, append otherwise. */
  function Set<V>(d: Dict<V>, k: string, v: V): (r: Dict<V>)
    ensures HasKey(d, k) ==> Keys(r) == Keys(d)
    ensures !HasKey(d, k) ==> Keys(r) == Keys(d) + [k]
    ensures forall p :: p in r ==> p in d || p == (k, v)
    ensures (k, v) in r
  {
    if |d| == 0 then [(k, v)]
    else if d[0].0 == k then
      assert Keys([(k, v)] + d[1..]) == [k] + Keys(d[1..]);
      [(k, v)] + d[1..]
    else
      var rest := Set(d[1..], k, v);
      SetPastHead(d, k, v, rest);
      [d[0]] + rest
  }

  /** The keys of a dict with a pair put in front. */
  lemma KeysCons<V>(p: (string, V), d: Dict<V>)
    ensures Keys([p] + d) == [p.0] + Keys(d)
  {
    assert ([p] + d)[1..] == d;
  }

  /** The step of `Set` past a first pair that holds another key. */
  lemma SetPastHead<V>(d: Dict<V>, k: string, v: V, rest: Dict<V>)
    requires |d| > 0 && d[0].0 != k
    requires HasKey(d[1..], k) ==> Keys(rest) == Keys(d[1..])
    requires !HasKey(d[1..], k) ==> Keys(rest) == Keys(d[1..]) + [k]
    requires forall p :: p in rest ==> p in d[1..] || p == (k, v)
    requires (k, v) in rest
    ensures HasKey(d, k) ==> Keys([d[0]] + rest) == Keys(d)
    ensures !HasKey(d, k) ==> Keys([d[0]] + rest) == Keys(d) + [k]
    ensures forall p :: p in [d[0]] + rest ==> p in d || p == (k, v)
    ensures (k, v) in [d[0]] + rest
  {
    KeysCons(d[0], rest);
    HeadOrTail(d, k);
    PairsPastHead(d, rest, (k, v));
  }

  /** Pairs of a list built from the first pair of `d` and pairs of `d`'s
      tail or `extra` are pairs of `d` or `extra`. */
  lemma PairsPastHead<V>(d: Dict<V>, rest: Dict<V>, extra: (string, V))
    requires |d| > 0
    requires forall p :: p in rest ==> p in d[1..] || p == extra
    ensures forall p :: p in [d[0]] + rest ==> p in d || p == extra
  {
    forall p | p in [d[0]] + rest
      ensures p in d || p == extra
    {
      if p != d[0] {
        assert p in rest;
        if p in d[1..] {
          var i :| 0 <= i < |d[1..]| && d[1..][i] == p;
          assert d[i + 1] == p;
        }
      }
    }
  }

  /** `del d[k]` on a present key; every occurrence goes. */
  function Delete<V>(d: Dict<V>, k: string): (r: Dict<V>)
    ensures !HasKey(r, k)
    ensures forall j :: HasKey(r, j) <==> HasKey(d, j) && j != k
    ensures forall p :: p in r ==> p in d
    ensures |r| <= |d|
  {
    if |d| == 0 then []
    else
      assert Keys(d) == [d[0].0] + Keys(d[1..]);
      var rest := Delete(d[1..], k);
      if d[0].0 == k then rest
      else
        var r := [d[0]] + rest;
        assert Keys(r) == [d[0].0] + Keys(rest);
        assert forall j :: HasKey(r, j) <==> j == d[0].0 || HasKey(rest, j);
        r
  }

  /** `del` of a missing key leaves the dict as it was. */
  lemma {:induction false} DeleteAbsent<V>(d: Dict<V>, k: string)
    ensures !HasKey(d, k) ==> Delete(d, k) == d
  {
    if |d| > 0 && !HasKey(d, k) {
      assert Keys(d) == [d[0].0] + Keys(d[1..]);
      DeleteAbsent(d[1..], k);
      assert [d[0]] + d[1..] == d;
    }
  }

  /** `del` keeps the order: in a dict with distinct keys exactly the pair
      holding `k` goes, and the pairs before and after it stay where they
      were. */
  lemma {:induction false} DeleteKeepsOrder<V>(d: Dict<V>, k: string)
    ensures Distinct(d) && HasKey(d, k) ==>
      exists i :: 0 <= i < |d| && d[i].0 == k && Delete(d, k) == d[..i] + d[i + 1..]
  {
    if Distinct(d) && HasKey(d, k) {
      assert Keys(d) == [d[0].0] + Keys(d[1..]);
      var rest := Delete(d[1..], k);
      if d[0].0 == k {
        DeleteAbsent(d[1..], k);
        DeleteAtHead(d, k, rest);
      } else {
        DistinctTail(d);
        DeleteKeepsOrder(d[1..], k);
        assert Delete(d, k) == [d[0]] + rest;
        var i :| 0 <= i < |d[1..]| && d[1..][i].0 == k && rest == d[1..][..i] + d[1..][i + 1..];
        DropBehindHead(d, rest, i);
        assert d[i + 1].0 == k && Delete(d, k) == d[..i + 1] + d[i + 1 + 1..];
      }
    }
  }

  /** `del` of the first key of a dict with distinct keys drops just that
      pair. */
  lemma DeleteAtHead<V>(d: Dict<V>, k: string, rest: Dict<V>)
    requires |d| > 0 && d[0].0 == k
    requires !HasKey(d[1..], k) ==> rest == d[1..]
    ensures Distinct(d) ==> exists i :: 0 <= i < |d| && d[i].0 == k && rest == d[..i] + d[i + 1..]
  {
    if Distinct(d) {
      forall j | 0 <= j < |d[1..]|
        ensures Keys(d[1..])[j] != k
      {
        assert d[1..][j] == d[j + 1];
      }
      assert rest == d[..0] + d[0 + 1..];
    }
  }

  /** Dropping position `i` of the rest, behind the first pair, is dropping
      position `i + 1` of the whole. */
  lemma DropBehindHead<V>(d: Dict<V>, rest: Dict<V>, i: nat)
    requires |d| > 0 && i < |d| - 1
    requires rest == d[1..][..i] + d[1..][i + 1..]
    ensures d[i + 1] == d[1..][i]
    ensures [d[0]] + rest == d[..i + 1] + d[i + 1 + 1..]
  {
    assert d[..i + 1] == [d[0]] + d[1..][..i];
    assert d[i + 2..] == d[1..][i + 1..];
  }

  /** The unordered view: every key mapped to its first value. */
  function ToMap<V>(d: Dict<V>): (m: map<string, V>)
    ensures forall k :: k in m <==> HasKey(d, k)
  {
    if |d| == 0 then map[]
    else
      assert Keys(d) == [d[0].0] + Keys(d[1..]);
      ToMap(d[1..])[d[0].0 := d[0].1]
  }

  /** The unordered view agrees with `Lookup`. */
  lemma {:induction false} ToMapAgreesWithLookup<V>(d: Dict<V>, k: string)
    requires HasKey(d, k)
    ensures ToMap(d)[k] == Get(d, k)
  {
    if d[0].0 != k {
      assert Keys(d) == [d[0].0] + Keys(d[1..]);
      ToMapAgreesWithLookup(d[1..], k);
    }
  }

  /** Assignment is a single-key map update in the unordered view. */
  lemma {:induction false} SetIsMapUpdate<V>(d: Dict<V>, k: string, v: V)
    ensures ToMap(Set(d, k, v)) == ToMap(d)[k := v]
  {
    if |d| == 0 {
    } else if d[0].0 == k {
      var r := Set(d, k, v);
      assert r[1..] == d[1..];
      assert ToMap(r) == ToMap(d[1..])[k := v];
      assert ToMap(d) == ToMap(d[1..])[k := d[0].1];
    } else {
      SetIsMapUpdate(d[1..], k, v);
      SetUnfoldsPastHead(d, k, v);
    }
  }

  /** One step of `SetIsMapUpdate`: assigning past the first pair. */
  lemma SetUnfoldsPastHead<V>(d: Dict<V>, k: string, v: V)
    requires |d| > 0 && d[0].0 != k
    requires ToMap(Set(d[1..], k, v)) == ToMap(d[1..])[k := v]
    ensures ToMap(Set(d, k, v)) == ToMap(d)[k := v]
  {
    var r := Set(d, k, v);
    assert r == [d[0]] + Set(d[1..], k, v);
    assert r[0] == d[0] && r[1..] == Set(d[1..], k, v);
    assert ToMap(r) == ToMap(r[1..])[d[0].0 := d[0].1];
    assert ToMap(d) == ToMap(d[1..])[d[0].0 := d[0].1];
    UpdatesCommute(ToMap(d[1..]), k, v, d[0].0, d[0].1);
  }

  /** Updates of two different keys commute. */
  lemma UpdatesCommute<V>(m: map<string, V>, k: string, v: V, j: string, w: V)
    requires k != j
    ensures m[k := v][j := w] == m[j := w][k := v]
  {
  }

  /** Updating one key and removing another commute. */
  lemma UpdateRemoveCommute<V>(m: map<string, V>, j: string, w: V, k: string)
    requires k != j
    ensures (m - {k})[j := w] == m[j := w] - {k}
  {
  }

  /** Assignment to a present key changes only the pair holding its first
      occurrence; every other position keeps its pair. */
  lemma {:induction false} SetInPlace<V>(d: Dict<V>, k: string, v: V, i: nat)
    requires HasKey(d, k) && i < |d|
    ensures |Set(d, k, v)| == |d|
    ensures Set(d, k, v)[i] == d[i] || (d[i] == (k, Get(d, k)) && Set(d, k, v)[i] == (k, v))
  {
    assert Keys(d) == [d[0].0] + Keys(d[1..]);
    if d[0].0 != k && i > 0 {
      SetInPlace(d[1..], k, v, i - 1);
      assert Set(d, k, v)[i] == Set(d[1..], k, v)[i - 1];
    }
  }

  /** Deletion is a single-key map removal in the unordered view. */
  lemma {:induction false} DeleteIsMapRemoval<V>(d: Dict<V>, k: string)
    ensures ToMap(Delete(d, k)) == ToMap(d) - {k}
  {
    if |d| > 0 {
      DeleteIsMapRemoval(d[1..], k);
      DeleteStep(d, k);
    }
  }

  /** One step of `DeleteIsMapRemoval`: the first pair is dropped when it
      holds `k` and kept in front otherwise. */
  lemma DeleteStep<V>(d: Dict<V>, k: string)
    requires |d| > 0
    requires ToMap(Delete(d[1..], k)) == ToMap(d[1..]) - {k}
    ensures ToMap(Delete(d, k)) == ToMap(d) - {k}
  {
    var rest := Delete(d[1..], k);
    assert ToMap(d) == ToMap(d[1..])[d[0].0 := d[0].1];
    if d[0].0 != k {
      var r := [d[0]] + rest;
      assert Delete(d, k) == r;
      assert r[1..] == rest;
      assert ToMap(r) == ToMap(rest)[d[0].0 := d[0].1];
      UpdateRemoveCommute(ToMap(d[1..]), d[0].0, d[0].1, k);
    } else {
      assert Delete(d, k) == rest;
      UpdateThenRemove(ToMap(d[1..]), k, d[0].1);
    }
  }

  /** Removing a key undoes any update of it. */
  lemma UpdateThenRemove<V>(m: map<string, V>, k: string, v: V)
    ensures m[k := v] - {k} == m - {k}
  {
  }

  /** The rest of a dict with distinct keys has distinct keys, none of them
      the first key. */
  lemma DistinctTail<V>(d: Dict<V>)
    requires Distinct(d) && |d| > 0
    ensures Distinct(d[1..])
    ensures forall q :: q in d[1..] ==> q.0 != d[0].0
  {
    forall q | q in d[1..]
      ensures q.0 != d[0].0
    {
      var j :| 0 <= j < |d[1..]| && d[1..][j] == q;
      assert d[j + 1] == q;
    }
    forall i, j | 0 <= i < j < |d[1..]|
      ensures d[1..][i].0 != d[1..][j].0
    {
      assert d[1..][i] == d[i + 1] && d[1..][j] == d[j + 1];
    }
  }

  /** Assignment keeps the keys distinct. */
  lemma {:induction false} SetKeepsDistinct<V>(d: Dict<V>, k: string, v: V)
    requires Distinct(d)
    ensures Distinct(Set(d, k, v))
  {
    var r := Set(d, k, v);
    forall i, j | 0 <= i < j < |r|
      ensures r[i].0 != r[j].0
    {
      assert Keys(r)[i] == r[i].0 && Keys(r)[j] == r[j].0;
      if !HasKey(d, k) && j == |d| {
        assert Keys(r)[i] == Keys(d)[i];
      }
    }
  }

  /** Deletion keeps the keys distinct. */
  lemma {:induction false} DeleteKeepsDistinct<V>(d: Dict<V>, k: string)
    requires Distinct(d)
    ensures Distinct(Delete(d, k))
  {
    if |d| > 0 {
      DeleteKeepsDistinct(d[1..], k);
      var rest := Delete(d[1..], k);
      if d[0].0 != k {
        forall j | 0 <= j < |rest|
          ensures d[0].0 != rest[j].0
        {
          assert Keys(rest)[j] == rest[j].0;
          assert HasKey(d[1..], rest[j].0);
          var i :| 0 <= i < |d[1..]| && Keys(d[1..])[i] == rest[j].0;
          assert d[i + 1].0 == rest[j].0;
        }
      }
    }
  }
}
