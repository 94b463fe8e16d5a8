/** Generic sequence operations that stand for the datastore's query
    primitives: find(filter), findOne(filter) and countDocuments(filter). */
module Seqs {
  import opened Common

  /** The elements of `s` that satisfy `p`, in their original order. */
  function Filter<T(!new)>(s: seq<T>, p: T -> bool): (r: seq<T>)
    ensures |r| <= |s|
    ensures forall i :: 0 <= i < |r| ==> p(r[i])
    ensures forall x :: multiset(r)[x] == if p(x) then multiset(s)[x] else 0
  {
    if |s| == 0 then []
    else
      assert s == [s[0]] + s[1..];
      if p(s[0]) then [s[0]] + Filter(s[1..], p) else Filter(s[1..], p)
  }

  /** Filtering distributes over concatenation, so it keeps relative order. */
  lemma {:induction false} FilterAppend<T(!new)>(a: seq<T>, b: seq<T>, p: T -> bool)
    ensures Filter(a + b, p) == Filter(a, p) + Filter(b, p)
  {
    if |a| == 0 {
      assert a + b == b;
    } else {
      assert (a + b)[1..] == a[1..] + b;
      FilterAppend(a[1..], b, p);
    }
  }

  /** Sequences with the same elements (counted with multiplicity) have
      filtered parts with the same elements. */
  lemma FilterSameMultiset<T(!new)>(a: seq<T>, b: seq<T>, p: T -> bool)
    requires multiset(a) == multiset(b)
    ensures multiset(Filter(a, p)) == multiset(Filter(b, p))
    ensures |Filter(a, p)| == |Filter(b, p)|
  {
    assert forall x :: multiset(Filter(a, p))[x] == multiset(Filter(b, p))[x];
    assert multiset(Filter(a, p)) == multiset(Filter(b, p));
    calc {
      |Filter(a, p)|;
      |multiset(Filter(a, p))|;
      |multiset(Filter(b, p))|;
      |Filter(b, p)|;
    }
  }

  /** The pieces `f` makes of each element of `s`, concatenated in order. */
  function FlatMap<T, U>(s: seq<T>, f: T -> seq<U>): seq<U> {
    if |s| == 0 then [] else f(s[0]) + FlatMap(s[1..], f)
  }

  lemma {:induction false} FlatMapCons<T, U>(x: T, s: seq<T>, f: T -> seq<U>)
    ensures FlatMap([x] + s, f) == f(x) + FlatMap(s, f)
  {
    assert ([x] + s)[0] == x && ([x] + s)[1..] == s;
  }

  /** FlatMap distributes over concatenation. */
  lemma {:induction false} FlatMapAppend<T, U>(a: seq<T>, b: seq<T>, f: T -> seq<U>)
    ensures FlatMap(a + b, f) == FlatMap(a, f) + FlatMap(b, f)
  {
    if |a| == 0 {
      assert a + b == b;
    } else {
      assert (a + b)[0] == a[0] && (a + b)[1..] == a[1..] + b;
      FlatMapAppend(a[1..], b, f);
      assert f(a[0]) + (FlatMap(a[1..], f) + FlatMap(b, f))
          == (f(a[0]) + FlatMap(a[1..], f)) + FlatMap(b, f);
    }
  }

  /** Every entry of a FlatMap comes from the pieces of some element, so a
      property of all pieces holds of the whole result. */
  lemma {:induction false} FlatMapAll<T, U>(s: seq<T>, f: T -> seq<U>, p: U -> bool)
    requires forall k, j :: 0 <= k < |s| && 0 <= j < |f(s[k])| ==> p(f(s[k])[j])
    ensures forall i :: 0 <= i < |FlatMap(s, f)| ==> p(FlatMap(s, f)[i])
  {
    if |s| > 0 {
      assert forall k, j :: 0 <= k < |s[1..]| && 0 <= j < |f(s[1..][k])| ==> p(f(s[1..][k])[j]) by {
        forall k, j | 0 <= k < |s[1..]| && 0 <= j < |f(s[1..][k])| ensures p(f(s[1..][k])[j]) {
          assert s[1..][k] == s[k + 1];
        }
      }
      FlatMapAll(s[1..], f, p);
      forall i | 0 <= i < |FlatMap(s, f)| ensures p(FlatMap(s, f)[i]) {
        if i >= |f(s[0])| {
          assert FlatMap(s, f)[i] == FlatMap(s[1..], f)[i - |f(s[0])|];
        } else {
          assert FlatMap(s, f)[i] == f(s[0])[i];
        }
      }
    }
  }

  /** The index of the first element that satisfies `p`, as `findOne` returns
      the first matching document. */
  function FindFirst<T>(s: seq<T>, p: T -> bool): (r: Option<nat>)
    ensures r.None? <==> forall i :: 0 <= i < |s| ==> !p(s[i])
    ensures r.Some? ==> r.value < |s| && p(s[r.value])
    ensures r.Some? ==> forall i :: 0 <= i < r.value ==> !p(s[i])
  {
    if |s| == 0 then None
    else if p(s[0]) then Some(0)
    else
      match FindFirst(s[1..], p)
      case None => None
      case Some(k) => Some(k + 1)
  }

  /** No two elements of `s` share a key. */
  ghost predicate UniqueBy<T, K>(s: seq<T>, key: T -> K) {
    forall i, j :: 0 <= i < j < |s| ==> key(s[i]) != key(s[j])
  }

  /** Appending an element whose key is new keeps the keys unique. */
  lemma UniqueByAppend<T, K>(s: seq<T>, x: T, key: T -> K)
    requires UniqueBy(s, key)
    requires forall i :: 0 <= i < |s| ==> key(s[i]) != key(x)
    ensures UniqueBy(s + [x], key)
  {
  }

  /** Replacing one element by one whose key no other element has keeps the
      keys unique. */
  lemma UniqueByUpdate<T, K>(s: seq<T>, k: nat, x: T, key: T -> K)
    requires UniqueBy(s, key) && k < |s|
    requires forall i :: 0 <= i < |s| && i != k ==> key(s[i]) != key(x)
    ensures UniqueBy(s[k := x], key)
  {
  }

  /** The sequence without its element at index `k`. */
  function RemoveAt<T>(s: seq<T>, k: nat): (r: seq<T>)
    requires k < |s|
    ensures |r| == |s| - 1
    ensures forall i :: 0 <= i < k ==> r[i] == s[i]
    ensures forall i :: k <= i < |r| ==> r[i] == s[i + 1]
    ensures multiset(r) == multiset(s) - multiset{s[k]}
  {
    assert s == s[..k] + [s[k]] + s[k + 1..];
    s[..k] + s[k + 1..]
  }

  /** Removing an element keeps the keys unique, and when the keys were
      unique no remaining element has the removed element's key. */
  lemma UniqueByRemove<T, K>(s: seq<T>, k: nat, key: T -> K)
    requires UniqueBy(s, key) && k < |s|
    ensures UniqueBy(RemoveAt(s, k), key)
    ensures forall i :: 0 <= i < |s| - 1 ==> key(RemoveAt(s, k)[i]) != key(s[k])
  {
    var r := RemoveAt(s, k);
    forall i, j | 0 <= i < j < |r| ensures key(r[i]) != key(r[j]) {
      var i' := if i < k then i else i + 1;
      var j' := if j < k then j else j + 1;
      assert r[i] == s[i'] && r[j] == s[j'] && i' < j';
    }
    forall i | 0 <= i < |r| ensures key(r[i]) != key(s[k]) {
      var i' := if i < k then i else i + 1;
      assert r[i] == s[i'] && i' != k;
    }
  }

  /** Under unique keys, the first element with a given key is the only one. */
  lemma UniqueByFindFirst<T, K>(s: seq<T>, key: T -> K, v: K, k: nat)
    requires UniqueBy(s, key)
    requires k < |s| && key(s[k]) == v
    ensures forall i :: 0 <= i < |s| && i != k ==> key(s[i]) != v
  {
  }
}
