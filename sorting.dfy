/** The datastore's `sort` stage: documents ordered by one key, ascending or
    descending. Keys compare as the datastore compares field values:
    a missing field (null) before every number, numbers before strings,
    numbers by value and strings by code point. */
module Sorting {

  datatype Key = Null | Num(n: int) | Text(s: string)

  datatype Direction = Asc | Desc

  /** Lexicographic order on strings, by code point. */
  predicate LexLeq(a: string, b: string) {
    |a| == 0 || (|b| > 0 && (a[0] < b[0] || (a[0] == b[0] && LexLeq(a[1..], b[1..]))))
  }

  lemma {:induction false} LexLeqTotal(a: string, b: string)
    ensures LexLeq(a, b) || LexLeq(b, a)
  {
    if |a| > 0 && |b| > 0 && a[0] == b[0] {
      LexLeqTotal(a[1..], b[1..]);
    }
  }

  lemma {:induction false} LexLeqTransitive(a: string, b: string, c: string)
    requires LexLeq(a, b) && LexLeq(b, c)
    ensures LexLeq(a, c)
  {
    if |a| > 0 && a[0] == b[0] && b[0] == c[0] {
      LexLeqTransitive(a[1..], b[1..], c[1..]);
    }
  }

  lemma {:induction false} LexLeqReflexive(a: string)
    ensures LexLeq(a, a)
  {
    if |a| > 0 {
      LexLeqReflexive(a[1..]);
    }
  }

  lemma {:induction false} LexLeqAntisymmetric(a: string, b: string)
    requires LexLeq(a, b) && LexLeq(b, a)
    ensures a == b
  {
    if |a| > 0 {
      LexLeqAntisymmetric(a[1..], b[1..]);
      assert a == [a[0]] + a[1..] && b == [b[0]] + b[1..];
    }
  }

  function TypeRank(k: Key): nat {
    match k
    case Null => 0
    case Num(_) => 1
    case Text(_) => 2
  }

  /** The order in which the datastore compares two field values. */
  predicate KeyLeq(a: Key, b: Key) {
    TypeRank(a) < TypeRank(b)
    || (TypeRank(a) == TypeRank(b)
        && (a.Num? ==> a.n <= b.n)
        && (a.Text? ==> LexLeq(a.s, b.s)))
  }

  lemma KeyLeqTotal(a: Key, b: Key)
    ensures KeyLeq(a, b) || KeyLeq(b, a)
  {
    if a.Text? && b.Text? {
      LexLeqTotal(a.s, b.s);
    }
  }

  lemma KeyLeqTransitive(a: Key, b: Key, c: Key)
    requires KeyLeq(a, b) && KeyLeq(b, c)
    ensures KeyLeq(a, c)
  {
    if a.Text? && b.Text? && c.Text? {
      LexLeqTransitive(a.s, b.s, c.s);
    }
  }

  lemma KeyLeqAntisymmetric(a: Key, b: Key)
    requires KeyLeq(a, b) && KeyLeq(b, a)
    ensures a == b
  {
    if a.Text? && b.Text? {
      LexLeqAntisymmetric(a.s, b.s);
    }
  }

  /** `a` may come before `b` in a listing sorted in direction `d`. */
  predicate InOrder(d: Direction, a: Key, b: Key) {
    if d == Asc then KeyLeq(a, b) else KeyLeq(b, a)
  }

  lemma InOrderTotal(d: Direction, a: Key, b: Key)
    ensures InOrder(d, a, b) || InOrder(d, b, a)
  {
    KeyLeqTotal(a, b);
  }

  lemma InOrderTransitive(d: Direction, a: Key, b: Key, c: Key)
    requires InOrder(d, a, b) && InOrder(d, b, c)
    ensures InOrder(d, a, c)
  {
    if d == Asc { KeyLeqTransitive(a, b, c); } else { KeyLeqTransitive(c, b, a); }
  }

  lemma InOrderReflexive(d: Direction, a: Key)
    ensures InOrder(d, a, a)
  {
    if a.Text? {
      LexLeqReflexive(a.s);
    }
  }

  lemma InOrderAntisymmetric(d: Direction, a: Key, b: Key)
    requires InOrder(d, a, b) && InOrder(d, b, a)
    ensures a == b
  {
    KeyLeqAntisymmetric(a, b);
  }

  /** Every pair of elements is in order; elements with equal keys may come
      in either order, as the datastore leaves ties unspecified. */
  ghost predicate SortedBy<T>(s: seq<T>, key: T -> Key, d: Direction) {
    forall i, j :: 0 <= i < j < |s| ==> InOrder(d, key(s[i]), key(s[j]))
  }

  /** Inserts `x` before the first element it may precede. */
  function Insert<T>(x: T, s: seq<T>, key: T -> Key, d: Direction): (r: seq<T>)
    requires SortedBy(s, key, d)
    ensures SortedBy(r, key, d)
    ensures multiset(r) == multiset(s) + multiset{x}
  {
    if |s| == 0 then [x]
    else if InOrder(d, key(x), key(s[0])) then
      InsertFront(x, s, key, d);
      [x] + s
    else
      InOrderTotal(d, key(x), key(s[0]));
      var rest := Insert(x, s[1..], key, d);
      assert s == [s[0]] + s[1..];
      InsertBehind(s[0], rest, x, s[1..], key, d);
      [s[0]] + rest
  }

  lemma InsertFront<T>(x: T, s: seq<T>, key: T -> Key, d: Direction)
    requires SortedBy(s, key, d) && |s| > 0 && InOrder(d, key(x), key(s[0]))
    ensures SortedBy([x] + s, key, d)
  {
    var r := [x] + s;
    forall i, j | 0 <= i < j < |r| ensures InOrder(d, key(r[i]), key(r[j])) {
      if i == 0 && j > 1 {
        InOrderTransitive(d, key(x), key(s[0]), key(s[j - 1]));
      }
    }
  }

  /** `y` may precede a sorted sequence whose elements are `x` and those of a
      sorted sequence `t` that `y` already precedes. */
  lemma InsertBehind<T>(y: T, rest: seq<T>, x: T, t: seq<T>, key: T -> Key, d: Direction)
    requires SortedBy(rest, key, d) && SortedBy([y] + t, key, d)
    requires multiset(rest) == multiset(t) + multiset{x}
    requires InOrder(d, key(y), key(x))
    ensures SortedBy([y] + rest, key, d)
  {
    var r := [y] + rest;
    forall i, j | 0 <= i < j < |r| ensures InOrder(d, key(r[i]), key(r[j])) {
      if i == 0 {
        var z := rest[j - 1];
        assert r[0] == y && r[j] == z;
        assert z in multiset(rest);
        if z != x {
          assert z in multiset(t);
          var k :| 0 <= k < |t| && t[k] == z;
          assert ([y] + t)[0] == y && ([y] + t)[k + 1] == z;
        }
      } else {
        assert r[i] == rest[i - 1] && r[j] == rest[j - 1];
      }
    }
  }

  /** The listing of `s` in direction `d` of `key`: sorted, and a
      permutation of `s`. */
  function SortBy<T>(s: seq<T>, key: T -> Key, d: Direction): (r: seq<T>)
    ensures SortedBy(r, key, d)
    ensures multiset(r) == multiset(s)
    ensures |r| == |s|
  {
    if |s| == 0 then []
    else
      assert s == [s[0]] + s[1..];
      var r := Insert(s[0], SortBy(s[1..], key, d), key, d);
      assert |multiset(r)| == |multiset(s)|;
      r
  }

  /** Elements with equal keys may come in either order, so two elements
      whose keys tie are sorted both ways round. */
  lemma TiedPairSortedBothWays<T>(a: T, b: T, key: T -> Key, d: Direction)
    requires key(a) == key(b)
    ensures SortedBy([a, b], key, d) && SortedBy([b, a], key, d)
  {
    InOrderReflexive(d, key(a));
  }

  lemma SortedTail<T>(s: seq<T>, key: T -> Key, d: Direction)
    requires SortedBy(s, key, d) && |s| > 0
    ensures SortedBy(s[1..], key, d)
  {
    forall i, j | 0 <= i < j < |s[1..]| ensures InOrder(d, key(s[1..][i]), key(s[1..][j])) {
      assert s[1..][i] == s[i + 1] && s[1..][j] == s[j + 1];
    }
  }

  /** When no two different elements share a key, a sequence has exactly one
      sorted arrangement: any two sorted permutations of it are equal. */
  lemma {:induction false} SortedUnique<T>(s: seq<T>, t: seq<T>, key: T -> Key, d: Direction)
    requires SortedBy(s, key, d) && SortedBy(t, key, d) && multiset(s) == multiset(t)
    requires forall x, y :: x in s && y in s && key(x) == key(y) ==> x == y
    ensures s == t
    decreases |s|
  {
    assert |s| == |multiset(s)| == |multiset(t)| == |t|;
    if |s| > 0 {
      assert s[0] in multiset(t) && t[0] in multiset(s);
      var j :| 0 <= j < |t| && t[j] == s[0];
      var i :| 0 <= i < |s| && s[i] == t[0];
      InOrderReflexive(d, key(s[0]));
      assert InOrder(d, key(s[0]), key(s[i]));
      assert InOrder(d, key(t[0]), key(t[j]));
      InOrderAntisymmetric(d, key(s[0]), key(t[0]));
      assert s[0] == t[0];
      SortedTailsUnique(s, t, key, d);
    }
  }

  lemma {:induction false} SortedTailsUnique<T>(s: seq<T>, t: seq<T>, key: T -> Key, d: Direction)
    requires SortedBy(s, key, d) && SortedBy(t, key, d) && multiset(s) == multiset(t)
    requires forall x, y :: x in s && y in s && key(x) == key(y) ==> x == y
    requires |s| > 0 && |t| > 0 && s[0] == t[0]
    ensures s == t
    decreases |s|, 0
  {
    MultisetTails(s, t);
    SortedTail(s, key, d);
    SortedTail(t, key, d);
    forall x, y | x in s[1..] && y in s[1..] && key(x) == key(y) ensures x == y {
      assert x in s && y in s;
    }
    SortedUnique(s[1..], t[1..], key, d);
  }

  lemma MultisetTails<T>(s: seq<T>, t: seq<T>)
    requires multiset(s) == multiset(t) && |s| > 0 && |t| > 0 && s[0] == t[0]
    ensures multiset(s[1..]) == multiset(t[1..])
  {
    assert s == [s[0]] + s[1..] && t == [t[0]] + t[1..];
    forall x ensures multiset(s[1..])[x] == multiset(t[1..])[x] {
      assert multiset(s)[x] == multiset{s[0]}[x] + multiset(s[1..])[x];
      assert multiset(t)[x] == multiset{t[0]}[x] + multiset(t[1..])[x];
    }
  }
}
