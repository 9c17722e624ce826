/** Byte-wise lexicographic order, as `Ord` on strings and on pairs of strings, and the
    stable sort of the standard library stated by what it promises. */
module Ordering {
  import opened Text

  predicate LexLe(a: Bytes, b: Bytes) {
    a == [] || (b != [] && (a[0] < b[0] || (a[0] == b[0] && LexLe(a[1..], b[1..]))))
  }

  ghost predicate TotalOrder<T(!new)>(le: (T, T) -> bool) {
    && (forall x, y :: le(x, y) || le(y, x))
    && (forall x, y :: le(x, y) && le(y, x) ==> x == y)
    && (forall x, y, z :: le(x, y) && le(y, z) ==> le(x, z))
  }

  /** A total order up to ties. */
  ghost predicate TotalPreorder<T(!new)>(le: (T, T) -> bool) {
    && (forall x, y :: le(x, y) || le(y, x))
    && (forall x, y, z :: le(x, y) && le(y, z) ==> le(x, z))
  }

  ghost predicate SortedBy<T>(le: (T, T) -> bool, s: seq<T>) {
    forall i, j :: 0 <= i < j < |s| ==> le(s[i], s[j])
  }

  function Insert<T>(le: (T, T) -> bool, x: T, s: seq<T>): seq<T> {
    if s == [] || le(x, s[0]) then [x] + s else [s[0]] + Insert(le, x, s[1..])
  }

  /** The sorted arrangement of `s`; equal elements keep their order. */
  function Sorted<T>(le: (T, T) -> bool, s: seq<T>): seq<T> {
    if s == [] then [] else Insert(le, s[0], Sorted(le, s[1..]))
  }

  lemma {:induction false} InsertAdds<T>(le: (T, T) -> bool, x: T, s: seq<T>)
    ensures multiset(Insert(le, x, s)) == multiset{x} + multiset(s)
  {
    if s == [] || le(x, s[0]) {
    } else {
      InsertAdds(le, x, s[1..]);
      assert s == [s[0]] + s[1..];
    }
  }

  lemma {:induction false} InsertKeepsSorted<T(!new)>(le: (T, T) -> bool, x: T, s: seq<T>)
    requires TotalPreorder(le) && SortedBy(le, s)
    ensures SortedBy(le, Insert(le, x, s))
  {
    if s == [] || le(x, s[0]) {
      assert forall i :: 0 <= i < |s| ==> le(x, s[i]);
    } else {
      var rest := Insert(le, x, s[1..]);
      InsertKeepsSorted(le, x, s[1..]);
      InsertAdds(le, x, s[1..]);
      forall i | 0 <= i < |rest|
        ensures le(s[0], rest[i])
      {
        assert rest[i] in multiset(rest);
        assert rest[i] == x || rest[i] in s[1..];
      }
    }
  }

  lemma {:induction false} SortedIsSorted<T(!new)>(le: (T, T) -> bool, s: seq<T>)
    requires TotalPreorder(le)
    ensures SortedBy(le, Sorted(le, s))
    ensures multiset(Sorted(le, s)) == multiset(s)
  {
    if s != [] {
      SortedIsSorted(le, s[1..]);
      InsertAdds(le, s[0], Sorted(le, s[1..]));
      InsertKeepsSorted(le, s[0], Sorted(le, s[1..]));
      assert s == [s[0]] + s[1..];
    }
  }

  lemma LeastComesFirst<T(!new)>(le: (T, T) -> bool, a: seq<T>, b: seq<T>)
    requires TotalOrder(le) && SortedBy(le, a) && a != [] && b != []
    requires b[0] in a && forall i :: 0 <= i < |b| ==> le(b[0], b[i])
    requires a[0] in b
    ensures a[0] == b[0]
  {
    assert le(b[0], a[0]) && le(a[0], b[0]);
  }

  lemma TailsAgree<T>(a: seq<T>, b: seq<T>)
    requires a != [] && b != [] && a[0] == b[0] && multiset(a) == multiset(b)
    ensures multiset(a[1..]) == multiset(b[1..])
  {
    assert a == [a[0]] + a[1..] && b == [b[0]] + b[1..];
    assert multiset(a[1..]) == multiset(a) - multiset{a[0]};
  }

  /** Under a total order there is only one sorted arrangement of a multiset. */
  lemma {:induction false} SortedUnique<T(!new)>(le: (T, T) -> bool, a: seq<T>, b: seq<T>)
    requires TotalOrder(le) && SortedBy(le, a) && SortedBy(le, b)
    requires multiset(a) == multiset(b)
    ensures a == b
  {
    assert |multiset(a)| == |a| && |multiset(b)| == |b|;
    if a != [] {
      assert a[0] in multiset(b) && b[0] in multiset(a);
      LeastComesFirst(le, a, b);
      TailsAgree(a, b);
      SortedUnique(le, a[1..], b[1..]);
      assert a == [a[0]] + a[1..] && b == [b[0]] + b[1..];
    }
  }

  ghost predicate Distinct<T>(s: seq<T>) {
    forall i, j :: 0 <= i < j < |s| ==> s[i] != s[j]
  }

  lemma {:induction false} DistinctCountsOnce<T>(s: seq<T>, x: T)
    requires Distinct(s)
    ensures multiset(s)[x] == if x in s then 1 else 0
  {
    if s != [] {
      DistinctCountsOnce(s[1..], x);
      assert s == [s[0]] + s[1..];
    }
  }

  lemma RepeatCountsTwice<T>(s: seq<T>, i: nat, j: nat)
    requires i < j < |s| && s[i] == s[j]
    ensures multiset(s)[s[i]] >= 2
  {
    assert s == s[..j] + s[j..];
    assert s[i] == s[..j][i] && s[j] == s[j..][0];
  }

  /** Sorting forgets the order its input came in. */
  lemma SortForgetsOrder<T(!new)>(le: (T, T) -> bool, a: seq<T>, b: seq<T>)
    requires TotalOrder(le) && multiset(a) == multiset(b)
    ensures Sorted(le, a) == Sorted(le, b)
  {
    SortedIsSorted(le, a);
    SortedIsSorted(le, b);
    SortedUnique(le, Sorted(le, a), Sorted(le, b));
  }

  ghost predicate IsLeast<T>(le: (T, T) -> bool, least: T, names: set<T>) {
    least in names && forall x :: x in names ==> le(least, x)
  }

  lemma {:induction false} LeastExists<T(!new)>(le: (T, T) -> bool, names: set<T>) returns (least: T)
    requires TotalOrder(le) && names != {}
    ensures IsLeast(le, least, names)
  {
    var x :| x in names;
    if names == {x} {
      least := x;
    } else {
      var y := LeastExists(le, names - {x});
      least := if le(x, y) then x else y;
      forall z | z in names
        ensures le(least, z)
      {
        if z != x {
          assert z in names - {x};
        }
      }
    }
  }

  lemma {:induction false} LexTotal(a: Bytes, b: Bytes)
    ensures LexLe(a, b) || LexLe(b, a)
    ensures LexLe(a, b) && LexLe(b, a) ==> a == b
  {
    if a != [] && b != [] && a[0] == b[0] {
      LexTotal(a[1..], b[1..]);
      assert a == [a[0]] + a[1..] && b == [b[0]] + b[1..];
    }
  }

  lemma {:induction false} LexTransitive(a: Bytes, b: Bytes, c: Bytes)
    requires LexLe(a, b) && LexLe(b, c)
    ensures LexLe(a, c)
  {
    if a != [] && a[0] == b[0] == c[0] {
      LexTransitive(a[1..], b[1..], c[1..]);
    }
  }

  lemma LexIsTotalOrder()
    ensures TotalOrder(LexLe)
  {
    forall a: Bytes, b: Bytes
      ensures LexLe(a, b) || LexLe(b, a)
      ensures LexLe(a, b) && LexLe(b, a) ==> a == b
    {
      LexTotal(a, b);
    }
    forall a: Bytes, b: Bytes, c: Bytes | LexLe(a, b) && LexLe(b, c)
      ensures LexLe(a, c)
    {
      LexTransitive(a, b, c);
    }
  }

  /** One text begins the other, or the first octet in which they differ is the lesser. */
  lemma {:induction false} LexLeIff(a: Bytes, b: Bytes)
    ensures LexLe(a, b) <==> a <= b || exists i :: LessAt(a, b, i)
  {
    if a != [] && b != [] {
      hide LessAt;
      LexLeIff(a[1..], b[1..]);
      if a[0] == b[0] {
        PrefixCons(a, b);
        forall i ensures LessAt(a, b, i) <==> LessAt(a[1..], b[1..], i - 1) {
          LessAtCons(a, b, i);
        }
        forall i ensures LessAt(a[1..], b[1..], i) <==> LessAt(a, b, i + 1) {
          LessAtCons(a, b, i + 1);
        }
      } else {
        LessAtStart(a, b);
      }
    } else {
      assert forall i :: !LessAt(a, b, i);
    }
  }

  predicate LessAt(a: Bytes, b: Bytes, i: int) {
    0 <= i < |a| && i < |b| && a[i] < b[i] && forall j :: 0 <= j < i ==> a[j] == b[j]
  }

  lemma PrefixCons(a: Bytes, b: Bytes)
    requires a != [] && b != [] && a[0] == b[0]
    ensures a <= b <==> a[1..] <= b[1..]
  {
    assert a == [a[0]] + a[1..] && b == [b[0]] + b[1..];
  }

  lemma LessAtCons(a: Bytes, b: Bytes, i: int)
    requires a != [] && b != [] && a[0] == b[0]
    ensures LessAt(a, b, i) <==> LessAt(a[1..], b[1..], i - 1)
  {
    if LessAt(a[1..], b[1..], i - 1) {
      assert a[i] == a[1..][i - 1] && b[i] == b[1..][i - 1];
      forall j | 0 <= j < i ensures a[j] == b[j] {
        if j > 0 {
          assert a[j] == a[1..][j - 1] && b[j] == b[1..][j - 1];
        }
      }
    }
  }

  lemma LessAtStart(a: Bytes, b: Bytes)
    requires a != [] && b != [] && a[0] != b[0]
    ensures !(a <= b)
    ensures (exists i :: LessAt(a, b, i)) <==> a[0] < b[0]
  {
    if a[0] < b[0] {
      assert LessAt(a, b, 0);
    }
    forall i | LessAt(a, b, i) ensures i == 0 {
      assert a[0] != b[0];
    }
  }

  type Pair = (Bytes, Bytes)

  /** First components decide, second components break ties. */
  predicate PairLe(p: Pair, q: Pair) {
    if p.0 == q.0 then LexLe(p.1, q.1) else LexLe(p.0, q.0)
  }

  lemma PairIsTotalOrder()
    ensures TotalOrder(PairLe)
  {
    LexIsTotalOrder();
    forall p: Pair, q: Pair
      ensures PairLe(p, q) || PairLe(q, p)
      ensures PairLe(p, q) && PairLe(q, p) ==> p == q
    {
      LexTotal(p.0, q.0);
      LexTotal(p.1, q.1);
    }
    forall p: Pair, q: Pair, r: Pair | PairLe(p, q) && PairLe(q, r)
      ensures PairLe(p, r)
    {
      LexTotal(p.0, q.0);
      LexTotal(q.0, r.0);
    }
  }

  /** The pairs are text, as the types of the original guarantee. */
  predicate IsText(pairs: seq<Pair>) {
    forall i :: 0 <= i < |pairs| ==> Utf8(pairs[i].0) && Utf8(pairs[i].1)
  }

  ghost predicate DistinctNames(pairs: seq<Pair>) {
    forall i, j :: 0 <= i < j < |pairs| ==> pairs[i].0 != pairs[j].0
  }

  lemma PermutationKeepsDistinct(a: seq<Pair>, b: seq<Pair>)
    requires multiset(a) == multiset(b) && DistinctNames(a)
    ensures DistinctNames(b)
  {
    forall i, j | 0 <= i < j < |b|
      ensures b[i].0 != b[j].0
    {
      if b[i] == b[j] {
        RepeatCountsTwice(b, i, j);
        DistinctCountsOnce(a, b[i]);
      } else {
        assert b[i] in multiset(a) && b[j] in multiset(a);
      }
    }
  }
}
