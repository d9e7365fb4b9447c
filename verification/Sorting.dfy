/** A stable sort, as the JavaScript engine's `Array.prototype.sort` is one, and what its result is determined by. */
module Sorting {

  /** `less` orders the elements up to ties: ties and order are transitive, and `less` is never mutual. */
  ghost predicate WeakOrder<T(!new)>(less: (T, T) -> bool) {
    Asymmetric(less) && forall a, b, c :: !less(b, a) && !less(c, b) ==> !less(c, a)
  }

  ghost predicate Asymmetric<T(!new)>(less: (T, T) -> bool) {
    forall a, b :: less(a, b) ==> !less(b, a)
  }

  lemma Chain<T(!new)>(less: (T, T) -> bool, a: T, b: T, c: T)
    requires WeakOrder(less) && !less(b, a) && !less(c, b)
    ensures !less(c, a)
  {
  }

  predicate Tied<T>(less: (T, T) -> bool, a: T, b: T) {
    !less(a, b) && !less(b, a)
  }

  ghost predicate Sorted<T(!new)>(less: (T, T) -> bool, s: seq<T>) {
    forall i, j :: 0 <= i < j < |s| ==> !less(s[j], s[i])
  }

  /** Put `x` behind everything it is not smaller than. */
  function Insert<T>(less: (T, T) -> bool, s: seq<T>, x: T): seq<T> {
    if s == [] then [x]
    else if less(x, s[|s| - 1]) then Insert(less, s[..|s| - 1], x) + [s[|s| - 1]]
    else s + [x]
  }

  function Sort<T>(less: (T, T) -> bool, s: seq<T>): seq<T> {
    if s == [] then [] else Insert(less, Sort(less, s[..|s| - 1]), s[|s| - 1])
  }

  lemma {:induction false} InsertMultiset<T>(less: (T, T) -> bool, s: seq<T>, x: T)
    ensures multiset(Insert(less, s, x)) == multiset(s) + multiset{x}
  {
    if s != [] && less(x, s[|s| - 1]) {
      assert s == s[..|s| - 1] + [s[|s| - 1]];
      InsertMultiset(less, s[..|s| - 1], x);
    }
  }

  /** Appending something not smaller than the last element keeps a sequence sorted. */
  lemma AppendSorted<T(!new)>(less: (T, T) -> bool, s: seq<T>, x: T)
    requires Sorted(less, s) && forall y :: y in s ==> !less(x, y)
    ensures Sorted(less, s + [x])
  {
  }

  lemma {:induction false} InsertSorted<T(!new)>(less: (T, T) -> bool, s: seq<T>, x: T)
    requires WeakOrder(less) && Sorted(less, s)
    ensures Sorted(less, Insert(less, s, x))
  {
    if s != [] {
      var rest, last := s[..|s| - 1], s[|s| - 1];
      if less(x, last) {
        InsertSorted(less, rest, x);
        InsertMultiset(less, rest, x);
        var r := Insert(less, rest, x);
        forall y | y in r ensures !less(last, y) {
          assert y in multiset(r);
          assert y in rest || y == x;
        }
        AppendSorted(less, r, last);
      } else {
        forall y | y in s ensures !less(x, y) {
          assert y == last || !less(last, y);
          assert !less(y, y);
          Chain(less, y, last, x);
        }
        AppendSorted(less, s, x);
      }
    }
  }

  lemma {:induction false} SortKeeps<T(!new)>(less: (T, T) -> bool, s: seq<T>)
    requires WeakOrder(less)
    ensures Sorted(less, Sort(less, s)) && multiset(Sort(less, s)) == multiset(s)
    ensures |Sort(less, s)| == |s|
  {
    if s != [] {
      var rest, last := s[..|s| - 1], s[|s| - 1];
      assert s == rest + [last];
      SortKeeps(less, rest);
      InsertSorted(less, Sort(less, rest), last);
      InsertMultiset(less, Sort(less, rest), last);
    }
    assert |multiset(Sort(less, s))| == |multiset(s)|;
  }

  /** The elements of `s` that tie with `x`, in order. */
  function TiesOf<T>(less: (T, T) -> bool, x: T, s: seq<T>): seq<T> {
    if s == [] then []
    else
      var rest := TiesOf(less, x, s[..|s| - 1]);
      if Tied(less, x, s[|s| - 1]) then rest + [s[|s| - 1]] else rest
  }

  lemma TiesOfAppend<T>(less: (T, T) -> bool, x: T, s: seq<T>, y: T)
    ensures TiesOf(less, x, s + [y]) == TiesOf(less, x, s) + if Tied(less, x, y) then [y] else []
  {
    assert (s + [y])[..|s|] == s;
  }

  lemma {:induction false} InsertStable<T(!new)>(less: (T, T) -> bool, s: seq<T>, x: T, y: T)
    requires WeakOrder(less)
    ensures TiesOf(less, y, Insert(less, s, x)) == TiesOf(less, y, s + [x])
  {
    if s != [] && less(x, s[|s| - 1]) {
      var rest, last := s[..|s| - 1], s[|s| - 1];
      assert s == rest + [last];
      InsertStable(less, rest, x, y);
      TiesOfAppend(less, y, Insert(less, rest, x), last);
      TiesOfAppend(less, y, rest, x);
      TiesOfAppend(less, y, rest, last);
      TiesOfAppend(less, y, s, x);
      assert !(Tied(less, y, x) && Tied(less, y, last));
    }
  }

  /** Sorting keeps tied elements in their original order. */
  lemma {:induction false} SortStable<T(!new)>(less: (T, T) -> bool, s: seq<T>, y: T)
    requires WeakOrder(less)
    ensures TiesOf(less, y, Sort(less, s)) == TiesOf(less, y, s)
  {
    if s != [] {
      var rest, last := s[..|s| - 1], s[|s| - 1];
      assert s == rest + [last];
      SortStable(less, rest, y);
      InsertStable(less, Sort(less, rest), last, y);
      TiesOfAppend(less, y, Sort(less, rest), last);
      TiesOfAppend(less, y, rest, last);
    }
  }

  /** Tied elements of `s` are equal. */
  ghost predicate TiesAreEqual<T(!new)>(less: (T, T) -> bool, s: multiset<T>) {
    forall a, b :: a in s && b in s && Tied(less, a, b) ==> a == b
  }

  lemma LastIsLargest<T(!new)>(less: (T, T) -> bool, s: seq<T>, x: T)
    requires Asymmetric(less) && Sorted(less, s) && x in multiset(s)
    ensures s != [] && !less(s[|s| - 1], x)
  {
    var i :| 0 <= i < |s| && s[i] == x;
    assert !less(x, x);
  }

  lemma WithoutLast<T>(s: seq<T>)
    requires s != []
    ensures multiset(s[..|s| - 1]) == multiset(s) - multiset{s[|s| - 1]}
    ensures s[|s| - 1] in multiset(s)
  {
    assert s == s[..|s| - 1] + [s[|s| - 1]];
  }

  lemma SameLast<T(!new)>(less: (T, T) -> bool, a: seq<T>, b: seq<T>)
    requires Asymmetric(less) && Sorted(less, a) && Sorted(less, b) && a != []
    requires multiset(a) == multiset(b) && TiesAreEqual(less, multiset(a))
    ensures b != [] && a[|a| - 1] == b[|b| - 1]
  {
    WithoutLast(a);
    LastIsLargest(less, b, a[|a| - 1]);
    WithoutLast(b);
    LastIsLargest(less, a, b[|b| - 1]);
  }

  lemma FewerTies<T(!new)>(less: (T, T) -> bool, s: multiset<T>, t: multiset<T>)
    requires TiesAreEqual(less, s) && t <= s
    ensures TiesAreEqual(less, t)
  {
    assert forall x :: x in t ==> x in s;
  }

  lemma SortedPrefix<T(!new)>(less: (T, T) -> bool, s: seq<T>)
    requires Sorted(less, s) && s != []
    ensures Sorted(less, s[..|s| - 1])
  {
  }

  /** What is left of two sorted sequences of one multiset when their last elements are removed. */
  lemma PeelLast<T(!new)>(less: (T, T) -> bool, a: seq<T>, b: seq<T>)
    requires Asymmetric(less) && Sorted(less, a) && Sorted(less, b) && a != []
    requires multiset(a) == multiset(b) && TiesAreEqual(less, multiset(a))
    ensures b != [] && a[|a| - 1] == b[|b| - 1]
    ensures multiset(a[..|a| - 1]) == multiset(b[..|b| - 1]) && TiesAreEqual(less, multiset(a[..|a| - 1]))
  {
    SameLast(less, a, b);
    WithoutLast(a);
    WithoutLast(b);
    FewerTies(less, multiset(a), multiset(a[..|a| - 1]));
  }

  lemma EmptyMultiset<T>(s: seq<T>)
    requires multiset(s) == multiset{}
    ensures s == []
  {
    assert |multiset(s)| == |s|;
  }

  /** Where ties are equalities, the sorted order of a multiset is unique. */
  lemma {:induction false} SortedUnique<T(!new)>(less: (T, T) -> bool, a: seq<T>, b: seq<T>)
    requires Asymmetric(less) && Sorted(less, a) && Sorted(less, b)
    requires multiset(a) == multiset(b) && TiesAreEqual(less, multiset(a))
    ensures a == b
    decreases |a|
  {
    if a == [] {
      EmptyMultiset(b);
    } else {
      PeelLast(less, a, b);
      SortedPrefix(less, a);
      SortedPrefix(less, b);
      SortedUnique(less, a[..|a| - 1], b[..|b| - 1]);
    }
  }

  /** Where ties are equalities, sorting forgets the original order. */
  lemma SortForgetsOrder<T(!new)>(less: (T, T) -> bool, a: seq<T>, b: seq<T>)
    requires WeakOrder(less) && multiset(a) == multiset(b) && TiesAreEqual(less, multiset(a))
    ensures Sort(less, a) == Sort(less, b)
  {
    SortKeeps(less, a);
    SortKeeps(less, b);
    SortedUnique(less, Sort(less, a), Sort(less, b));
  }

  // ----- sorting without ties -----

  ghost predicate Distinct<T(!new)>(s: seq<T>) {
    forall i, j :: 0 <= i < j < |s| ==> s[i] != s[j]
  }

  lemma {:induction false} DistinctOnce<T(!new)>(s: seq<T>, x: T)
    requires Distinct(s)
    ensures multiset(s)[x] <= 1
  {
    if s != [] {
      DistinctOnce(s[..|s| - 1], x);
      WithoutLast(s);
      if s[|s| - 1] == x {
        assert x !in s[..|s| - 1];
      }
    }
  }

  lemma RepeatedTwice<T>(s: seq<T>, i: nat, j: nat)
    requires i < j < |s| && s[i] == s[j]
    ensures multiset(s)[s[i]] >= 2
  {
    assert s == s[..j] + [s[j]] + s[j + 1..];
    assert s[i] in multiset(s[..j]) by {
      assert s[..j][i] == s[i];
    }
  }

  /** A reordering of distinct elements has distinct elements. */
  lemma DistinctReordered<T(!new)>(s: seq<T>, t: seq<T>)
    requires Distinct(s) && multiset(s) == multiset(t)
    ensures Distinct(t)
  {
    forall i, j | 0 <= i < j < |t| ensures t[i] != t[j] {
      if t[i] == t[j] {
        RepeatedTwice(t, i, j);
        DistinctOnce(s, t[i]);
      }
    }
  }

  // ----- mapping a sequence keeps multisets -----

  function MapSeq<A, B>(f: A -> B, s: seq<A>): (r: seq<B>)
    ensures |r| == |s| && forall i :: 0 <= i < |s| ==> r[i] == f(s[i])
  {
    seq(|s|, i requires 0 <= i < |s| => f(s[i]))
  }

  /** Take one occurrence of `x` out of a sequence. */
  lemma TakeOut<T>(s: seq<T>, x: T) returns (i: nat, rest: seq<T>)
    requires x in s
    ensures i < |s| && s[i] == x && rest == s[..i] + s[i + 1..]
    ensures multiset(s) == multiset(rest) + multiset{x}
  {
    i :| 0 <= i < |s| && s[i] == x;
    rest := s[..i] + s[i + 1..];
    assert s == s[..i] + [x] + s[i + 1..];
  }

  lemma MapTakeOut<A, B>(f: A -> B, s: seq<A>, x: A) returns (rest: seq<A>)
    requires x in s
    ensures multiset(s) == multiset(rest) + multiset{x} && |rest| + 1 == |s|
    ensures multiset(MapSeq(f, s)) == multiset(MapSeq(f, rest)) + multiset{f(x)}
  {
    var i;
    i, rest := TakeOut(s, x);
    var m := MapSeq(f, s);
    assert MapSeq(f, rest) == m[..i] + m[i + 1..];
    assert m == m[..i] + [f(x)] + m[i + 1..];
  }

  lemma {:induction false} MapMultiset<A(!new), B>(f: A -> B, a: seq<A>, b: seq<A>)
    requires multiset(a) == multiset(b)
    ensures multiset(MapSeq(f, a)) == multiset(MapSeq(f, b))
    decreases |a|
  {
    if a == [] {
      EmptyMultiset(b);
    } else {
      var x := a[0];
      assert x in multiset(b);
      var a' := MapTakeOut(f, a, x);
      var b' := MapTakeOut(f, b, x);
      Cancel(multiset(a'), multiset(b'), x);
      MapMultiset(f, a', b');
    }
  }

  lemma Cancel<T>(s: multiset<T>, t: multiset<T>, x: T)
    requires s + multiset{x} == t + multiset{x}
    ensures s == t
  {
    assert s == (s + multiset{x}) - multiset{x};
    assert t == (t + multiset{x}) - multiset{x};
  }

  // ----- pairs whose parts decide each other -----

  function Firsts<A, B>(s: seq<(A, B)>): (r: seq<A>)
    ensures |r| == |s| && forall i :: 0 <= i < |r| ==> r[i] == s[i].0
  {
    seq(|s|, i requires 0 <= i < |s| => s[i].0)
  }

  function Seconds<A, B>(s: seq<(A, B)>): (r: seq<B>)
    ensures |r| == |s| && forall i :: 0 <= i < |r| ==> r[i] == s[i].1
  {
    seq(|s|, i requires 0 <= i < |s| => s[i].1)
  }

  lemma CountFront<T>(s: seq<T>, t: seq<T>, x: T)
    requires s != [] && t == s[1..]
    ensures multiset(s)[x] == multiset(t)[x] + if s[0] == x then 1 else 0
  {
    assert s == [s[0]] + t;
  }

  lemma {:induction false} CountsAgree<A, B>(s: seq<(A, B)>, x: A, y: B)
    requires forall p :: p in s ==> (p.0 == x <==> p.1 == y)
    ensures multiset(Firsts(s))[x] == multiset(Seconds(s))[y]
  {
    if s != [] {
      assert forall p :: p in s[1..] ==> p in s;
      CountsAgree(s[1..], x, y);
      assert Firsts(s)[1..] == Firsts(s[1..]) && Seconds(s)[1..] == Seconds(s[1..]);
      CountFront(Firsts(s), Firsts(s[1..]), x);
      CountFront(Seconds(s), Seconds(s[1..]), y);
      assert s[0] in s;
    }
  }

  ghost predicate DecideEachOther<A(!new), B(!new)>(s: seq<(A, B)>) {
    forall p, q :: p in s && q in s ==> (p.0 == q.0 <==> p.1 == q.1)
  }

  /** The counts of a part that occurs, through a pair that holds it. */
  lemma PartsCount<A(!new), B(!new)>(s: seq<(A, B)>, t: seq<(A, B)>, p: (A, B))
    requires DecideEachOther(s + t) && p in s + t
    ensures multiset(Firsts(s))[p.0] == multiset(Seconds(s))[p.1]
    ensures multiset(Firsts(t))[p.0] == multiset(Seconds(t))[p.1]
  {
    forall q | q in s ensures q.0 == p.0 <==> q.1 == p.1 {
      assert q in s + t;
    }
    forall q | q in t ensures q.0 == p.0 <==> q.1 == p.1 {
      assert q in s + t;
    }
    CountsAgree(s, p.0, p.1);
    CountsAgree(t, p.0, p.1);
  }

  lemma FirstAt<A, B>(s: seq<(A, B)>, x: A) returns (p: (A, B))
    requires x in Firsts(s)
    ensures p in s && p.0 == x
  {
    var i :| 0 <= i < |s| && Firsts(s)[i] == x;
    p := s[i];
  }

  lemma SecondAt<A, B>(s: seq<(A, B)>, y: B) returns (p: (A, B))
    requires y in Seconds(s)
    ensures p in s && p.1 == y
  {
    var i :| 0 <= i < |s| && Seconds(s)[i] == y;
    p := s[i];
  }

  /** Where the parts of pairs decide each other, two lists have one multiset of first parts exactly when of second. */
  lemma PartsDecideMultisets<A(!new), B(!new)>(s: seq<(A, B)>, t: seq<(A, B)>)
    requires DecideEachOther(s + t)
    ensures multiset(Firsts(s)) == multiset(Firsts(t)) <==> multiset(Seconds(s)) == multiset(Seconds(t))
  {
    if multiset(Firsts(s)) == multiset(Firsts(t)) {
      forall y ensures multiset(Seconds(s))[y] == multiset(Seconds(t))[y] {
        if y in Seconds(s) {
          var p := SecondAt(s, y);
          PartsCount(s, t, p);
        } else if y in Seconds(t) {
          var p := SecondAt(t, y);
          PartsCount(s, t, p);
        }
      }
    }
    if multiset(Seconds(s)) == multiset(Seconds(t)) {
      forall x ensures multiset(Firsts(s))[x] == multiset(Firsts(t))[x] {
        if x in Firsts(s) {
          var p := FirstAt(s, x);
          PartsCount(s, t, p);
        } else if x in Firsts(t) {
          var p := FirstAt(t, x);
          PartsCount(s, t, p);
        }
      }
    }
  }
}
