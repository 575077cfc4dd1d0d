/** Sorting by a comparison, and the order of strings. */
module Sorting {

  // ---------- the order of strings ----------

  /** Go compares strings byte by byte, which for UTF-8 is code point by code point. */
  predicate Less(a: string, b: string) {
    b != [] && (a == [] || a[0] < b[0] || (a[0] == b[0] && Less(a[1..], b[1..])))
  }

  lemma {:induction false} LessIsTotal(a: string, b: string)
    ensures Less(a, b) ==> !Less(b, a)
    ensures !Less(a, b) && !Less(b, a) <==> a == b
    decreases |a|
  {
    if a != [] && b != [] && a[0] == b[0] {
      LessIsTotal(a[1..], b[1..]);
      assert a == [a[0]] + a[1..] && b == [b[0]] + b[1..];
    }
  }

  lemma {:induction false} LessIsTransitive(a: string, b: string, c: string)
    requires !Less(b, a) && !Less(c, b)
    ensures !Less(c, a)
    decreases |a|
  {
    if a != [] && b != [] && c != [] && a[0] == b[0] == c[0] {
      LessIsTransitive(a[1..], b[1..], c[1..]);
    }
  }

  /** The strings first differ at `i`, where `a` has the smaller character. */
  predicate SmallerAt(a: string, b: string, i: int) {
    0 <= i < |a| && i < |b| && a[..i] == b[..i] && (a[i] as int) < b[i] as int
  }

  lemma SmallerLater(a: string, b: string, i: nat)
    requires a != [] && b != []
    ensures SmallerAt(a, b, i + 1) <==> a[0] == b[0] && SmallerAt(a[1..], b[1..], i)
    ensures SmallerAt(a, b, 0) <==> (a[0] as int) < b[0] as int
  {
    if i < |a| - 1 && i < |b| - 1 {
      assert a[..i + 1] == [a[0]] + a[1..][..i] && b[..i + 1] == [b[0]] + b[1..][..i];
      if a[..i + 1] == b[..i + 1] {
        assert a[..i + 1][1..] == a[1..][..i] && b[..i + 1][1..] == b[1..][..i];
        assert a[..i + 1][0] == a[0] && b[..i + 1][0] == b[0];
      }
    }
  }

  /** One string is less than another iff it is a shorter beginning of it, or has the smaller character where they first differ. */
  lemma {:induction false} LessIs(a: string, b: string)
    ensures Less(a, b) <==> a < b || exists i :: SmallerAt(a, b, i)
    decreases |a|
  {
    if a != [] && b != [] {
      LessIs(a[1..], b[1..]);
      assert a == [a[0]] + a[1..] && b == [b[0]] + b[1..];
      SmallerLater(a, b, 0);
      if i :| SmallerAt(a, b, i) {
        if i > 0 {
          SmallerLater(a, b, i - 1);
        }
      }
      if i :| a[0] == b[0] && SmallerAt(a[1..], b[1..], i) {
        SmallerLater(a, b, i);
      }
    }
  }

  // ---------- sorting ----------

  /** A strict order in which elements may tie. */
  ghost predicate WeakOrder<T(!new)>(less: (T, T) -> bool) {
    && (forall a, b :: less(a, b) ==> !less(b, a))
    && (forall a, b, c :: !less(b, a) && !less(c, b) ==> !less(c, a))
  }

  ghost predicate Ordered<T>(s: seq<T>, less: (T, T) -> bool) {
    forall i, j :: 0 <= i < j < |s| ==> !less(s[j], s[i])
  }

  predicate Ties<T>(less: (T, T) -> bool, a: T, b: T) {
    !less(a, b) && !less(b, a)
  }

  /** The elements that tie with `x`, in their order. */
  function Tied<T>(s: seq<T>, less: (T, T) -> bool, x: T): seq<T> {
    if s == [] then []
    else Tied(s[..|s| - 1], less, x) + if Ties(less, s[|s| - 1], x) then [s[|s| - 1]] else []
  }

  /** What a stable sort of `s` is. */
  ghost predicate IsStableSort<T(!new)>(t: seq<T>, s: seq<T>, less: (T, T) -> bool) {
    Ordered(t, less) && multiset(t) == multiset(s) && SameTies(t, s, less)
  }

  /** Puts `x` behind the last element it is not less than. */
  function Insert<T>(s: seq<T>, x: T, less: (T, T) -> bool): seq<T> {
    if s == [] || !less(x, s[|s| - 1]) then s + [x]
    else Insert(s[..|s| - 1], x, less) + [s[|s| - 1]]
  }

  function Sort<T>(s: seq<T>, less: (T, T) -> bool): seq<T> {
    if s == [] then [] else Insert(Sort(s[..|s| - 1], less), s[|s| - 1], less)
  }

  lemma {:induction false} InsertPermutes<T>(s: seq<T>, x: T, less: (T, T) -> bool)
    ensures multiset(Insert(s, x, less)) == multiset(s) + multiset{x}
    decreases |s|
  {
    if s != [] && less(x, s[|s| - 1]) {
      InsertPermutes(s[..|s| - 1], x, less);
      assert s == s[..|s| - 1] + [s[|s| - 1]];
    }
  }

  lemma {:induction false} InsertKeepsOrdered<T(!new)>(s: seq<T>, x: T, less: (T, T) -> bool)
    requires WeakOrder(less) && Ordered(s, less)
    ensures Ordered(Insert(s, x, less), less)
    decreases |s|
  {
    var t := Insert(s, x, less);
    if s == [] || !less(x, s[|s| - 1]) {
      forall i | 0 <= i < |s| ensures !less(x, s[i]) {
        assert !less(s[|s| - 1], s[i]);
      }
    } else {
      var last := s[|s| - 1];
      InsertKeepsOrdered(s[..|s| - 1], x, less);
      InsertPermutes(s[..|s| - 1], x, less);
      forall i | 0 <= i < |t| - 1 ensures !less(last, t[i]) {
        assert t[i] in multiset(Insert(s[..|s| - 1], x, less));
        assert t[i] == x || t[i] in s[..|s| - 1];
      }
    }
  }

  lemma TiedMore<T>(s: seq<T>, y: T, less: (T, T) -> bool, x: T)
    ensures Tied(s + [y], less, x) == Tied(s, less, x) + if Ties(less, y, x) then [y] else []
  {
    assert (s + [y])[..|s|] == s;
  }

  lemma {:induction false} InsertKeepsTies<T(!new)>(s: seq<T>, y: T, less: (T, T) -> bool, x: T)
    requires WeakOrder(less)
    ensures Tied(Insert(s, y, less), less, x) == Tied(s, less, x) + if Ties(less, y, x) then [y] else []
    decreases |s|
  {
    if s == [] || !less(y, s[|s| - 1]) {
      TiedMore(s, y, less, x);
    } else {
      var front, last := s[..|s| - 1], s[|s| - 1];
      InsertKeepsTies(front, y, less, x);
      TiedMore(Insert(front, y, less), last, less, x);
      TiedMore(front, last, less, x);
      assert s == front + [last];
      NotBoth(less, y, last, x);
    }
  }

  lemma NotBoth<T(!new)>(less: (T, T) -> bool, a: T, b: T, x: T)
    requires WeakOrder(less) && less(a, b)
    ensures !(Ties(less, a, x) && Ties(less, b, x))
  {
  }

  lemma {:induction false} SortIsStable<T(!new)>(s: seq<T>, less: (T, T) -> bool)
    requires WeakOrder(less)
    ensures IsStableSort(Sort(s, less), s, less)
    decreases |s|
  {
    if s != [] {
      var front, last := s[..|s| - 1], s[|s| - 1];
      assert s == front + [last];
      SortIsStable(front, less);
      InsertKeepsOrdered(Sort(front, less), last, less);
      InsertPermutes(Sort(front, less), last, less);
      forall x ensures Tied(Sort(s, less), less, x) == Tied(s, less, x) {
        InsertKeepsTies(Sort(front, less), last, less, x);
        TiedMore(Sort(front, less), last, less, x);
        TiedMore(front, last, less, x);
      }
    }
  }

  lemma LastIsGreatest<T(!new)>(s: seq<T>, less: (T, T) -> bool, x: T)
    requires Ordered(s, less) && WeakOrder(less) && x in s
    ensures !less(s[|s| - 1], x)
  {
    var i :| 0 <= i < |s| && s[i] == x;
  }

  lemma TiedEndsIn<T(!new)>(s: seq<T>, less: (T, T) -> bool, x: T)
    requires s != [] && Ties(less, s[|s| - 1], x)
    ensures var t := Tied(s, less, x); t != [] && t[|t| - 1] == s[|s| - 1]
  {
  }

  lemma LastsTie<T(!new)>(a: seq<T>, b: seq<T>, less: (T, T) -> bool)
    requires WeakOrder(less) && Ordered(a, less) && Ordered(b, less) && multiset(a) == multiset(b) && a != []
    ensures b != [] && Ties(less, a[|a| - 1], b[|b| - 1]) && b[|b| - 1] in a
  {
    assert a[|a| - 1] in multiset(b);
    assert b[|b| - 1] in multiset(a);
    LastIsGreatest(a, less, b[|b| - 1]);
    LastIsGreatest(b, less, a[|a| - 1]);
  }

  lemma FrontOf<T>(a: seq<T>)
    requires a != []
    ensures a == a[..|a| - 1] + [a[|a| - 1]] && multiset(a[..|a| - 1]) == multiset(a) - multiset{a[|a| - 1]}
  {
    var front, last := a[..|a| - 1], a[|a| - 1];
    assert a == front + [last];
    assert multiset(front + [last]) == multiset(front) + multiset{last};
  }

  lemma FrontsAgree<T>(a: seq<T>, b: seq<T>)
    requires a != [] && b != [] && multiset(a) == multiset(b) && a[|a| - 1] == b[|b| - 1]
    ensures multiset(a[..|a| - 1]) == multiset(b[..|b| - 1])
    ensures a == a[..|a| - 1] + [a[|a| - 1]] && b == b[..|b| - 1] + [b[|b| - 1]]
  {
    FrontOf(a);
    FrontOf(b);
  }

  ghost predicate SameTies<T(!new)>(a: seq<T>, b: seq<T>, less: (T, T) -> bool) {
    forall x :: Tied(a, less, x) == Tied(b, less, x)
  }

  lemma Cancel<T>(a: seq<T>, b: seq<T>, c: seq<T>)
    requires a + c == b + c
    ensures a == b
  {
    assert |a| == |b|;
    assert (a + c)[..|a|] == a && (b + c)[..|b|] == b;
  }

  lemma FrontsTieAlike<T(!new)>(a: seq<T>, b: seq<T>, x: T, less: (T, T) -> bool)
    requires SameTies(a + [x], b + [x], less)
    ensures SameTies(a, b, less)
  {
    forall z ensures Tied(a, less, z) == Tied(b, less, z) {
      TiedMore(a, x, less, z);
      TiedMore(b, x, less, z);
      assert Tied(a + [x], less, z) == Tied(b + [x], less, z);
      Cancel(Tied(a, less, z), Tied(b, less, z), if Ties(less, x, z) then [x] else []);
    }
  }

  /** A stable sort has one result. */
  lemma {:induction false} StableSortIsUnique<T(!new)>(a: seq<T>, b: seq<T>, less: (T, T) -> bool)
    requires WeakOrder(less) && Ordered(a, less) && Ordered(b, less) && multiset(a) == multiset(b)
    requires SameTies(a, b, less)
    ensures a == b
    decreases |a|
  {
    hide Tied, WeakOrder;
    if a == [] {
      assert |multiset(b)| == 0;
    } else {
      LastsTie(a, b, less);
      var x, y := a[|a| - 1], b[|b| - 1];
      TiesIsSymmetric(less, x, y);
      TiedEndsIn(a, less, y);
      TiedEndsIn(b, less, y);
      assert Tied(a, less, y) == Tied(b, less, y);
      FrontsAgree(a, b);
      FrontsTieAlike(a[..|a| - 1], b[..|b| - 1], x, less);
      StableSortIsUnique(a[..|a| - 1], b[..|b| - 1], less);
    }
  }

  lemma TiesIsSymmetric<T(!new)>(less: (T, T) -> bool, x: T, y: T)
    requires WeakOrder(less)
    ensures Ties(less, x, y) <==> Ties(less, y, x)
    ensures Ties(less, y, y)
  {
  }

  /** No two different elements tie. */
  ghost predicate TieFree<T(!new)>(s: seq<T>, less: (T, T) -> bool) {
    forall x, y :: x in s && y in s && Ties(less, x, y) ==> x == y
  }

  /** Without ties, being an ordered permutation is enough: the order of the input is of no matter. */
  lemma {:induction false} OrderedIsUnique<T(!new)>(a: seq<T>, b: seq<T>, less: (T, T) -> bool)
    requires WeakOrder(less) && Ordered(a, less) && Ordered(b, less) && multiset(a) == multiset(b)
    requires TieFree(a, less)
    ensures a == b
    decreases |a|
  {
    hide WeakOrder;
    if a == [] {
      assert |multiset(b)| == 0;
    } else {
      LastsTie(a, b, less);
      assert a[|a| - 1] == b[|b| - 1];
      FrontsAgree(a, b);
      OrderedIsUnique(a[..|a| - 1], b[..|b| - 1], less);
    }
  }
}
