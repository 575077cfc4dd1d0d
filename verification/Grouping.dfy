/** Grouping a sequence by a key, in order. */
module Grouping {
  import opened Sorting

  /** The elements with key `k`, in their order. */
  function Group<T, K(==)>(s: seq<T>, f: T -> K, k: K): seq<T> {
    if s == [] then []
    else Group(s[..|s| - 1], f, k) + if f(s[|s| - 1]) == k then [s[|s| - 1]] else []
  }

  /** The keys, in the order of their first elements. */
  function Keys<T, K(==)>(s: seq<T>, f: T -> K): seq<K> {
    if s == [] then []
    else
      var before := Keys(s[..|s| - 1], f);
      if f(s[|s| - 1]) in before then before else before + [f(s[|s| - 1])]
  }

  ghost predicate Distinct<T>(s: seq<T>) {
    forall i, j :: 0 <= i < j < |s| ==> s[i] != s[j]
  }

  lemma GroupMore<T, K>(s: seq<T>, x: T, f: T -> K, k: K)
    ensures Group(s + [x], f, k) == Group(s, f, k) + if f(x) == k then [x] else []
  {
    assert (s + [x])[..|s|] == s;
  }

  lemma KeysMore<T, K>(s: seq<T>, x: T, f: T -> K)
    ensures Keys(s + [x], f) == if f(x) in Keys(s, f) then Keys(s, f) else Keys(s, f) + [f(x)]
  {
    assert (s + [x])[..|s|] == s;
  }

  lemma {:induction false} KeysAreDistinct<T, K>(s: seq<T>, f: T -> K)
    ensures Distinct(Keys(s, f))
    decreases |s|
  {
    if s != [] {
      KeysAreDistinct(s[..|s| - 1], f);
    }
  }

  /** A key is listed iff its group is not empty. */
  lemma {:induction false} KeysHaveGroups<T, K>(s: seq<T>, f: T -> K, k: K)
    ensures k in Keys(s, f) <==> Group(s, f, k) != []
    decreases |s|
  {
    if s != [] {
      KeysHaveGroups(s[..|s| - 1], f, k);
    }
  }

  lemma AllHaveGroups<T, K>(s: seq<T>, f: T -> K)
    ensures forall i :: 0 <= i < |Keys(s, f)| ==> Group(s, f, Keys(s, f)[i]) != []
  {
    forall i | 0 <= i < |Keys(s, f)| ensures Group(s, f, Keys(s, f)[i]) != [] {
      KeysHaveGroups(s, f, Keys(s, f)[i]);
    }
  }

  lemma {:induction false} GroupHas<T, K>(s: seq<T>, f: T -> K, k: K, x: T)
    ensures x in Group(s, f, k) <==> x in s && f(x) == k
    decreases |s|
  {
    if s != [] {
      GroupHas(s[..|s| - 1], f, k, x);
      assert s == s[..|s| - 1] + [s[|s| - 1]];
    }
  }

  lemma {:induction false} GroupIsOrdered<T(!new), K>(s: seq<T>, f: T -> K, k: K, less: (T, T) -> bool)
    requires Ordered(s, less)
    ensures Ordered(Group(s, f, k), less)
    decreases |s|
  {
    if s != [] {
      var front, last := s[..|s| - 1], s[|s| - 1];
      GroupIsOrdered(front, f, k, less);
      forall i | 0 <= i < |Group(front, f, k)| ensures !less(last, Group(front, f, k)[i]) {
        GroupHas(front, f, k, Group(front, f, k)[i]);
        var j :| 0 <= j < |front| && front[j] == Group(front, f, k)[i];
        assert !less(s[|s| - 1], s[j]);
      }
    }
  }

  // ---------- groups partition ----------

  /** The groups one after another. */
  function Regrouped<T, K(==)>(keys: seq<K>, s: seq<T>, f: T -> K): seq<T> {
    if keys == [] then [] else Regrouped(keys[..|keys| - 1], s, f) + Group(s, f, keys[|keys| - 1])
  }

  lemma LastIsNew<K>(keys: seq<K>)
    requires keys != [] && Distinct(keys)
    ensures keys[|keys| - 1] !in keys[..|keys| - 1]
    ensures forall k :: k in keys <==> k in keys[..|keys| - 1] || k == keys[|keys| - 1]
  {
    assert keys == keys[..|keys| - 1] + [keys[|keys| - 1]];
  }

  lemma {:induction false} RegroupedMore<T, K>(keys: seq<K>, s: seq<T>, x: T, f: T -> K)
    requires Distinct(keys)
    ensures multiset(Regrouped(keys, s + [x], f))
         == multiset(Regrouped(keys, s, f)) + if f(x) in keys then multiset{x} else multiset{}
    decreases |keys|
  {
    if keys != [] {
      var front, k := keys[..|keys| - 1], keys[|keys| - 1];
      RegroupedMore(front, s, x, f);
      GroupMore(s, x, f, k);
      LastIsNew(keys);
      hide Group;
      assert Regrouped(keys, s + [x], f) == Regrouped(front, s + [x], f) + Group(s + [x], f, k);
      assert Regrouped(keys, s, f) == Regrouped(front, s, f) + Group(s, f, k);
    }
  }

  /** The groups of distinct keys that cover the sequence hold each element exactly as often as the sequence. */
  lemma {:induction false} GroupsPartition<T, K>(keys: seq<K>, s: seq<T>, f: T -> K)
    requires Distinct(keys) && forall x :: x in s ==> f(x) in keys
    ensures multiset(Regrouped(keys, s, f)) == multiset(s)
    decreases |s|
  {
    if s == [] {
      NoGroups(keys, s, f);
    } else {
      var front, last := s[..|s| - 1], s[|s| - 1];
      assert s == front + [last];
      GroupsPartition(keys, front, f);
      RegroupedMore(keys, front, last, f);
    }
  }

  lemma {:induction false} NoGroups<T, K>(keys: seq<K>, s: seq<T>, f: T -> K)
    requires s == []
    ensures Regrouped(keys, s, f) == []
    decreases |keys|
  {
    if keys != [] {
      NoGroups(keys[..|keys| - 1], s, f);
    }
  }

  // ---------- mapping to sequences ----------

  function FlatMap<T, U>(s: seq<T>, f: T -> seq<U>): seq<U> {
    if s == [] then [] else FlatMap(s[..|s| - 1], f) + f(s[|s| - 1])
  }

  lemma FlatMapMore<T, U>(s: seq<T>, x: T, f: T -> seq<U>)
    ensures FlatMap(s + [x], f) == FlatMap(s, f) + f(x)
  {
    assert (s + [x])[..|s|] == s;
  }

  lemma {:induction false} FlatMapConcat<T, U>(a: seq<T>, b: seq<T>, f: T -> seq<U>)
    ensures FlatMap(a + b, f) == FlatMap(a, f) + FlatMap(b, f)
    decreases |b|
  {
    if b == [] {
      assert a + b == a;
    } else {
      var front, last := b[..|b| - 1], b[|b| - 1];
      FlatMapConcat(a, front, f);
      FlatMapMore(a + front, last, f);
      FlatMapMore(front, last, f);
      assert a + b == a + front + [last] && b == front + [last];
      hide FlatMap;
      Associate(FlatMap(a, f), FlatMap(front, f), f(last));
    }
  }

  lemma Associate<T>(a: seq<T>, b: seq<T>, c: seq<T>)
    ensures (a + b) + c == a + (b + c)
  {
  }

  lemma {:induction false} GroupIsFlatMap<T, K>(s: seq<T>, f: T -> K, k: K)
    ensures Group(s, f, k) == FlatMap(s, Keep(f, k))
    decreases |s|
  {
    if s != [] {
      GroupIsFlatMap(s[..|s| - 1], f, k);
    }
  }

  function Keep<T, K(==)>(f: T -> K, k: K): T -> seq<T> {
    x => if f(x) == k then [x] else []
  }

  lemma GroupPermutes<T, K>(a: seq<T>, b: seq<T>, f: T -> K, k: K)
    requires multiset(a) == multiset(b)
    ensures multiset(Group(a, f, k)) == multiset(Group(b, f, k))
  {
    GroupIsFlatMap(a, f, k);
    GroupIsFlatMap(b, f, k);
    FlatMapPermutes(a, b, Keep(f, k));
  }

  /** Taking out one element takes out what it maps to. */
  lemma FlatMapWithout<T, U>(s: seq<T>, i: nat, f: T -> seq<U>)
    requires i < |s|
    ensures multiset(FlatMap(s, f)) == multiset(FlatMap(s[..i] + s[i + 1..], f)) + multiset(f(s[i]))
  {
    hide FlatMap;
    var a, x, b := s[..i], s[i], s[i + 1..];
    assert s == a + [x] + b;
    FlatMapConcat(a + [x], b, f);
    FlatMapMore(a, x, f);
    FlatMapConcat(a, b, f);
    var p, q, r := FlatMap(a, f), f(x), FlatMap(b, f);
    assert multiset(p + q + r) == multiset(p) + multiset(q) + multiset(r);
    assert multiset(p + r) == multiset(p) + multiset(r);
  }

  lemma WithoutOne<T>(s: seq<T>, i: nat)
    requires i < |s|
    ensures multiset(s[..i] + s[i + 1..]) == multiset(s) - multiset{s[i]}
  {
    assert s == s[..i] + [s[i]] + s[i + 1..];
  }

  /** What a permutation maps to is a permutation. */
  lemma {:induction false} FlatMapPermutes<T, U>(a: seq<T>, b: seq<T>, f: T -> seq<U>)
    requires multiset(a) == multiset(b)
    ensures multiset(FlatMap(a, f)) == multiset(FlatMap(b, f))
    decreases |a|
  {
    if a == [] {
      assert |multiset(b)| == 0;
    } else {
      var front, last := a[..|a| - 1], a[|a| - 1];
      assert a == front + [last];
      assert last in multiset(b);
      var i :| 0 <= i < |b| && b[i] == last;
      var rest := b[..i] + b[i + 1..];
      WithoutOne(b, i);
      assert multiset(front) == multiset(a) - multiset{last};
      FlatMapPermutes(front, rest, f);
      FlatMapWithout(b, i, f);
      FlatMapMore(front, last, f);
    }
  }

  // ---------- without repetition, only membership counts ----------

  lemma {:induction false} DistinctCounts<T>(s: seq<T>, x: T)
    requires Distinct(s)
    ensures multiset(s)[x] == if x in s then 1 else 0
    decreases |s|
  {
    if s != [] {
      DistinctCounts(s[..|s| - 1], x);
      assert s == s[..|s| - 1] + [s[|s| - 1]];
      assert s[|s| - 1] !in s[..|s| - 1];
    }
  }

  lemma DistinctAgree<T(!new)>(a: seq<T>, b: seq<T>)
    requires Distinct(a) && Distinct(b) && forall x :: x in a <==> x in b
    ensures multiset(a) == multiset(b)
  {
    forall x: T ensures multiset(a)[x] == multiset(b)[x] {
      DistinctCounts(a, x);
      DistinctCounts(b, x);
    }
  }

  lemma {:induction false} RepetitionCounts<T>(s: seq<T>, i: nat, j: nat)
    requires i < j < |s| && s[i] == s[j]
    ensures multiset(s)[s[i]] >= 2
  {
    assert s == s[..j] + s[j..];
    assert s[i] in s[..j] && s[j] in s[j..];
  }

  lemma DistinctPermutes<T>(a: seq<T>, b: seq<T>)
    requires Distinct(a) && multiset(a) == multiset(b)
    ensures Distinct(b)
  {
    forall i, j | 0 <= i < j < |b| ensures b[i] != b[j] {
      DistinctCounts(a, b[i]);
      if b[i] == b[j] {
        RepetitionCounts(b, i, j);
      }
    }
  }

  lemma KeysCover<T, K>(s: seq<T>, f: T -> K)
    ensures forall x :: x in s ==> f(x) in Keys(s, f)
  {
    forall x | x in s ensures f(x) in Keys(s, f) {
      GroupHas(s, f, f(x), x);
      KeysHaveGroups(s, f, f(x));
    }
  }
}
