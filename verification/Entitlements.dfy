/** Planning a new free plan (internal/app/free_plan_migration.go).

    Limits and their JSON are abstract: `L` stands for a non-nil limits value, `None` for a nil one, and `encode` for
    `json.Marshal`, which may fail. Go ranges over a map in any order, and so do the loops here. */
module Entitlements {
  import opened Grouping
  import opened Sorting
  import opened Wrappers

  datatype Entitlement<+L> = Entitlement(key: string, limits: Option<L>)

  datatype Change<+L> = Change(key: string, before: Option<L>, after: Option<L>)

  type Rows<L> = map<string, Option<L>>

  /** Whether a row is as the target wants it. */
  type Same<!L> = (Option<L>, L) -> bool

  /** `sameJSON`: a failed encoding is equal to nothing. */
  function SameJSON<L>(encode: Option<L> -> Option<string>): Same<L> {
    (a, b) => encode(a).Some? && encode(a) == encode(Some(b))
  }

  /** The last row of a key counts. */
  function LastByKey<L>(rows: seq<Entitlement<L>>): Rows<L> {
    if rows == [] then map[]
    else LastByKey(rows[..|rows| - 1])[rows[|rows| - 1].key := rows[|rows| - 1].limits]
  }

  // ---------- what a diff is ----------

  predicate Differs<L>(key: string, before: Rows<L>, target: map<string, L>, same: Same<L>) {
    if key in target then !(key in before && same(before[key], target[key])) else key in before
  }

  function ChangeOf<L>(key: string, before: Rows<L>, target: map<string, L>): Change<L> {
    Change(key, if key in before then before[key] else None, if key in target then Some(target[key]) else None)
  }

  predicate Has<L>(changes: seq<Change<L>>, key: string) {
    exists i :: 0 <= i < |changes| && changes[i].key == key
  }

  ghost predicate DistinctKeys<L>(changes: seq<Change<L>>) {
    forall i, j :: 0 <= i < j < |changes| ==> changes[i].key != changes[j].key
  }

  predicate ByKey<L>(a: Change<L>, b: Change<L>) {
    Less(a.key, b.key)
  }

  /** `changes` holds, once each, the changes of the differing keys among `keys`. */
  ghost predicate Collects<L>(changes: seq<Change<L>>, keys: set<string>, before: Rows<L>, target: map<string, L>, same: Same<L>) {
    && DistinctKeys(changes)
    && (forall i :: 0 <= i < |changes| ==> changes[i] == ChangeOf(changes[i].key, before, target))
    && (forall key :: Has(changes, key) <==> key in keys && Differs(key, before, target, same))
  }

  /** One change for every key that differs and no other, ordered by key. */
  ghost predicate IsDiff<L>(changes: seq<Change<L>>, before: Rows<L>, target: map<string, L>, same: Same<L>) {
    Collects(changes, before.Keys + target.Keys, before, target, same) && Ordered(changes, (a, b) => ByKey(a, b))
  }

  lemma ByKeyIsWeakOrder<L(!new)>()
    ensures WeakOrder((a: Change<L>, b: Change<L>) => ByKey(a, b))
  {
    forall a: Change<L>, b: Change<L> | ByKey(a, b) ensures !ByKey(b, a) {
      LessIsTotal(a.key, b.key);
    }
    forall a: Change<L>, b: Change<L>, c: Change<L> | !ByKey(b, a) && !ByKey(c, b) ensures !ByKey(c, a) {
      LessIsTransitive(a.key, b.key, c.key);
    }
  }

  // ---------- computing it ----------

  /** What the loops do with one key. */
  function WithChange<L>(changes: seq<Change<L>>, key: string, before: Rows<L>, target: map<string, L>, same: Same<L>): seq<Change<L>> {
    if Differs(key, before, target, same) then changes + [ChangeOf(key, before, target)] else changes
  }

  lemma CollectsMore<L>(changes: seq<Change<L>>, keys: set<string>, key: string,
                        before: Rows<L>, target: map<string, L>, same: Same<L>)
    requires Collects(changes, keys, before, target, same) && key !in keys
    ensures Collects(WithChange(changes, key, before, target, same), keys + {key}, before, target, same)
  {
    if Differs(key, before, target, same) {
      var more := changes + [ChangeOf(key, before, target)];
      assert !Has(changes, key);
      forall k ensures Has(more, k) <==> Has(changes, k) || k == key {
        if Has(changes, k) {
          var i :| 0 <= i < |changes| && changes[i].key == k;
          assert more[i].key == k;
        }
        assert more[|changes|].key == key;
      }
    }
  }

  lemma SortedCollects<L(!new)>(changes: seq<Change<L>>, before: Rows<L>, target: map<string, L>, same: Same<L>)
    requires Collects(changes, before.Keys + target.Keys, before, target, same)
    ensures IsDiff(Sort(changes, (a, b) => ByKey(a, b)), before, target, same)
  {
    ByKeyIsWeakOrder<L>();
    SortIsStable(changes, (a, b) => ByKey(a, b));
    PermutedCollects(changes, Sort(changes, (a, b) => ByKey(a, b)), before.Keys + target.Keys, before, target, same);
  }

  lemma PermutedIsDistinct<L(!new)>(changes: seq<Change<L>>, sorted: seq<Change<L>>)
    requires DistinctKeys(changes) && multiset(sorted) == multiset(changes)
    ensures DistinctKeys(sorted)
  {
    assert forall i, j :: 0 <= i < j < |changes| ==> changes[i].key != changes[j].key;
    DistinctPermutes(changes, sorted);
    forall i, j | 0 <= i < j < |sorted| ensures sorted[i].key != sorted[j].key {
      assert sorted[i] in multiset(changes) && sorted[j] in multiset(changes);
      assert sorted[i] in changes && sorted[j] in changes;
      assert sorted[i] != sorted[j];
    }
  }

  lemma PermutedCollects<L(!new)>(changes: seq<Change<L>>, sorted: seq<Change<L>>, keys: set<string>,
                            before: Rows<L>, target: map<string, L>, same: Same<L>)
    requires Collects(changes, keys, before, target, same) && multiset(sorted) == multiset(changes)
    ensures Collects(sorted, keys, before, target, same)
  {
    PermutedIsDistinct(changes, sorted);
    forall c ensures c in changes <==> c in sorted {
      assert c in multiset(changes) <==> c in multiset(sorted);
    }
    forall key ensures Has(sorted, key) <==> Has(changes, key) {
      if Has(changes, key) {
        var i :| 0 <= i < |changes| && changes[i].key == key;
        assert changes[i] in sorted;
      }
      if Has(sorted, key) {
        var i :| 0 <= i < |sorted| && sorted[i].key == key;
        assert sorted[i] in changes;
      }
    }
    forall i | 0 <= i < |sorted| ensures sorted[i] == ChangeOf(sorted[i].key, before, target) {
      assert sorted[i] in changes;
    }
  }

  method DiffEntitlements<L(==, !new)>(current: seq<Entitlement<L>>, target: map<string, L>, same: Same<L>)
    returns (changes: seq<Change<L>>)
    ensures IsDiff(changes, LastByKey(current), target, same)
  {
    hide Collects;
    var before: Rows<L> := map[];
    for i := 0 to |current|
      invariant before == LastByKey(current[..i])
    {
      before := before[current[i].key := current[i].limits];
      assert current[..i + 1][..i] == current[..i];
    }
    assert current[..|current|] == current;
    changes := CollectTargets(before, target, same);
    changes := CollectOthers(changes, before, target, same);
    SortedCollects(changes, before, target, same);
    changes := Sort(changes, (a, b) => ByKey(a, b));
  }

  method AddTarget<L(==, !new)>(changes: seq<Change<L>>, key: string, before: Rows<L>, target: map<string, L>, same: Same<L>)
    returns (more: seq<Change<L>>)
    requires key in target
    ensures more == WithChange(changes, key, before, target, same)
  {
    more := changes;
    if !(key in before && same(before[key], target[key])) {
      more := more + [Change(key, if key in before then before[key] else None, Some(target[key]))];
    }
  }

  /** The loop over the target. */
  method CollectTargets<L(==, !new)>(before: Rows<L>, target: map<string, L>, same: Same<L>) returns (changes: seq<Change<L>>)
    ensures Collects(changes, target.Keys, before, target, same)
  {
    changes := [];
    ghost var done: set<string> := {};
    assert Collects(changes, done, before, target, same);
    hide Collects, WithChange;
    var left := target.Keys;
    while left != {}
      invariant left !! done && left + done == target.Keys
      invariant Collects(changes, done, before, target, same)
      decreases left
    {
      var key :| key in left;
      CollectsMore(changes, done, key, before, target, same);
      changes := AddTarget(changes, key, before, target, same);
      left, done := left - {key}, done + {key};
    }
  }

  lemma OtherDiffers<L>(changes: seq<Change<L>>, key: string, before: Rows<L>, target: map<string, L>, same: Same<L>)
    requires key in before && key !in target
    ensures changes + [Change(key, before[key], None)] == WithChange(changes, key, before, target, same)
  {
  }

  /** The loop over the rows, for those the target does not have. */
  method CollectOthers<L(==, !new)>(targets: seq<Change<L>>, before: Rows<L>, target: map<string, L>, same: Same<L>)
    returns (changes: seq<Change<L>>)
    requires Collects(targets, target.Keys, before, target, same)
    ensures Collects(changes, before.Keys + target.Keys, before, target, same)
  {
    hide Collects, WithChange;
    changes := targets;
    var left := before.Keys;
    ghost var done := target.Keys;
    while left != {}
      invariant left <= before.Keys && left + done == before.Keys + target.Keys && target.Keys <= done
      invariant forall key :: key in left && key in done ==> key in target
      invariant Collects(changes, done, before, target, same)
      decreases left
    {
      var key :| key in left;
      if key !in target {
        CollectsMore(changes, done, key, before, target, same);
        OtherDiffers(changes, key, before, target, same);
        changes := changes + [Change(key, before[key], None)];
        done := done + {key};
      }
      left := left - {key};
    }
    assert done == before.Keys + target.Keys;
  }

  /** There is one diff: the order in which the maps are walked is of no matter. */
  lemma DiffIsUnique<L(!new)>(a: seq<Change<L>>, b: seq<Change<L>>, before: Rows<L>, target: map<string, L>, same: Same<L>)
    requires IsDiff(a, before, target, same) && IsDiff(b, before, target, same)
    ensures a == b
  {
    forall c: Change<L> ensures c in a <==> c in b {
      SameMembers(a, b, c, before, target, same);
    }
    assert Distinct(a) && Distinct(b);
    DistinctAgree(a, b);
    ByKeyIsWeakOrder<L>();
    forall x, y | x in a && y in a && Ties((p, q) => ByKey(p, q), x, y) ensures x == y {
      LessIsTotal(x.key, y.key);
    }
    OrderedIsUnique(a, b, (p, q) => ByKey(p, q));
  }

  lemma SameMembers<L>(a: seq<Change<L>>, b: seq<Change<L>>, c: Change<L>, before: Rows<L>, target: map<string, L>, same: Same<L>)
    requires IsDiff(a, before, target, same) && IsDiff(b, before, target, same)
    ensures c in a <==> c in b
  {
    if c in a {
      assert Has(a, c.key);
      assert Has(b, c.key);
    }
    if c in b {
      assert Has(b, c.key);
      assert Has(a, c.key);
    }
  }

  // ---------- applying it ----------

  function ApplyOne<L>(rows: Rows<L>, c: Change<L>): Rows<L> {
    if c.after.Some? then rows[c.key := c.after] else rows - {c.key}
  }

  function Apply<L>(rows: Rows<L>, changes: seq<Change<L>>): Rows<L> {
    if changes == [] then rows else ApplyOne(Apply(rows, changes[..|changes| - 1]), changes[|changes| - 1])
  }

  lemma {:induction false} AppliedAt<L>(rows: Rows<L>, changes: seq<Change<L>>, i: nat)
    requires DistinctKeys(changes) && i < |changes|
    ensures var c := changes[i];
            (c.key in Apply(rows, changes) <==> c.after.Some?) && (c.after.Some? ==> Apply(rows, changes)[c.key] == c.after)
    decreases |changes|
  {
    var front := changes[..|changes| - 1];
    if i < |front| {
      AppliedAt(rows, front, i);
      assert changes[i].key != changes[|changes| - 1].key;
    }
  }

  lemma {:induction false} AppliedElsewhere<L>(rows: Rows<L>, changes: seq<Change<L>>, key: string)
    requires !Has(changes, key)
    ensures key in Apply(rows, changes) <==> key in rows
    ensures key in rows ==> Apply(rows, changes)[key] == rows[key]
    decreases |changes|
  {
    if changes != [] {
      var front := changes[..|changes| - 1];
      assert forall i :: 0 <= i < |front| ==> changes[i].key != key;
      AppliedElsewhere(rows, front, key);
    }
  }

  /** The rows are what the target asks for. */
  ghost predicate Agrees<L>(rows: Rows<L>, target: map<string, L>, same: Same<L>) {
    rows.Keys == target.Keys && forall key :: key in target ==> key in rows && same(rows[key], target[key])
  }

  /** A diff is a patch to the target: applied, it leaves exactly the target's keys, each with the target's value or
      with the value it had and that counts as the same. */
  lemma DiffPatches<L(!new)>(changes: seq<Change<L>>, before: Rows<L>, target: map<string, L>, same: Same<L>)
    requires IsDiff(changes, before, target, same)
    ensures var applied := Apply(before, changes);
            && applied.Keys == target.Keys
            && forall key :: key in target ==>
                 if key in before && same(before[key], target[key]) then applied[key] == before[key]
                 else applied[key] == Some(target[key])
  {
    var applied := Apply(before, changes);
    forall key
      ensures key in applied <==> key in target
      ensures key in target ==> applied[key] == if key in before && same(before[key], target[key]) then before[key] else Some(target[key])
    {
      if Has(changes, key) {
        var i :| 0 <= i < |changes| && changes[i].key == key;
        AppliedAt(before, changes, i);
        assert changes[i] == ChangeOf(key, before, target);
      } else {
        AppliedElsewhere(before, changes, key);
      }
    }
    assert forall key :: key in applied.Keys <==> key in target.Keys;
  }

  /** There is nothing to change iff the rows already agree. */
  lemma DiffIsEmptyIffAgrees<L>(changes: seq<Change<L>>, before: Rows<L>, target: map<string, L>, same: Same<L>)
    requires IsDiff(changes, before, target, same)
    ensures changes == [] <==> Agrees(before, target, same)
  {
    if changes == [] {
      forall key ensures !Differs(key, before, target, same) {
        assert !Has(changes, key);
      }
      assert forall key :: key in before.Keys <==> key in target.Keys by {
        forall key ensures key in before <==> key in target {
          assert !Differs(key, before, target, same);
        }
      }
      forall key | key in target ensures key in before && same(before[key], target[key]) {
        assert !Differs(key, before, target, same);
      }
    } else {
      assert Has(changes, changes[0].key);
      assert Differs(changes[0].key, before, target, same);
      assert changes[0].key in before.Keys <==> changes[0].key in before;
    }
  }

  ghost predicate AllEncode<L>(target: map<string, L>, encode: Option<L> -> Option<string>) {
    forall key :: key in target ==> encode(Some(target[key])).Some?
  }

  /** The applied diff agrees with the target iff every value of the target can be encoded. */
  lemma AppliedAgreesIffEncodable<L(!new)>(changes: seq<Change<L>>, before: Rows<L>, target: map<string, L>,
                                           encode: Option<L> -> Option<string>)
    requires IsDiff(changes, before, target, SameJSON(encode))
    ensures Agrees(Apply(before, changes), target, SameJSON(encode)) <==> AllEncode(target, encode)
  {
    hide IsDiff;
    var applied := Apply(before, changes);
    DiffPatches(changes, before, target, SameJSON(encode));
    if Agrees(applied, target, SameJSON(encode)) {
      forall key | key in target ensures encode(Some(target[key])).Some? {
        assert SameJSON(encode)(applied[key], target[key]);
      }
    }
  }

  /** Once applied, nothing is left to change, iff every value of the target can be encoded: what cannot be encoded
      is never the same as anything, and is proposed again and again. */
  lemma NothingLeftIffEncodable<L(!new)>(changes: seq<Change<L>>, again: seq<Change<L>>, before: Rows<L>,
                                         target: map<string, L>, encode: Option<L> -> Option<string>)
    requires IsDiff(changes, before, target, SameJSON(encode))
    requires IsDiff(again, Apply(before, changes), target, SameJSON(encode))
    ensures again == [] <==> AllEncode(target, encode)
  {
    AppliedAgreesIffEncodable(changes, before, target, encode);
    DiffIsEmptyIffAgrees(again, Apply(before, changes), target, SameJSON(encode));
  }

  /** What the diff against a target is, by encodings alone: a key of both sides is in it iff one of the two limits cannot be
      encoded or the encodings differ, and a key of one side always is. */
  lemma DiffByEncoding<L>(changes: seq<Change<L>>, before: Rows<L>, target: map<string, L>, encode: Option<L> -> Option<string>,
                          key: string)
    requires IsDiff(changes, before, target, SameJSON(encode))
    ensures Has(changes, key) <==>
              if key in before && key in target
              then encode(before[key]) == None || encode(Some(target[key])) == None || encode(before[key]) != encode(Some(target[key]))
              else key in before || key in target
  {
    assert Has(changes, key) <==> key in before.Keys + target.Keys && Differs(key, before, target, SameJSON(encode));
  }

  /** Applying the diff leaves the keys of the target, each with limits that encode as the target's. */
  lemma AppliedEncodesAsTarget<L(!new)>(changes: seq<Change<L>>, before: Rows<L>, target: map<string, L>,
                                        encode: Option<L> -> Option<string>)
    requires IsDiff(changes, before, target, SameJSON(encode))
    ensures Apply(before, changes).Keys == target.Keys
    ensures forall key :: key in target ==> encode(Apply(before, changes)[key]) == encode(Some(target[key]))
  {
    hide IsDiff;
    DiffPatches(changes, before, target, SameJSON(encode));
  }

  // ---------- the plan ----------

  datatype Org = Org(id: string, slug: string)

  datatype OrgChange<+L> = OrgChange(org: Org, changes: seq<Change<L>>)

  datatype Plan<+L> = Plan(orgs: seq<OrgChange<L>>, skipped: seq<Org>, unaffected: nat, warnings: seq<string>)

  datatype Planned<+L> = Failed | Done(plan: Plan<L>)

  datatype Feature<+V> = Feature(key: string, value: V)

  /** What the store answers; None is an error. */
  datatype Store<!L> = Store(contract: Org -> Option<bool>, active: Org -> Option<seq<Entitlement<L>>>)

  datatype Target<+L> = Target(limits: map<string, L>, unknown: seq<string>)

  /** The limits of the features in the registry, the last of a key counting, and the keys not in it; None when a value
      cannot be converted. */
  function TargetOf<V, D, L>(features: seq<Feature<V>>, defs: map<string, D>, limitsOf: (D, V) -> Option<L>): Option<Target<L>> {
    if features == [] then Some(Target(map[], []))
    else
      var before := TargetOf(features[..|features| - 1], defs, limitsOf);
      var f := features[|features| - 1];
      if before == None then None
      else if f.key !in defs then Some(before.value.(unknown := before.value.unknown + [f.key]))
      else
        var limits := limitsOf(defs[f.key], f.value);
        if limits == None then None else Some(before.value.(limits := before.value.limits[f.key := limits.value]))
  }

  datatype Fate = Unreadable | HasContract | Changed | Unchanged

  ghost function FateOf<L>(org: Org, store: Store<L>, target: map<string, L>, same: Same<L>): Fate {
    if store.contract(org) == None then Unreadable
    else if store.contract(org).value then HasContract
    else if store.active(org) == None then Unreadable
    else if Agrees(LastByKey(store.active(org).value), target, same) then Unchanged
    else Changed
  }

  ghost function Those<L>(orgs: seq<Org>, fate: Fate, store: Store<L>, target: map<string, L>, same: Same<L>): seq<Org> {
    if orgs == [] then []
    else
      var last := orgs[|orgs| - 1];
      Those(orgs[..|orgs| - 1], fate, store, target, same) + if FateOf(last, store, target, same) == fate then [last] else []
  }

  function OrgsOf<L>(changes: seq<OrgChange<L>>): seq<Org> {
    seq(|changes|, i requires 0 <= i < |changes| => changes[i].org)
  }

  /** An organization counts as unchanged iff it has no contract, and its rows have exactly the target's keys, each with limits
      that encode as the target's. */
  lemma UnchangedIff<L>(org: Org, store: Store<L>, target: map<string, L>, encode: Option<L> -> Option<string>)
    ensures FateOf(org, store, target, SameJSON(encode)) == Unchanged <==>
              && store.contract(org) == Some(false) && store.active(org).Some?
              && var rows := LastByKey(store.active(org).value);
                 rows.Keys == target.Keys
                 && forall key :: key in target ==> encode(rows[key]).Some? && encode(rows[key]) == encode(Some(target[key]))
  {
  }

  /** Every organization of the list is where its rows put it, in the order of the list. */
  ghost predicate Sorts<L>(plan: Plan<L>, orgs: seq<Org>, store: Store<L>, target: map<string, L>, same: Same<L>) {
    && plan.skipped == Those(orgs, HasContract, store, target, same)
    && OrgsOf(plan.orgs) == Those(orgs, Changed, store, target, same)
    && plan.unaffected == |Those(orgs, Unchanged, store, target, same)|
    && (forall i :: 0 <= i < |plan.orgs| ==>
          && store.active(plan.orgs[i].org).Some? && plan.orgs[i].changes != []
          && IsDiff(plan.orgs[i].changes, LastByKey(store.active(plan.orgs[i].org).value), target, same))
  }

  lemma ThoseMore<L>(orgs: seq<Org>, i: nat, fate: Fate, store: Store<L>, target: map<string, L>, same: Same<L>)
    requires i < |orgs|
    ensures Those(orgs[..i + 1], fate, store, target, same)
         == Those(orgs[..i], fate, store, target, same) + if FateOf(orgs[i], store, target, same) == fate then [orgs[i]] else []
  {
    assert orgs[..i + 1][..i] == orgs[..i];
  }

  method BuildTarget<V, D, L(==)>(features: seq<Feature<V>>, defs: map<string, D>, limitsOf: (D, V) -> Option<L>)
    returns (result: Option<Target<L>>)
    ensures result == TargetOf(features, defs, limitsOf)
  {
    var target, unknown := map[], [];
    for i := 0 to |features|
      invariant TargetOf(features[..i], defs, limitsOf) == Some(Target(target, unknown))
    {
      var f := features[i];
      assert features[..i + 1][..i] == features[..i];
      if f.key !in defs {
        unknown := unknown + [f.key];
      } else {
        var limits := limitsOf(defs[f.key], f.value);
        if limits == None {
          TargetFails(features, i + 1, defs, limitsOf);
          return None;
        }
        target := target[f.key := limits.value];
      }
    }
    assert features[..|features|] == features;
    return Some(Target(target, unknown));
  }

  lemma {:induction false} TargetFails<V, D, L>(features: seq<Feature<V>>, i: nat, defs: map<string, D>, limitsOf: (D, V) -> Option<L>)
    requires i <= |features| && TargetOf(features[..i], defs, limitsOf) == None
    ensures TargetOf(features, defs, limitsOf) == None
    decreases |features|
  {
    if i == |features| {
      assert features[..i] == features;
    } else {
      var front := features[..|features| - 1];
      assert front[..i] == features[..i];
      TargetFails(front, i, defs, limitsOf);
    }
  }

  predicate LastOfKey<V>(features: seq<Feature<V>>, i: int) {
    0 <= i < |features| && forall j :: i < j < |features| ==> features[j].key != features[i].key
  }

  function IsRegistered<V, D>(defs: map<string, D>): Feature<V> -> bool {
    (f: Feature<V>) => f.key in defs
  }

  function FeatureKeys<V>(features: seq<Feature<V>>): seq<string> {
    seq(|features|, i requires 0 <= i < |features| => features[i].key)
  }

  predicate Converts<V, D, L>(f: Feature<V>, defs: map<string, D>, limitsOf: (D, V) -> Option<L>) {
    f.key in defs ==> limitsOf(defs[f.key], f.value).Some?
  }

  lemma TargetStep<V, D, L>(front: seq<Feature<V>>, last: Feature<V>, defs: map<string, D>, limitsOf: (D, V) -> Option<L>)
    ensures TargetOf(front + [last], defs, limitsOf).Some? <==> TargetOf(front, defs, limitsOf).Some? && Converts(last, defs, limitsOf)
  {
    assert (front + [last])[..|front|] == front;
  }

  lemma {:induction false} TargetFailsIff<V, D, L>(features: seq<Feature<V>>, defs: map<string, D>, limitsOf: (D, V) -> Option<L>)
    ensures TargetOf(features, defs, limitsOf).Some? <==> forall f :: f in features ==> Converts(f, defs, limitsOf)
    decreases |features|
  {
    hide Converts;
    if features != [] {
      hide TargetOf;
      var front, last := features[..|features| - 1], features[|features| - 1];
      TargetFailsIff(front, defs, limitsOf);
      assert features == front + [last];
      TargetStep(front, last, defs, limitsOf);
      assert last in features;
      assert forall f :: f in features ==> f in front || f == last;
      assert forall f :: f in front ==> f in features;
    }
  }

  lemma {:induction false} TargetHas<V, D, L>(features: seq<Feature<V>>, defs: map<string, D>, limitsOf: (D, V) -> Option<L>, key: string)
    requires TargetOf(features, defs, limitsOf).Some?
    ensures key in TargetOf(features, defs, limitsOf).value.limits <==> key in defs && key in FeatureKeys(features)
    decreases |features|
  {
    if features != [] {
      var front, last := features[..|features| - 1], features[|features| - 1];
      TargetHas(front, defs, limitsOf, key);
      assert FeatureKeys(features) == FeatureKeys(front) + [last.key];
    }
  }

  lemma {:induction false} TargetAt<V, D, L>(features: seq<Feature<V>>, defs: map<string, D>, limitsOf: (D, V) -> Option<L>, i: nat)
    requires TargetOf(features, defs, limitsOf).Some? && LastOfKey(features, i) && features[i].key in defs
    ensures var limits := TargetOf(features, defs, limitsOf).value.limits;
            features[i].key in limits && limitsOf(defs[features[i].key], features[i].value) == Some(limits[features[i].key])
    decreases |features|
  {
    if i < |features| - 1 {
      var front := features[..|features| - 1];
      assert LastOfKey(front, i) && features[|features| - 1].key != features[i].key;
      TargetAt(front, defs, limitsOf, i);
    }
  }

  lemma {:induction false} UnknownAre<V, D, L>(features: seq<Feature<V>>, defs: map<string, D>, limitsOf: (D, V) -> Option<L>)
    requires TargetOf(features, defs, limitsOf).Some?
    ensures TargetOf(features, defs, limitsOf).value.unknown == FeatureKeys(Group(features, IsRegistered(defs), false))
    decreases |features|
  {
    if features != [] {
      UnknownAre(features[..|features| - 1], defs, limitsOf);
    }
  }

  /** The target has the listed keys that are registered, each with the limits of its last feature, and names the others in
      order; there is none iff the value of some registered feature cannot be converted, even of one that does not count. */
  lemma TargetIs<V, D, L>(features: seq<Feature<V>>, defs: map<string, D>, limitsOf: (D, V) -> Option<L>)
    ensures var t := TargetOf(features, defs, limitsOf);
            && (t.Some? <==> forall f :: f in features ==> Converts(f, defs, limitsOf))
            && (t.Some? ==>
                  && t.value.limits.Keys == defs.Keys * (set key | key in FeatureKeys(features))
                  && (forall i :: LastOfKey(features, i) && features[i].key in defs ==>
                        && features[i].key in t.value.limits
                        && limitsOf(defs[features[i].key], features[i].value) == Some(t.value.limits[features[i].key]))
                  && t.value.unknown == FeatureKeys(Group(features, IsRegistered(defs), false)))
  {
    hide TargetOf, Group, FeatureKeys, Converts;
    var t := TargetOf(features, defs, limitsOf);
    TargetFailsIff(features, defs, limitsOf);
    if t.Some? {
      forall key ensures key in t.value.limits <==> key in defs && key in FeatureKeys(features) {
        TargetHas(features, defs, limitsOf, key);
      }
      forall i | LastOfKey(features, i) && features[i].key in defs
        ensures features[i].key in t.value.limits
        ensures limitsOf(defs[features[i].key], features[i].value) == Some(t.value.limits[features[i].key])
      {
        TargetAt(features, defs, limitsOf, i);
      }
      UnknownAre(features, defs, limitsOf);
    }
  }

  /** The loop over the organizations. It fails iff the store cannot be read for some organization. */
  method PlanOrganizations<L(==, !new)>(orgs: seq<Org>, store: Store<L>, target: map<string, L>, same: Same<L>, warnings: seq<string>)
    returns (result: Planned<L>)
    ensures result.Failed? <==> exists i :: 0 <= i < |orgs| && FateOf(orgs[i], store, target, same) == Unreadable
    ensures result.Done? ==> Sorts(result.plan, orgs, store, target, same) && result.plan.warnings == warnings
  {
    hide Those, IsDiff, Agrees, LastByKey;
    var plan: Plan<L> := Plan([], [], 0, warnings);
    NobodyYet(store, target, same, warnings);
    assert orgs[..0] == [];
    for i := 0 to |orgs|
      invariant plan.warnings == warnings && Sorts(plan, orgs[..i], store, target, same)
      invariant forall k :: 0 <= k < i ==> FateOf(orgs[k], store, target, same) != Unreadable
    {
      var org := orgs[i];
      ThoseMore(orgs, i, HasContract, store, target, same);
      ThoseMore(orgs, i, Changed, store, target, same);
      ThoseMore(orgs, i, Unchanged, store, target, same);
      var contract := store.contract(org);
      if contract == None {
        return Failed;
      }
      if contract.value {
        plan := plan.(skipped := plan.skipped + [org]);
        continue;
      }
      var active := store.active(org);
      if active == None {
        return Failed;
      }
      var changes := DiffEntitlements(active.value, target, same);
      DiffIsEmptyIffAgrees(changes, LastByKey(active.value), target, same);
      if changes == [] {
        plan := plan.(unaffected := plan.unaffected + 1);
        continue;
      }
      OrgsOfMore(plan.orgs, OrgChange(org, changes));
      plan := plan.(orgs := plan.orgs + [OrgChange(org, changes)]);
    }
    assert orgs[..|orgs|] == orgs;
    return Done(plan);
  }

  /** `listed` is None when the organizations cannot be listed. */
  method PlanFreePlanReprovision<V, D, L(==, !new)>(
    features: seq<Feature<V>>, defs: map<string, D>, limitsOf: (D, V) -> Option<L>,
    listed: Option<seq<Org>>, store: Store<L>, encode: Option<L> -> Option<string>)
    returns (result: Planned<L>)
    ensures result.Done? ==>
              && TargetOf(features, defs, limitsOf).Some? && listed.Some?
              && Sorts(result.plan, listed.value, store, TargetOf(features, defs, limitsOf).value.limits, SameJSON(encode))
              && result.plan.warnings == TargetOf(features, defs, limitsOf).value.unknown
    ensures result.Failed? <==>
              || TargetOf(features, defs, limitsOf) == None || listed == None
              || exists org :: org in listed.value
                   && FateOf(org, store, TargetOf(features, defs, limitsOf).value.limits, SameJSON(encode)) == Unreadable
  {
    hide Sorts, FateOf;
    var target := BuildTarget(features, defs, limitsOf);
    if target == None || listed == None {
      return Failed;
    }
    result := PlanOrganizations(listed.value, store, target.value.limits, SameJSON(encode), target.value.unknown);
  }

  lemma NobodyYet<L>(store: Store<L>, target: map<string, L>, same: Same<L>, warnings: seq<string>)
    ensures Sorts(Plan([], [], 0, warnings), [], store, target, same)
  {
  }

  lemma OrgsOfMore<L>(changes: seq<OrgChange<L>>, c: OrgChange<L>)
    ensures OrgsOf(changes + [c]) == OrgsOf(changes) + [c.org]
  {
  }

  lemma ThoseLast<L>(orgs: seq<Org>, fate: Fate, store: Store<L>, target: map<string, L>, same: Same<L>)
    requires orgs != []
    ensures multiset(Those(orgs, fate, store, target, same))
         == multiset(Those(orgs[..|orgs| - 1], fate, store, target, same))
            + if FateOf(orgs[|orgs| - 1], store, target, same) == fate then multiset{orgs[|orgs| - 1]} else multiset{}
  {
  }

  lemma {:induction false} ThoseHave<L>(orgs: seq<Org>, fate: Fate, org: Org, store: Store<L>, target: map<string, L>, same: Same<L>)
    ensures org in Those(orgs, fate, store, target, same) <==> org in orgs && FateOf(org, store, target, same) == fate
    decreases |orgs|
  {
    if orgs != [] {
      ThoseHave(orgs[..|orgs| - 1], fate, org, store, target, same);
      assert orgs == orgs[..|orgs| - 1] + [orgs[|orgs| - 1]];
    }
  }

  /** The plan puts every organization of the list in exactly one of changed, skipped and unchanged. */
  lemma {:induction false} PlanPartitions<L>(orgs: seq<Org>, store: Store<L>, target: map<string, L>, same: Same<L>)
    requires forall i :: 0 <= i < |orgs| ==> FateOf(orgs[i], store, target, same) != Unreadable
    ensures multiset(Those(orgs, HasContract, store, target, same)) + multiset(Those(orgs, Changed, store, target, same))
            + multiset(Those(orgs, Unchanged, store, target, same)) == multiset(orgs)
    decreases |orgs|
  {
    hide FateOf, Those;
    if orgs == [] {
      NobodyYet(store, target, same, []);
    } else {
      var front, last := orgs[..|orgs| - 1], orgs[|orgs| - 1];
      PlanPartitions(front, store, target, same);
      assert orgs == front + [last];
      ThoseLast(orgs, HasContract, store, target, same);
      ThoseLast(orgs, Changed, store, target, same);
      ThoseLast(orgs, Unchanged, store, target, same);
      assert FateOf(orgs[|orgs| - 1], store, target, same) != Unreadable;
    }
  }

  /** `after` is the store once the changes of the plan have been applied to the rows, and nothing else. */
  ghost predicate Applied<L>(plan: Plan<L>, orgs: seq<Org>, store: Store<L>, after: Store<L>) {
    && (forall org :: org in orgs ==> after.contract(org) == store.contract(org))
    && (forall i :: 0 <= i < |plan.orgs| ==>
          var org := plan.orgs[i].org;
          && store.active(org).Some? && after.active(org).Some?
          && LastByKey(after.active(org).value) == Apply(LastByKey(store.active(org).value), plan.orgs[i].changes))
    && (forall org :: org in orgs && org !in OrgsOf(plan.orgs) ==> after.active(org) == store.active(org))
  }

  /** An organization whose rows were changed now agrees with the target, iff the target can be encoded; every other is
      as it was. */
  lemma FateAfterApplying<L(!new)>(plan: Plan<L>, orgs: seq<Org>, store: Store<L>, after: Store<L>, target: map<string, L>,
                                   encode: Option<L> -> Option<string>, org: Org)
    requires Sorts(plan, orgs, store, target, SameJSON(encode)) && Applied(plan, orgs, store, after) && org in orgs
    ensures var fate := FateOf(org, store, target, SameJSON(encode));
            FateOf(org, after, target, SameJSON(encode)) == if fate == Changed && AllEncode(target, encode) then Unchanged else fate
  {
    hide IsDiff, Apply, LastByKey, Agrees, Those, AllEncode;
    ThoseHave(orgs, Changed, org, store, target, SameJSON(encode));
    if org in OrgsOf(plan.orgs) {
      var i :| 0 <= i < |plan.orgs| && OrgsOf(plan.orgs)[i] == org;
      var before, changes := LastByKey(store.active(org).value), plan.orgs[i].changes;
      AppliedAgreesIffEncodable(changes, before, target, encode);
    }
  }

  lemma {:induction false} ThoseAfterApplying<L(!new)>(orgs: seq<Org>, store: Store<L>, after: Store<L>, target: map<string, L>,
                                                       same: Same<L>, settled: bool)
    requires forall org :: org in orgs ==>
               var fate := FateOf(org, store, target, same);
               FateOf(org, after, target, same) == if fate == Changed && settled then Unchanged else fate
    ensures Those(orgs, HasContract, after, target, same) == Those(orgs, HasContract, store, target, same)
    ensures Those(orgs, Changed, after, target, same) == if settled then [] else Those(orgs, Changed, store, target, same)
    ensures |Those(orgs, Unchanged, after, target, same)|
         == |Those(orgs, Unchanged, store, target, same)| + if settled then |Those(orgs, Changed, store, target, same)| else 0
    decreases |orgs|
  {
    hide FateOf;
    if orgs != [] {
      var front, last := orgs[..|orgs| - 1], orgs[|orgs| - 1];
      assert last in orgs && forall org :: org in front ==> org in orgs;
      ThoseAfterApplying(front, store, after, target, same, settled);
    }
  }

  /** Planning again, once the plan's changes have been applied, finds nothing to change iff nothing was to change at first
      or every target value can be encoded; the changed then count as unchanged. Otherwise it finds the same ones again. */
  lemma ReplanningIsEmpty<L(!new)>(orgs: seq<Org>, plan: Plan<L>, again: Plan<L>, store: Store<L>, after: Store<L>,
                                   target: map<string, L>, encode: Option<L> -> Option<string>)
    requires Sorts(plan, orgs, store, target, SameJSON(encode)) && Applied(plan, orgs, store, after)
    requires Sorts(again, orgs, after, target, SameJSON(encode))
    ensures again.orgs == [] <==> plan.orgs == [] || AllEncode(target, encode)
    ensures again.skipped == plan.skipped
    ensures if AllEncode(target, encode) then again.unaffected == plan.unaffected + |plan.orgs|
            else OrgsOf(again.orgs) == OrgsOf(plan.orgs) && again.unaffected == plan.unaffected
  {
    hide FateOf, Those, IsDiff, LastByKey, AllEncode;
    forall org | org in orgs
      ensures var fate := FateOf(org, store, target, SameJSON(encode));
              FateOf(org, after, target, SameJSON(encode)) == if fate == Changed && AllEncode(target, encode) then Unchanged else fate
    {
      FateAfterApplying(plan, orgs, store, after, target, encode, org);
    }
    ThoseAfterApplying(orgs, store, after, target, SameJSON(encode), AllEncode(target, encode));
    assert |OrgsOf(again.orgs)| == |again.orgs| && |OrgsOf(plan.orgs)| == |plan.orgs|;
  }

  // ---------- the features of the product ----------

  ghost predicate UniqueKeys<V>(features: seq<Feature<V>>) {
    forall i, j :: 0 <= i < j < |features| ==> features[i].key != features[j].key
  }

  function RawRows<V>(features: seq<Feature<V>>): Rows<V> {
    if features == [] then map[]
    else RawRows(features[..|features| - 1])[features[|features| - 1].key := Some(features[|features| - 1].value)]
  }

  function RawTarget<V>(features: seq<Feature<V>>): map<string, V> {
    if features == [] then map[]
    else RawTarget(features[..|features| - 1])[features[|features| - 1].key := features[|features| - 1].value]
  }

  lemma {:induction false} RawAt<V>(features: seq<Feature<V>>, i: nat)
    requires UniqueKeys(features) && i < |features|
    ensures features[i].key in RawRows(features) && RawRows(features)[features[i].key] == Some(features[i].value)
    ensures features[i].key in RawTarget(features) && RawTarget(features)[features[i].key] == features[i].value
    decreases |features|
  {
    if i < |features| - 1 {
      RawAt(features[..|features| - 1], i);
      assert features[i].key != features[|features| - 1].key;
    }
  }

  lemma RawMore<V>(features: seq<Feature<V>>, i: nat)
    requires i < |features|
    ensures RawRows(features[..i + 1]) == RawRows(features[..i])[features[i].key := Some(features[i].value)]
    ensures RawTarget(features[..i + 1]) == RawTarget(features[..i])[features[i].key := features[i].value]
  {
    assert features[..i + 1][..i] == features[..i];
  }

  lemma {:induction false} RawKeys<V>(features: seq<Feature<V>>, key: string)
    ensures key in RawTarget(features) <==> exists i :: 0 <= i < |features| && features[i].key == key
    ensures key in RawRows(features) <==> key in RawTarget(features)
    decreases |features|
  {
    if features != [] {
      RawKeys(features[..|features| - 1], key);
      assert key == features[|features| - 1].key || key != features[|features| - 1].key;
    }
  }

  /** `DiffProductFeatures`, for features listed once each, as the table keeps them. */
  method DiffProductFeatures<V(==, !new)>(current: seq<Feature<V>>, target: seq<Feature<V>>, same: Same<V>)
    returns (out: seq<Change<V>>)
    ensures UniqueKeys(current) && UniqueKeys(target) ==> IsDiff(out, RawRows(current), RawTarget(target), same)
  {
    var cur: map<string, V> := map[];
    for i := 0 to |current|
      invariant cur == RawTarget(current[..i])
    {
      RawMore(current, i);
      cur := cur[current[i].key := current[i].value];
    }
    assert current[..|current|] == current;
    var seen: set<string>;
    out, seen := CompareTargets(current, cur, target, same);
    hide Collects, IsDiff, RawRows, RawTarget;
    out := CollectRemoved(current, target, seen, out, same);
    if UniqueKeys(current) && UniqueKeys(target) {
      SortedCollects(out, RawRows(current), RawTarget(target), same);
    }
    out := Sort(out, (a, b) => ByKey(a, b));
  }

  lemma RemovedMore<V>(current: seq<Feature<V>>, target: seq<Feature<V>>, i: nat, out: seq<Change<V>>, same: Same<V>)
    requires UniqueKeys(current) && i < |current|
    requires Collects(out, RawTarget(target).Keys + RawRows(current[..i]).Keys, RawRows(current), RawTarget(target), same)
    ensures var key := current[i].key;
            Collects(if key in RawTarget(target) then out else out + [Change(key, Some(current[i].value), None)],
                     RawTarget(target).Keys + RawRows(current[..i + 1]).Keys, RawRows(current), RawTarget(target), same)
  {
    var key, before, goal := current[i].key, RawRows(current), RawTarget(target);
    var keys := goal.Keys + RawRows(current[..i]).Keys;
    RawMore(current, i);
    RawAt(current, i);
    KeyIsNew(current, i);
    hide Collects, WithChange, RawRows, RawTarget;
    assert goal.Keys + RawRows(current[..i + 1]).Keys == keys + {key};
    if key in goal {
      assert keys + {key} == keys;
    } else {
      CollectsMore(out, keys, key, before, goal, same);
      OtherDiffers(out, key, before, goal, same);
    }
  }

  lemma KeyIsNew<V>(features: seq<Feature<V>>, i: nat)
    requires UniqueKeys(features) && i < |features|
    ensures features[i].key !in RawRows(features[..i])
  {
    RawKeys(features[..i], features[i].key);
  }

  method CollectRemoved<V(==, !new)>(current: seq<Feature<V>>, ghost target: seq<Feature<V>>, seen: set<string>,
                                     compared: seq<Change<V>>, ghost same: Same<V>)
    returns (out: seq<Change<V>>)
    requires seen == RawTarget(target).Keys
    requires UniqueKeys(current) && UniqueKeys(target) ==>
               Collects(compared, RawTarget(target).Keys + RawRows(current[..0]).Keys, RawRows(current), RawTarget(target), same)
    ensures UniqueKeys(current) && UniqueKeys(target) ==>
              Collects(out, RawRows(current).Keys + RawTarget(target).Keys, RawRows(current), RawTarget(target), same)
  {
    hide Collects, RawRows, RawTarget, UniqueKeys;
    out := compared;
    for i := 0 to |current|
      invariant UniqueKeys(current) && UniqueKeys(target) ==>
                  Collects(out, RawTarget(target).Keys + RawRows(current[..i]).Keys, RawRows(current), RawTarget(target), same)
    {
      if UniqueKeys(current) && UniqueKeys(target) {
        RemovedMore(current, target, i, out, same);
      }
      if current[i].key !in seen {
        out := out + [Change(current[i].key, Some(current[i].value), None)];
      }
    }
    assert current[..|current|] == current;
    assert RawTarget(target).Keys + RawRows(current).Keys == RawRows(current).Keys + RawTarget(target).Keys;
  }

  method CompareTargets<V(==, !new)>(ghost current: seq<Feature<V>>, cur: map<string, V>, target: seq<Feature<V>>, same: Same<V>)
    returns (out: seq<Change<V>>, seen: set<string>)
    requires cur == RawTarget(current)
    ensures seen == RawTarget(target).Keys
    ensures UniqueKeys(current) && UniqueKeys(target) ==>
              Collects(out, RawTarget(target).Keys + RawRows(current[..0]).Keys, RawRows(current), RawTarget(target), same)
  {
    out, seen := [], {};
    ghost var before, goal := RawRows(current), RawTarget(target);
    assert Collects(out, {}, before, goal, same);
    hide Collects;
    for i := 0 to |target|
      invariant seen == RawTarget(target[..i]).Keys
      invariant UniqueKeys(current) && UniqueKeys(target) ==> Collects(out, seen, before, goal, same)
    {
      var key := target[i].key;
      RawMore(target, i);
      RawKeys(target[..i], key);
      RawKeys(current, key);
      if UniqueKeys(current) && UniqueKeys(target) {
        RawAt(target, i);
        if key in cur {
          var j :| 0 <= j < |current| && current[j].key == key;
          RawAt(current, j);
        }
        CollectsMore(out, seen, key, before, goal, same);
      }
      seen := seen + {key};
      if !(key in cur && same(Some(cur[key]), target[i].value)) {
        out := out + [Change(key, if key in cur then Some(cur[key]) else None, Some(target[i].value))];
      }
    }
    assert target[..|target|] == target;
    assert seen + RawRows(current[..0]).Keys == seen;
  }
}
