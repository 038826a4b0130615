/** Requirement identities and the provenance-merging requirement set
    (src/requirement.cpp). */
module Requirements {
  import opened Values

  datatype Boundary = BeforeJudgment | BeforeExecution

  datatype Identity = Identity(kind: nat, subject: Bytes, boundary: Boundary, blocking: bool)

  /** A derived requirement and the indices of the intents that produced it. */
  datatype Instance = Instance(identity: Identity, origins: seq<nat>)

  ghost predicate DistinctIdentities(instances: seq<Instance>)
  {
    forall i, j :: 0 <= i < j < |instances| ==> instances[i].identity != instances[j].identity
  }

  ghost predicate Ascending(s: seq<nat>)
  {
    forall i, j :: 0 <= i < j < |s| ==> s[i] < s[j]
  }

  /** Position of the first instance with the given identity. */
  function Find(instances: seq<Instance>, identity: Identity): (r: Option<nat>)
    ensures r.None? ==> forall j :: 0 <= j < |instances| ==> instances[j].identity != identity
    ensures r.Some? ==> r.value < |instances| && instances[r.value].identity == identity
                        && forall j :: 0 <= j < r.value ==> instances[j].identity != identity
  {
    if instances == [] then None
    else if instances[0].identity == identity then Some(0)
    else
      var r := Find(instances[1..], identity);
      assert forall j :: 0 < j < |instances| ==> instances[j] == instances[1..][j - 1];
      if r.None? then None else Some(r.value + 1)
  }

  /** Appends to `known` each member of `more` it does not hold yet. */
  ghost function WithOrigins(known: seq<nat>, more: seq<nat>): seq<nat>
  {
    if more == [] then known
    else
      var rest := WithOrigins(known, more[..|more| - 1]);
      var last := more[|more| - 1];
      if last in rest then rest else rest + [last]
  }

  /** The instances after one merge. */
  ghost function Merged(instances: seq<Instance>, instance: Instance): seq<Instance>
  {
    match Find(instances, instance.identity)
    case None => instances + [instance]
    case Some(i) => instances[i := instances[i].(origins := WithOrigins(instances[i].origins, instance.origins))]
  }

  /** Merging what one intent derived, in order. */
  ghost function MergedIntent(instances: seq<Instance>, derived: seq<Identity>, index: nat): seq<Instance>
  {
    if derived == [] then instances
    else Merged(MergedIntent(instances, derived[..|derived| - 1], index), Instance(derived[|derived| - 1], [index]))
  }

  /** The union over all intents. `intents[k]` is what intent k derives. */
  ghost function Derived(intents: seq<seq<Identity>>): seq<Instance>
  {
    if intents == [] then []
    else
      var last := |intents| - 1;
      MergedIntent(Derived(intents[..last]), intents[last], last)
  }

  class RequirementSet {
    var instances: seq<Instance>

    constructor ()
      ensures instances == []
    {
      instances := [];
    }

    method Merge(instance: Instance)
      modifies this
      ensures instances == Merged(old(instances), instance)
    {
      for i := 0 to |instances|
        invariant instances == old(instances)
        invariant forall j :: 0 <= j < i ==> instances[j].identity != instance.identity
      {
        if instances[i].identity == instance.identity {
          var origins := instances[i].origins;
          for o := 0 to |instance.origins|
            invariant instances == old(instances)
            invariant origins == WithOrigins(instances[i].origins, instance.origins[..o])
          {
            assert instance.origins[..o + 1][..o] == instance.origins[..o];
            if instance.origins[o] !in origins {
              origins := origins + [instance.origins[o]];
            }
          }
          assert instance.origins[..|instance.origins|] == instance.origins;
          instances := instances[i := instances[i].(origins := origins)];
          return;
        }
      }
      instances := instances + [instance];
    }
  }

  method DeriveRequirementSet(intents: seq<seq<Identity>>) returns (requirements: RequirementSet)
    ensures fresh(requirements)
    ensures requirements.instances == Derived(intents)
  {
    requirements := new RequirementSet();
    for index := 0 to |intents|
      invariant fresh(requirements)
      invariant requirements.instances == Derived(intents[..index])
    {
      var derived := intents[index];
      for k := 0 to |derived|
        invariant fresh(requirements)
        invariant requirements.instances == MergedIntent(Derived(intents[..index]), derived[..k], index)
      {
        assert derived[..k + 1][..k] == derived[..k];
        requirements.Merge(Instance(derived[k], [index]));
      }
      assert derived[..|derived|] == derived;
      assert intents[..index + 1][..index] == intents[..index];
    }
    assert intents[..|intents|] == intents;
  }

  // ---- What the derived set contains ----

  /** Intent k derived this identity, looking only at the first n intents and
      the first m requirements of intent n. */
  ghost predicate Produced(intents: seq<seq<Identity>>, n: nat, m: nat, identity: Identity, k: nat)
  {
    (k < n && k < |intents| && identity in intents[k])
    || (k == n < |intents| && m <= |intents[n]| && identity in intents[n][..m])
  }

  ghost predicate Exact(instances: seq<Instance>, intents: seq<seq<Identity>>, n: nat, m: nat)
  {
    && DistinctIdentities(instances)
    && (forall i :: 0 <= i < |instances| ==> Ascending(instances[i].origins) && instances[i].origins != [])
    && (forall i, k: nat :: 0 <= i < |instances| ==>
          (k in instances[i].origins <==> Produced(intents, n, m, instances[i].identity, k)))
    && (forall k: nat, identity :: Produced(intents, n, m, identity, k) ==>
          Find(instances, identity).Some?)
  }

  lemma MergeKeepsExact(instances: seq<Instance>, intents: seq<seq<Identity>>, n: nat, m: nat)
    requires n < |intents| && m < |intents[n]|
    requires Exact(instances, intents, n, m)
    ensures Exact(Merged(instances, Instance(intents[n][m], [n])), intents, n, m + 1)
  {
    var identity, m' := intents[n][m], m + 1;
    var after := Merged(instances, Instance(identity, [n]));
    assert intents[n][..m'] == intents[n][..m] + [identity];
    assert forall id, k: nat :: Produced(intents, n, m', id, k) <==>
      Produced(intents, n, m, id, k) || (k == n && id == identity);
    var found := Find(instances, identity);
    if found.Some? {
      var i := found.value;
      assert WithOrigins(instances[i].origins, [n]) ==
        if n in instances[i].origins then instances[i].origins else instances[i].origins + [n] by {
        assert [n][..0] == [];
      }
      forall j | 0 <= j < |instances[i].origins| ensures instances[i].origins[j] <= n {
        assert Produced(intents, n, m, identity, instances[i].origins[j]);
      }
    }
    forall i, k: nat | 0 <= i < |after|
      ensures k in after[i].origins <==> Produced(intents, n, m', after[i].identity, k)
    {
      if i == |instances| {
        assert !Produced(intents, n, m, identity, k);
      } else {
        assert after[i].identity == instances[i].identity;
      }
    }
    forall k: nat, id | Produced(intents, n, m', id, k) ensures Find(after, id).Some? {
      if Find(instances, id).Some? {
        assert after[Find(instances, id).value].identity == id;
      } else {
        assert after[|instances|].identity == id;
      }
    }
  }

  lemma {:induction false} IntentKeepsExact(instances: seq<Instance>, intents: seq<seq<Identity>>, n: nat, m: nat)
    requires n < |intents| && m <= |intents[n]|
    requires Exact(instances, intents, n, 0)
    ensures Exact(MergedIntent(instances, intents[n][..m], n), intents, n, m)
  {
    if m > 0 {
      IntentKeepsExact(instances, intents, n, m - 1);
      assert intents[n][..m][..m - 1] == intents[n][..m - 1];
      MergeKeepsExact(MergedIntent(instances, intents[n][..m - 1], n), intents, n, m - 1);
    }
  }

  lemma {:induction false} DerivedPrefixExact(intents: seq<seq<Identity>>, n: nat)
    requires n <= |intents|
    ensures Exact(Derived(intents[..n]), intents, n, 0)
  {
    if n > 0 {
      DerivedPrefixExact(intents, n - 1);
      assert intents[..n][..n - 1] == intents[..n - 1];
      assert intents[n - 1][..|intents[n - 1]|] == intents[n - 1];
      var instances := Derived(intents[..n - 1]);
      IntentKeepsExact(instances, intents, n - 1, |intents[n - 1]|);
      assert forall id, k: nat :: Produced(intents, n, 0, id, k) <==>
        Produced(intents, n - 1, |intents[n - 1]|, id, k);
    }
  }

  /** The union never duplicates a requirement, never drops one, and records
      exactly the intents that produced it, in order and once each. */
  lemma DerivationIsExactUnion(intents: seq<seq<Identity>>)
    ensures DistinctIdentities(Derived(intents))
    ensures forall instance :: instance in Derived(intents) ==>
              Ascending(instance.origins) && instance.origins != []
              && forall k: nat :: k in instance.origins <==> k < |intents| && instance.identity in intents[k]
    ensures forall k, identity :: 0 <= k < |intents| && identity in intents[k] ==>
              Find(Derived(intents), identity).Some?
  {
    DerivedPrefixExact(intents, |intents|);
    assert intents[..|intents|] == intents;
    forall k, identity | 0 <= k < |intents| && identity in intents[k]
      ensures Find(Derived(intents), identity).Some?
    {
      assert Produced(intents, |intents|, 0, identity, k);
    }
  }

  // ---- In which order ----

  ghost predicate DerivedAt(intents: seq<seq<Identity>>, k: nat, l: nat, identity: Identity)
  {
    k < |intents| && l < |intents[k]| && intents[k][l] == identity
  }

  /** At (k, l) the first is derived, and up to there the second never is. */
  ghost predicate ShowsFirst(intents: seq<seq<Identity>>, first: Identity, second: Identity, k: nat, l: nat)
  {
    && DerivedAt(intents, k, l, first)
    && forall k': nat, l': nat :: k' < k || (k' == k && l' <= l) ==> !DerivedAt(intents, k', l', second)
  }

  ghost predicate DerivedBefore(intents: seq<seq<Identity>>, first: Identity, second: Identity)
  {
    exists k: nat, l: nat :: ShowsFirst(intents, first, second, k, l)
  }

  ghost predicate InOrder(instances: seq<Instance>, intents: seq<seq<Identity>>)
  {
    forall i, j :: 0 <= i < j < |instances| ==> DerivedBefore(intents, instances[i].identity, instances[j].identity)
  }

  lemma NewComesLast(instances: seq<Instance>, intents: seq<seq<Identity>>, n: nat, m: nat, i: nat)
    requires n < |intents| && m < |intents[n]| && i < |instances| && Exact(instances, intents, n, m)
    requires Find(instances, intents[n][m]).None?
    ensures DerivedBefore(intents, instances[i].identity, intents[n][m])
  {
    hide Produced, DerivedAt, DistinctIdentities, Ascending;
    var known, fresh' := instances[i].identity, intents[n][m];
    var k := instances[i].origins[0];
    assert k in instances[i].origins;
    var l := ProducedPlace(intents, n, m, known, k);
    forall k': nat, l': nat | k' < k || (k' == k && l' <= l) ensures !DerivedAt(intents, k', l', fresh') {
      NotYetDerived(intents, n, m, fresh', k', l');
    }
    assert ShowsFirst(intents, known, fresh', k, l);
  }

  lemma ProducedPlace(intents: seq<seq<Identity>>, n: nat, m: nat, identity: Identity, k: nat) returns (l: nat)
    requires Produced(intents, n, m, identity, k)
    ensures DerivedAt(intents, k, l, identity) && (k < n || (k == n && l < m))
  {
    if k < n && k < |intents| && identity in intents[k] {
      l :| l < |intents[k]| && intents[k][l] == identity;
    } else {
      l :| l < m && intents[n][..m][l] == identity;
    }
  }

  lemma NotYetDerived(intents: seq<seq<Identity>>, n: nat, m: nat, identity: Identity, k: nat, l: nat)
    requires n < |intents| && m <= |intents[n]| && !Produced(intents, n, m, identity, k)
    requires k < n || (k == n && l < m)
    ensures !DerivedAt(intents, k, l, identity)
  {
    assert k == n ==> intents[n][..m][l] == intents[n][l];
  }

  lemma MergeKeepsOrder(instances: seq<Instance>, intents: seq<seq<Identity>>, n: nat, m: nat)
    requires n < |intents| && m < |intents[n]| && Exact(instances, intents, n, m) && InOrder(instances, intents)
    ensures InOrder(Merged(instances, Instance(intents[n][m], [n])), intents)
  {
    hide Exact, DerivedBefore;
    if Find(instances, intents[n][m]).None? {
      forall i | 0 <= i < |instances| ensures DerivedBefore(intents, instances[i].identity, intents[n][m]) {
        NewComesLast(instances, intents, n, m, i);
      }
    }
  }

  lemma {:induction false} IntentKeepsOrder(instances: seq<Instance>, intents: seq<seq<Identity>>, n: nat, m: nat)
    requires n < |intents| && m <= |intents[n]| && Exact(instances, intents, n, 0) && InOrder(instances, intents)
    ensures InOrder(MergedIntent(instances, intents[n][..m], n), intents)
  {
    hide Exact, InOrder, Merged;
    if m > 0 {
      IntentKeepsOrder(instances, intents, n, m - 1);
      IntentKeepsExact(instances, intents, n, m - 1);
      assert intents[n][..m][..m - 1] == intents[n][..m - 1];
      MergeKeepsOrder(MergedIntent(instances, intents[n][..m - 1], n), intents, n, m - 1);
    }
  }

  lemma {:induction false} PrefixInOrder(intents: seq<seq<Identity>>, n: nat)
    requires n <= |intents|
    ensures InOrder(Derived(intents[..n]), intents)
  {
    hide DerivedBefore;
    if n > 0 {
      PrefixInOrder(intents, n - 1);
      DerivedPrefixExact(intents, n - 1);
      assert intents[..n][..n - 1] == intents[..n - 1];
      assert intents[n - 1][..|intents[n - 1]|] == intents[n - 1];
      IntentKeepsOrder(Derived(intents[..n - 1]), intents, n - 1, |intents[n - 1]|);
    }
  }

  /** The union lists requirements in the order in which they are first derived. */
  lemma DerivationInOrder(intents: seq<seq<Identity>>)
    ensures InOrder(Derived(intents), intents)
  {
    hide InOrder, Derived;
    PrefixInOrder(intents, |intents|);
    assert intents[..|intents|] == intents;
  }
}
