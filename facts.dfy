/**
 * `main` of asa_facts.py once the option has been read: resolve `gather_subset`, list
 * the resolved names, create and populate one collector per name, merge their facts
 * into one dict after the 'gather_subset' entry, and rename every key under the
 * `ansible_net_` prefix.
 */
module AsaFacts {
  import opened Wrappers
  import opened Errors
  import opened Device
  import opened Subsets
  import opened Collectors

  // ---------------------------------------------------------------------------
  // Iterating over a set.

  /** `order` lists every element of `s`, each exactly once. */
  predicate Enumerates(order: seq<string>, s: set<string>) {
    && (forall i | 0 <= i < |order| :: order[i] in s)
    && (forall x | x in s :: x in order)
    && (forall i, j | 0 <= i < j < |order| :: order[i] != order[j])
  }

  /**
   * Iterating over a Python set (`list(s)`, `for x in s`): every element once, in an
   * order the model leaves open.
   */
  method Enumerate(s: set<string>) returns (order: seq<string>)
    ensures Enumerates(order, s)
  {
    order := [];
    var remaining := s;
    while remaining != {}
      invariant remaining <= s
      invariant forall i | 0 <= i < |order| :: order[i] in s - remaining
      invariant forall x | x in s - remaining :: x in order
      invariant forall i, j | 0 <= i < j < |order| :: order[i] != order[j]
      decreases remaining
    {
      var x :| x in remaining;
      order := order + [x];
      remaining := remaining - {x};
    }
  }

  /** An enumeration is exactly as long as the set it enumerates. */
  lemma {:induction false} EnumerationLength(order: seq<string>, s: set<string>)
    requires Enumerates(order, s)
    ensures |order| == |s|
    decreases |order|
  {
    if |order| > 0 {
      var n := |order| - 1;
      var last := order[n];
      var init := order[..n];
      forall x | x in s - {last}
        ensures x in init
      {
        var i :| 0 <= i < |order| && order[i] == x;
        assert init[i] == x;
      }
      forall i | 0 <= i < n
        ensures init[i] in s - {last}
      {
        assert init[i] == order[i];
      }
      assert Enumerates(init, s - {last});
      EnumerationLength(init, s - {last});
    } else {
      assert forall x | x in s :: x in order;
      assert s == {};
    }
  }

  // ---------------------------------------------------------------------------
  // Merging the collectors' facts.

  /** `dict.update` with each part in turn, starting from an empty dict. */
  function Merge(parts: seq<map<string, Value>>): map<string, Value> {
    if |parts| == 0 then map[] else Merge(parts[..|parts| - 1]) + parts[|parts| - 1]
  }

  /** Updating with one more part. */
  lemma MergeSnoc(parts: seq<map<string, Value>>, f: map<string, Value>)
    ensures Merge(parts + [f]) == Merge(parts) + f
  {
    assert (parts + [f])[..|parts|] == parts;
  }

  /** A key is in the merge exactly when some part has it. */
  lemma {:induction false} MergeKeys(parts: seq<map<string, Value>>, k: string)
    ensures k in Merge(parts) <==> exists i | 0 <= i < |parts| :: k in parts[i]
    decreases |parts|
  {
    if |parts| > 0 {
      var n := |parts| - 1;
      var init := parts[..n];
      MergeKeys(init, k);
      if k in Merge(init) {
        var i :| 0 <= i < n && k in init[i];
        assert k in parts[i];
      }
      if exists i | 0 <= i < |parts| :: k in parts[i] {
        var i :| 0 <= i < |parts| && k in parts[i];
        if i < n {
          assert k in init[i];
        }
      }
    }
  }

  /** Later parts win: a key keeps the value of the last part that has it. */
  lemma {:induction false} MergeLastWins(parts: seq<map<string, Value>>, i: nat, k: string)
    requires i < |parts| && k in parts[i]
    requires forall j | i < j < |parts| :: k !in parts[j]
    ensures k in Merge(parts) && Merge(parts)[k] == parts[i][k]
    decreases |parts|
  {
    var n := |parts| - 1;
    if i < n {
      var init := parts[..n];
      assert init[i] == parts[i];
      MergeLastWins(init, i, k);
    }
  }

  /** The result of one `populate` per collector name: its facts, or the error it raises. */
  type Outcomes = map<string, Result<map<string, Value>, Error>>

  /**
   * What `Collect` promises of the collectors together: no two of them record a common
   * key, none records the key `main` writes itself, and only the interface collector
   * raises, always with the KeyError of the empty key.
   */
  predicate WellBehaved(t: Outcomes) {
    && (forall a, b, k | a in t && b in t && t[a].Success? && t[b].Success? && k in t[a].value && k in t[b].value
          :: a == b)
    && (forall s | s in t && t[s].Success? :: "gather_subset" !in t[s].value)
    && (forall s | s in t && t[s].Failure? :: s == "interfaces" && t[s].error == KeyError(""))
  }

  /** The outcome of each collector on device `d`. */
  function OutcomesOn(d: Device): (t: Outcomes)
    ensures t.Keys == ValidSubsets
    ensures WellBehaved(t)
  {
    var t := map s | s in ValidSubsets :: Collect(s, d);
    forall a, b, k | a in t && b in t && t[a].Success? && t[b].Success? && k in t[a].value && k in t[b].value
      ensures a == b
    {
      if a != b {
        DeclaredKeysDisjoint(a, b);
      }
    }
    forall s | s in t && t[s].Success?
      ensures "gather_subset" !in t[s].value
    {
      GatherSubsetUndeclared(s);
    }
    t
  }

  /** `t` holds the outcome of every collector on device `d`. */
  predicate HoldsOutcomesOn(t: Outcomes, d: Device) {
    && ValidSubsets <= t.Keys
    && forall s {:trigger Collect(s, d)} | s in ValidSubsets :: t[s] == Collect(s, d)
  }

  /** The facts of each collector in `order`, or the error of the first that raises. */
  function CollectAll(order: seq<string>, t: Outcomes): (r: Result<seq<map<string, Value>>, Error>)
    requires forall s | s in order :: s in t
    ensures r.Success? ==> |r.value| == |order|
    ensures r.Failure? ==> exists s | s in order :: t[s].Failure? && r.error == t[s].error
  {
    if |order| == 0 then
      Success([])
    else
      var init := order[..|order| - 1];
      var last := order[|order| - 1];
      assert forall s | s in init :: s in order;
      match CollectAll(init, t)
      case Failure(e) => Failure(e)
      case Success(parts) =>
        match t[last]
        case Failure(e) => Failure(e)
        case Success(f) => Success(parts + [f])
  }

  /** When every collector succeeds, part `i` is the facts of the `i`-th collector. */
  lemma {:induction false} CollectAllParts(order: seq<string>, t: Outcomes, i: nat)
    requires forall s | s in order :: s in t
    requires CollectAll(order, t).Success? && i < |order|
    ensures t[order[i]] == Success(CollectAll(order, t).value[i])
    decreases |order|
  {
    var n := |order| - 1;
    var init := order[..n];
    assert forall s | s in init :: s in order;
    if i < n {
      assert init[i] == order[i];
      CollectAllParts(init, t, i);
    }
  }

  /** Once a prefix of the list has failed, the whole list fails with the same error. */
  lemma {:induction false} CollectAllStops(order: seq<string>, t: Outcomes, k: nat)
    requires forall s | s in order :: s in t
    requires k <= |order| && CollectAll(order[..k], t).Failure?
    ensures CollectAll(order, t) == CollectAll(order[..k], t)
    decreases |order| - k
  {
    assert forall s | s in order[..k] :: s in order;
    if k < |order| {
      assert order[..k + 1][..k] == order[..k];
      assert forall s | s in order[..k + 1] :: s in order;
      CollectAllStops(order, t, k + 1);
    } else {
      assert order[..k] == order;
    }
  }

  /** The first collector that raises decides the error of the whole list. */
  lemma CollectAllFailsAt(order: seq<string>, t: Outcomes, i: nat)
    requires i < |order| && forall s | s in order :: s in t
    requires CollectAll(order[..i], t).Success? && t[order[i]].Failure?
    ensures CollectAll(order, t) == Failure(t[order[i]].error)
  {
    assert order[..i + 1][..i] == order[..i];
    assert forall s | s in order[..i + 1] :: s in order;
    CollectAllStops(order, t, i + 1);
  }

  /** One more successful collector extends the list of facts by its own. */
  lemma CollectAllExtends(order: seq<string>, t: Outcomes, i: nat, parts: seq<map<string, Value>>)
    requires i < |order| && forall s | s in order :: s in t
    requires CollectAll(order[..i], t) == Success(parts) && t[order[i]].Success?
    ensures CollectAll(order[..i + 1], t) == Success(parts + [t[order[i]].value])
  {
    assert order[..i + 1][..i] == order[..i];
    assert forall s | s in order[..i + 1] :: s in order;
  }

  /** Every key a collector of `resolved` records. */
  ghost function Recorded(resolved: set<string>, t: Outcomes): set<string>
    requires resolved <= t.Keys
  {
    set s, k | s in resolved && t[s].Success? && k in t[s].value :: k
  }

  /** Every fact of every collector in `resolved` that succeeds, each under its own key. */
  ghost function Union(resolved: set<string>, t: Outcomes): map<string, Value>
    requires resolved <= t.Keys
  {
    map k | k in Recorded(resolved, t) ::
      var s :| s in resolved && t[s].Success? && k in t[s].value; t[s].value[k]
  }

  /** The union holds each recorded fact with the value its collector gave it. */
  lemma UnionHas(resolved: set<string>, t: Outcomes, s: string, k: string)
    requires resolved <= t.Keys && WellBehaved(t) && s in resolved
    requires t[s].Success? && k in t[s].value
    ensures k in Union(resolved, t) && Union(resolved, t)[k] == t[s].value[k]
  {
    assert k in Recorded(resolved, t);
  }

  /** Nothing else is in the union: every key comes from a collector of `resolved`. */
  lemma UnionOnly(resolved: set<string>, t: Outcomes, k: string) returns (s: string)
    requires resolved <= t.Keys && k in Union(resolved, t)
    ensures s in resolved && t[s].Success? && k in t[s].value
  {
    s :| s in resolved && t[s].Success? && k in t[s].value;
  }

  /** The key `main` writes itself is in no union. */
  lemma GatherSubsetNotCollected(resolved: set<string>, t: Outcomes)
    requires resolved <= t.Keys && WellBehaved(t)
    ensures "gather_subset" !in Union(resolved, t)
  {
    if "gather_subset" in Union(resolved, t) {
      var s := UnionOnly(resolved, t, "gather_subset");
    }
  }

  /**
   * The merged facts of the collectors named in `resolved`, stated without any order
   * (`Union`), or the error of a collector that raises. Only the interface collector
   * can raise, so the run fails exactly when it is among them and raises.
   */
  ghost function Collected(resolved: set<string>, t: Outcomes): (r: Result<map<string, Value>, Error>)
    requires resolved <= t.Keys && WellBehaved(t)
    ensures r.Failure? <==> "interfaces" in resolved && t["interfaces"].Failure?
    ensures r.Failure? ==> r.error == KeyError("")
    ensures r.Success? ==> forall s | s in resolved :: t[s].Success?
  {
    if exists s | s in resolved :: t[s].Failure? then
      Failure(KeyError(""))
    else
      Success(Union(resolved, t))
  }

  /** Collectors that record a common key are the same collector, since declared keys are disjoint. */
  lemma SharedKeySameCollector(order: seq<string>, t: Outcomes, parts: seq<map<string, Value>>, i: nat, j: nat, k: string)
    requires forall s | s in order :: s in t
    requires WellBehaved(t)
    requires CollectAll(order, t) == Success(parts)
    requires i < |order| && j < |order| && k in parts[i] && k in parts[j]
    ensures order[i] == order[j]
  {
    CollectAllParts(order, t, i);
    CollectAllParts(order, t, j);
  }

  /** Running the collectors in any enumeration of `resolved` and merging gives `Collected`. */
  lemma MergeInAnyOrder(order: seq<string>, resolved: set<string>, t: Outcomes, parts: seq<map<string, Value>>)
    requires resolved <= t.Keys && WellBehaved(t) && Enumerates(order, resolved)
    requires CollectAll(order, t) == Success(parts)
    ensures Collected(resolved, t) == Success(Merge(parts))
  {
    AllResolvedSucceed(order, resolved, t, parts);
    var facts := Union(resolved, t);
    forall k | k in Merge(parts)
      ensures k in facts && facts[k] == Merge(parts)[k]
    {
      MergedFactInUnion(order, resolved, t, parts, k);
    }
    forall k | k in facts
      ensures k in Merge(parts)
    {
      UnionFactMerged(order, resolved, t, parts, k);
    }
    assert facts == Merge(parts);
  }

  /** When the list succeeds, so does every collector of the set it enumerates. */
  lemma AllResolvedSucceed(order: seq<string>, resolved: set<string>, t: Outcomes, parts: seq<map<string, Value>>)
    requires resolved <= t.Keys && WellBehaved(t) && Enumerates(order, resolved)
    requires CollectAll(order, t) == Success(parts)
    ensures Collected(resolved, t) == Success(Union(resolved, t))
  {
    forall s | s in resolved
      ensures t[s].Success?
    {
      var i :| 0 <= i < |order| && order[i] == s;
      CollectAllParts(order, t, i);
    }
  }

  /** A merged fact is in the union, with the value of the one collector that records it. */
  lemma MergedFactInUnion(order: seq<string>, resolved: set<string>, t: Outcomes, parts: seq<map<string, Value>>, k: string)
    requires resolved <= t.Keys && WellBehaved(t) && Enumerates(order, resolved)
    requires CollectAll(order, t) == Success(parts)
    requires k in Merge(parts)
    ensures k in Union(resolved, t) && Union(resolved, t)[k] == Merge(parts)[k]
  {
    MergeKeys(parts, k);
    var i :| 0 <= i < |parts| && k in parts[i];
    forall j | i < j < |parts|
      ensures k !in parts[j]
    {
      if k in parts[j] {
        SharedKeySameCollector(order, t, parts, i, j, k);
      }
    }
    MergeLastWins(parts, i, k);
    CollectAllParts(order, t, i);
    UnionHas(resolved, t, order[i], k);
  }

  /** A fact of the union is merged from the part of the collector that owns it. */
  lemma UnionFactMerged(order: seq<string>, resolved: set<string>, t: Outcomes, parts: seq<map<string, Value>>, k: string)
    requires resolved <= t.Keys && WellBehaved(t) && Enumerates(order, resolved)
    requires CollectAll(order, t) == Success(parts)
    requires k in Union(resolved, t)
    ensures k in Merge(parts)
  {
    var s := UnionOnly(resolved, t, k);
    var i :| 0 <= i < |order| && order[i] == s;
    CollectAllParts(order, t, i);
    MergeKeys(parts, k);
  }

  // ---------------------------------------------------------------------------
  // Renaming the keys.

  const Prefix: string := "ansible_net_"

  /** The facts under their published names: every key gets the prefix, every value stays. */
  function Namespaced(facts: map<string, Value>): (out: map<string, Value>)
    ensures forall k :: k in facts <==> Prefix + k in out
    ensures forall k | k in facts :: out[Prefix + k] == facts[k]
    ensures forall key | key in out :: |Prefix| <= |key| && key[..|Prefix|] == Prefix && key[|Prefix|..] in facts
  {
    var out := map key | key in (set k | k in facts :: Prefix + k) :: facts[key[|Prefix|..]];
    assert forall k | k in facts :: (Prefix + k)[|Prefix|..] == k;
    out
  }

  /** The renaming loop at the end of `main`, over the facts in whatever order the dict yields them. */
  method NamespaceFacts(facts: map<string, Value>) returns (out: map<string, Value>)
    ensures out == Namespaced(facts)
  {
    out := map[];
    var remaining := facts.Keys;
    while remaining != {}
      invariant remaining <= facts.Keys
      invariant forall k :: Prefix + k in out <==> k in facts - remaining
      invariant forall k | Prefix + k in out :: out[Prefix + k] == facts[k]
      invariant forall key | key in out :: |Prefix| <= |key| && key[..|Prefix|] == Prefix
      decreases remaining
    {
      var k :| k in remaining;
      assert (Prefix + k)[..|Prefix|] == Prefix;
      out := out[Prefix + k := facts[k]];
      remaining := remaining - {k};
    }
    NamespacedByKeys(facts, out);
  }

  /** A dict that has exactly the prefixed keys, with the same values, is the renamed dict. */
  lemma NamespacedByKeys(facts: map<string, Value>, out: map<string, Value>)
    requires forall k :: Prefix + k in out <==> k in facts
    requires forall k | Prefix + k in out :: out[Prefix + k] == facts[k]
    requires forall key | key in out :: |Prefix| <= |key| && key[..|Prefix|] == Prefix
    ensures out == Namespaced(facts)
  {
    var expected := Namespaced(facts);
    forall key | key in out
      ensures key in expected && expected[key] == out[key]
    {
      assert key == Prefix + key[|Prefix|..];
    }
    assert out == expected;
  }

  /** Prefixing is injective, so the renamed dict has as many keys as the merged one. */
  lemma NamespacedSize(facts: map<string, Value>)
    ensures |Namespaced(facts)| == |facts|
  {
    var out := Namespaced(facts);
    assert out.Keys == set k | k in facts.Keys :: Prefix + k;
    PrefixedCount(facts.Keys);
  }

  lemma {:induction false} PrefixedCount(keys: set<string>)
    ensures |set k | k in keys :: Prefix + k| == |keys|
    decreases keys
  {
    if keys != {} {
      var k :| k in keys;
      var rest := keys - {k};
      PrefixedCount(rest);
      var renamed := set x | x in rest :: Prefix + x;
      assert (set x | x in keys :: Prefix + x) == renamed + {Prefix + k};
      assert Prefix + k !in renamed by {
        forall x | x in rest ensures Prefix + x != Prefix + k {
          assert (Prefix + x)[|Prefix|..] == x && (Prefix + k)[|Prefix|..] == k;
        }
      }
    }
  }

  // ---------------------------------------------------------------------------
  // The whole run.

  /** An entry written before an update that does not touch its key survives it. */
  lemma SeedThenMerge(key: string, v: Value, m: map<string, Value>)
    requires key !in m
    ensures map[key := v] + m == m[key := v]
  {
  }

  /**
   * What a successful run returns as `ansible_facts`: the resolved names, listed in one
   * enumeration, under 'gather_subset', and the merged facts of their collectors, all
   * under the prefix.
   */
  ghost predicate Reports(gatherSubset: seq<string>, d: Device, out: map<string, Value>) {
    && Resolve(gatherSubset).Success?
    && Collected(Resolve(gatherSubset).value, OutcomesOn(d)).Success?
    && exists order :: Enumerates(order, Resolve(gatherSubset).value)
         && out == Namespaced(Collected(Resolve(gatherSubset).value, OutcomesOn(d)).value["gather_subset" := StrList(order)])
  }

  /** The loop of `main` that creates one collector per listed name, in list order. */
  method CreateCollectors(order: seq<string>) returns (instances: seq<Collector>)
    requires forall s | s in order :: s in ValidSubsets
    ensures |instances| == |order|
    ensures forall j | 0 <= j < |order| ::
      fresh(instances[j]) && instances[j].subset == order[j] && instances[j].facts == map[]
    ensures forall j, k | 0 <= j < k < |order| :: instances[j] != instances[k]
  {
    instances := [];
    for i := 0 to |order|
      invariant |instances| == i
      invariant forall j | 0 <= j < i ::
        fresh(instances[j]) && instances[j].subset == order[j] && instances[j].facts == map[]
      invariant forall j, k | 0 <= j < k < i :: instances[j] != instances[k]
    {
      var c := new Collector(order[i]);
      instances := instances + [c];
    }
  }

  /**
   * One turn of the loop of `main`: `inst.populate()` for the `i`-th collector of the
   * list, then `facts.update(inst.facts)`. Its result is read off the table of outcomes:
   * it either extends the facts of the collectors before it by its own, or raises the
   * error that stops the whole list.
   */
  method PopulateOne(inst: Collector, d: Device, facts: map<string, Value>, ghost seed: map<string, Value>,
                     ghost t: Outcomes, ghost order: seq<string>, ghost i: nat, ghost parts: seq<map<string, Value>>)
    returns (r: Result<map<string, Value>, Error>)
    requires HoldsOutcomesOn(t, d)
    requires forall s | s in order :: s in ValidSubsets
    requires i < |order| && inst.subset == order[i] && inst.facts == map[]
    requires CollectAll(order[..i], t) == Success(parts) && facts == seed + Merge(parts)
    modifies inst
    ensures r.Failure? ==> CollectAll(order, t) == Failure(r.error)
    ensures r.Success? ==> CollectAll(order[..i + 1], t) == Success(parts + [inst.facts])
    ensures r.Success? ==> r.value == seed + Merge(parts + [inst.facts])
  {
    var outcome := inst.Populate(d);
    assert t[inst.subset] == Collect(inst.subset, d);
    if outcome.Fail? {
      CollectAllFailsAt(order, t, i);
      return Failure(outcome.error);
    }
    UpdateEmpty(t[order[i]].value);
    CollectAllExtends(order, t, i, parts);
    UpdateMerged(seed, parts, inst.facts);
    return Success(facts + inst.facts);
  }

  /**
   * The loop of `main` that populates each collector in turn and updates `facts` with
   * its facts; the first error stops it.
   */
  method PopulateAll(instances: seq<Collector>, order: seq<string>, d: Device, seed: map<string, Value>, ghost t: Outcomes)
    returns (r: Result<map<string, Value>, Error>)
    requires HoldsOutcomesOn(t, d)
    requires |instances| == |order|
    requires forall s | s in order :: s in ValidSubsets
    requires forall j | 0 <= j < |order| :: instances[j].subset == order[j] && instances[j].facts == map[]
    requires forall j, k | 0 <= j < k < |order| :: instances[j] != instances[k]
    modifies set j | 0 <= j < |instances| :: instances[j]
    ensures r.Failure? <==> CollectAll(order, t).Failure?
    ensures r.Failure? ==> r.error == CollectAll(order, t).error
    ensures r.Success? ==> r.value == seed + Merge(CollectAll(order, t).value)
  {
    var facts := seed;
    ghost var parts: seq<map<string, Value>> := [];
    for i := 0 to |instances|
      invariant forall j | i <= j < |instances| :: instances[j].facts == map[]
      invariant CollectAll(order[..i], t) == Success(parts)
      invariant facts == seed + Merge(parts)
    {
      var next := PopulateOne(instances[i], d, facts, seed, t, order, i, parts);
      if next.Failure? {
        return next;
      }
      facts := next.value;
      parts := parts + [instances[i].facts];
    }
    assert order[..|order|] == order;
    return Success(facts);
  }

  /** Updating the merged facts with one more part is merging one more part. */
  lemma UpdateMerged(seed: map<string, Value>, parts: seq<map<string, Value>>, f: map<string, Value>)
    ensures seed + Merge(parts) + f == seed + Merge(parts + [f])
  {
    MergeSnoc(parts, f);
    UnionAssoc(seed, Merge(parts), f);
  }

  /**
   * `main` from the option value to `exit_json`: a bad token fails with 'Bad subset', a
   * parse error of the interface collector propagates, and otherwise the run reports
   * the merged, renamed facts.
   */
  method GatherFacts(gatherSubset: seq<string>, d: Device) returns (r: Result<map<string, Value>, Error>)
    ensures Resolve(gatherSubset).Failure? ==> r == Failure(BadSubset)
    ensures Resolve(gatherSubset).Success? ==>
      (r.Failure? <==> "interfaces" in Resolve(gatherSubset).value && Collect("interfaces", d).Failure?)
    ensures Resolve(gatherSubset).Success? && r.Failure? ==> r.error == KeyError("")
    ensures r.Success? ==> Reports(gatherSubset, d, r.value)
  {
    var resolved := ResolveSubsets(gatherSubset);
    if resolved.Failure? {
      return Failure(resolved.error);
    }
    var runable := resolved.value;
    var order := Enumerate(runable);
    var seed := map["gather_subset" := StrList(order)];
    var instances := CreateCollectors(order);
    ghost var t := OutcomesOn(d);
    var facts := PopulateAll(instances, order, d, seed, t);
    if facts.Failure? {
      FailedRun(gatherSubset, d, order);
      return Failure(facts.error);
    }
    var ansibleFacts := NamespaceFacts(facts.value);
    SuccessfulRun(gatherSubset, d, order, facts.value);
    return Success(ansibleFacts);
  }

  /** A run stops only on the interface collector, and then with the KeyError of the empty key. */
  lemma FailedRun(gatherSubset: seq<string>, d: Device, order: seq<string>)
    requires Resolve(gatherSubset).Success? && Enumerates(order, Resolve(gatherSubset).value)
    requires CollectAll(order, OutcomesOn(d)).Failure?
    ensures "interfaces" in Resolve(gatherSubset).value && Collect("interfaces", d).Failure?
    ensures CollectAll(order, OutcomesOn(d)).error == KeyError("")
  {
    var t := OutcomesOn(d);
    var s :| s in order && t[s].Failure? && CollectAll(order, t).error == t[s].error;
    assert s == "interfaces";
  }

  /** A run whose collectors all succeed reports the merged facts, renamed. */
  lemma SuccessfulRun(gatherSubset: seq<string>, d: Device, order: seq<string>, facts: map<string, Value>)
    requires Resolve(gatherSubset).Success? && Enumerates(order, Resolve(gatherSubset).value)
    requires CollectAll(order, OutcomesOn(d)).Success?
    requires facts == map["gather_subset" := StrList(order)] + Merge(CollectAll(order, OutcomesOn(d)).value)
    ensures !("interfaces" in Resolve(gatherSubset).value && Collect("interfaces", d).Failure?)
    ensures Reports(gatherSubset, d, Namespaced(facts))
  {
    var t := OutcomesOn(d);
    MergedRun(Resolve(gatherSubset).value, order, t, facts);
    assert t["interfaces"] == Collect("interfaces", d);
  }

  /**
   * The facts of a run whose collectors all succeed, before renaming: the merge of
   * every resolved collector's facts, with the list of names under 'gather_subset'.
   */
  lemma MergedRun(resolved: set<string>, order: seq<string>, t: Outcomes, facts: map<string, Value>)
    requires resolved <= t.Keys && WellBehaved(t) && Enumerates(order, resolved)
    requires CollectAll(order, t).Success?
    requires facts == map["gather_subset" := StrList(order)] + Merge(CollectAll(order, t).value)
    ensures Collected(resolved, t).Success?
    ensures facts == Collected(resolved, t).value["gather_subset" := StrList(order)]
  {
    var parts := CollectAll(order, t).value;
    MergeInAnyOrder(order, resolved, t, parts);
    GatherSubsetNotCollected(resolved, t);
    SeedThenMerge("gather_subset", StrList(order), Merge(parts));
  }
}
