/** The registry of loaded routes: budget eviction, the keep-warm sweep and memory pressure. */
module PairWorkersRegistry {
  import opened Options

  datatype Key = Key(source: string, target: string)

  /** `lastUsed` is a logical time; `active` counts the jobs that pin the route. */
  datatype Entry = Entry(pivot: Option<string>, costMb: nat, active: nat, lastUsed: int)

  type Entries = map<Key, Entry>

  predicate Pinned(e: Entry) {
    e.active > 0
  }

  /** The sum of the costs. */
  ghost function Total(entries: Entries): nat {
    if entries == map[] then 0
    else
      var k :| k in entries;
      entries[k].costMb + Total(entries - {k})
  }

  lemma {:induction false} TotalWithout(entries: Entries, k: Key)
    requires k in entries
    ensures Total(entries) == entries[k].costMb + Total(entries - {k})
    decreases |entries|
  {
    var first :| first in entries && Total(entries) == entries[first].costMb + Total(entries - {first});
    if first != k {
      TotalWithout(entries - {first}, k);
      TotalWithout(entries - {k}, first);
      assert entries - {first} - {k} == entries - {k} - {first};
    }
  }

  lemma {:induction false} TotalMonotone(small: Entries, big: Entries)
    requires small.Keys <= big.Keys && forall k :: k in small ==> small[k] == big[k]
    ensures Total(small) <= Total(big)
    decreases |big|
  {
    if small != big {
      var k :| k in big && k !in small;
      TotalWithout(big, k);
      TotalMonotone(small, big - {k});
    }
  }

  /** `kept` is `before` without some entries. */
  predicate Trimmed(before: Entries, kept: Entries) {
    kept.Keys <= before.Keys && forall k :: k in kept ==> kept[k] == before[k]
  }

  /** Only unpinned routes go, and no route goes while a longer idle one stays. */
  predicate LeastRecentlyUsed(before: Entries, kept: Entries) {
    && Trimmed(before, kept)
    && (forall k :: k in before && k !in kept ==> !Pinned(before[k]))
    && (forall k, other :: k in before && k !in kept && other in kept && !Pinned(kept[other]) ==>
          before[k].lastUsed <= kept[other].lastUsed)
  }

  /**
    The exact outcome of budget eviction: within the budget or only pinned routes left, and
    the last route to go went while the rest with it was still over the budget.
   */
  ghost predicate Evicted(before: Entries, kept: Entries, budget: nat) {
    && LeastRecentlyUsed(before, kept)
    && (Total(kept) <= budget || forall k :: k in kept ==> Pinned(kept[k]))
    && (kept != before ==> exists last :: LastOut(before, kept, last, budget))
  }

  /** `last` is the most recently used of the evicted, and with it the rest was over the budget. */
  ghost predicate LastOut(before: Entries, kept: Entries, last: Key, budget: nat) {
    && last in before && last !in kept
    && (forall k :: k in before && k !in kept ==> before[k].lastUsed <= before[last].lastUsed)
    && Total(kept[last := before[last]]) > budget
  }

  ghost predicate DistinctStamps(entries: Entries) {
    forall j, k :: j in entries && k in entries && j != k ==> entries[j].lastUsed != entries[k].lastUsed
  }

  /** Keeping the most recently used leaves no choice of which to keep, only of how many. */
  lemma KeptIsNested(before: Entries, a: Entries, b: Entries)
    requires LeastRecentlyUsed(before, a) && LeastRecentlyUsed(before, b) && DistinctStamps(before)
    ensures a.Keys <= b.Keys || b.Keys <= a.Keys
  {
    if x :| x in a && x !in b {
      forall k | k in b
        ensures k in a
      {
        if !Pinned(b[k]) {
          assert before[x].lastUsed < before[k].lastUsed;
        }
      }
    }
  }

  /** An outcome that keeps more than another is over the budget with an unpinned route in it. */
  lemma KeepsTooMuch(before: Entries, a: Entries, b: Entries, budget: nat, last: Key, x: Key)
    requires LeastRecentlyUsed(before, a) && LeastRecentlyUsed(before, b) && DistinctStamps(before)
    requires a.Keys <= b.Keys && x in b && x !in a && LastOut(before, a, last, budget)
    ensures last in b && !Pinned(b[last]) && Total(b) > budget
  {
    if last != x {
      assert before[x].lastUsed < before[last].lastUsed;
    }
    TotalMonotone(a[last := before[last]], b);
  }

  lemma KeepsAll(before: Entries, a: Entries, b: Entries, budget: nat)
    requires Evicted(before, a, budget) && Evicted(before, b, budget) && DistinctStamps(before)
    requires a.Keys <= b.Keys
    ensures a == b
  {
    if x :| x in b && x !in a {
      var last :| LastOut(before, a, last, budget);
      KeepsTooMuch(before, a, b, budget, last, x);
    }
  }

  /**
    With distinct time stamps the outcome is determined: of two outcomes of the same eviction
    neither keeps more than the other.
   */
  lemma EvictionIsDetermined(before: Entries, a: Entries, b: Entries, budget: nat)
    requires Evicted(before, a, budget) && Evicted(before, b, budget) && DistinctStamps(before)
    ensures a == b
  {
    KeptIsNested(before, a, b);
    if a.Keys <= b.Keys {
      KeepsAll(before, a, b, budget);
    } else {
      KeepsAll(before, b, a, budget);
    }
  }

  /** The pinned routes, and one more. */
  function PinnedAnd(before: Entries, newest: Key): Entries {
    map k | k in before && (Pinned(before[k]) || k == newest) :: before[k]
  }

  /**
    A route just loaded is spared exactly if it fits together with the routes that are at work:
    being the most recently used, it is the last unpinned one to go.
   */
  lemma NewestStaysIff(before: Entries, kept: Entries, budget: nat, newest: Key)
    requires Evicted(before, kept, budget) && newest in before && !Pinned(before[newest])
    requires forall k :: k in before && k != newest && !Pinned(before[k]) ==> before[k].lastUsed < before[newest].lastUsed
    ensures newest in kept <==> Total(PinnedAnd(before, newest)) <= budget
  {
    var core := PinnedAnd(before, newest);
    if newest in kept {
      assert core.Keys <= kept.Keys;
      TotalMonotone(core, kept);
      assert !Pinned(kept[newest]);
    } else {
      assert forall k :: k in kept ==> Pinned(before[k]);
      var last :| LastOut(before, kept, last, budget);
      assert last == newest;
      assert kept[newest := before[newest]] == core;
    }
  }

  /** With all other routes pinned it is then the only one to go. */
  lemma NewestCanGo(before: Entries, kept: Entries, budget: nat, newest: Key)
    requires Evicted(before, kept, budget)
    requires newest in before && forall k :: k in before ==> (Pinned(before[k]) <==> k != newest)
    ensures kept == if Total(before) <= budget then before else before - {newest}
  {
    NewestStaysIff(before, kept, budget, newest);
    assert PinnedAnd(before, newest) == before;
    if newest in kept {
      assert kept == before;
    } else {
      assert kept == before - {newest};
    }
  }

  /** What is left under memory pressure. */
  function OnlyPinned(before: Entries): Entries {
    map k | k in before && Pinned(before[k]) :: before[k]
  }

  /**
    Memory pressure against the budget: no budget evicts more, a budget that the pinned routes
    alone exceed evicts as much, and afterwards no budget evicts anything.
   */
  lemma PressureGoesFurthest(before: Entries, kept: Entries, budget: nat)
    ensures Evicted(before, kept, budget) ==> OnlyPinned(before).Keys <= kept.Keys
    ensures Evicted(before, kept, budget) && Total(OnlyPinned(before)) > budget ==> kept == OnlyPinned(before)
    ensures Evicted(OnlyPinned(before), kept, budget) ==> kept == OnlyPinned(before)
  {
    var pinned := OnlyPinned(before);
    if Evicted(before, kept, budget) {
      TotalMonotone(pinned, kept);
      if Total(pinned) > budget {
        assert kept.Keys == pinned.Keys;
      }
    }
    if Evicted(pinned, kept, budget) {
      assert forall k :: k in pinned ==> Pinned(pinned[k]);
      assert kept.Keys == pinned.Keys;
    }
  }

  // ----- Unloading a pair

  /** Whether the route has the model of the pair loaded: its own pair, or one of its two legs. */
  predicate Uses(k: Key, e: Entry, source: string, target: string) {
    match e.pivot
    case None => k == Key(source, target)
    case Some(p) => (k.source == source && p == target) || (p == source && k.target == target)
  }

  /** What is left when a pair is unloaded: all but the route of that name and the pivots that share an end. */
  function Unloaded(before: Entries, source: string, target: string): Entries {
    map k | k in before &&
      k != Key(source, target) && (before[k].pivot.None? || (k.source != source && k.target != target)) :: before[k]
  }

  /** No route that is left has the pair's model loaded, so its files can go. */
  lemma UnloadFreesPair(before: Entries, source: string, target: string)
    ensures forall k :: k in Unloaded(before, source, target) ==> !Uses(k, before[k], source, target)
  {
  }

  /** A pivot route that shares an end with the pair without having it as a leg. */
  predicate Bystander(k: Key, e: Entry, source: string, target: string) {
    && k != Key(source, target) && e.pivot.Some? && (k.source == source || k.target == target)
    && !Uses(k, e, source, target)
  }

  /** Exactly the route of that name and those that use the pair go, if and only if there is no bystander. */
  lemma UnloadExactIff(before: Entries, source: string, target: string)
    ensures Unloaded(before, source, target)
            == (map k | k in before && k != Key(source, target) && !Uses(k, before[k], source, target) :: before[k])
            <==> forall k :: k in before ==> !Bystander(k, before[k], source, target)
  {
    var exact := map k | k in before && k != Key(source, target) && !Uses(k, before[k], source, target) :: before[k];
    if k :| k in before && Bystander(k, before[k], source, target) {
      assert k in exact && k !in Unloaded(before, source, target);
    } else {
      assert Unloaded(before, source, target).Keys == exact.Keys;
    }
  }

  /** One route goes for nothing: from Bulgarian to French by way of English, when Bulgarian to German is removed. */
  lemma BystanderGoes(before: Entries, k: Key)
    requires k == Key("bg", "fr") && k in before && before[k].pivot == Some("en")
    ensures !Uses(k, before[k], "bg", "de") && k !in Unloaded(before, "bg", "de")
  {
    var fr, de, en := "fr", "de", "en";
    assert fr[0] != de[0] && en[0] != de[0];
  }

  class PairWorkers {
    var entries: Entries

    constructor ()
      ensures entries == map[]
    {
      entries := map[];
    }

    /** The sum over the loaded routes, visited in any order. */
    method TotalCost() returns (total: nat)
      ensures total == Total(entries)
    {
      total := 0;
      var rest := entries;
      while rest != map[]
        invariant total + Total(rest) == Total(entries)
        decreases |rest|
      {
        var k :| k in rest;
        TotalWithout(rest, k);
        total, rest := total + rest[k].costMb, rest - {k};
      }
    }

    /** An unpinned route that has been idle for as long as any, if there is an unpinned one. */
    method Victim() returns (victim: Option<Key>)
      ensures victim.None? ==> forall k :: k in entries ==> Pinned(entries[k])
      ensures victim.Some? ==>
        && victim.value in entries && !Pinned(entries[victim.value])
        && forall k :: k in entries && !Pinned(entries[k]) ==> entries[victim.value].lastUsed <= entries[k].lastUsed
    {
      victim := None;
      var rest := entries.Keys;
      while rest != {}
        invariant rest <= entries.Keys
        invariant victim.None? ==> forall k :: k in entries && k !in rest ==> Pinned(entries[k])
        invariant victim.Some? ==>
          && victim.value in entries && !Pinned(entries[victim.value])
          && forall k :: k in entries && k !in rest && !Pinned(entries[k]) ==>
               entries[victim.value].lastUsed <= entries[k].lastUsed
        decreases |rest|
      {
        var k :| k in rest;
        rest := rest - {k};
        if !Pinned(entries[k]) && (victim.None? || entries[k].lastUsed <= entries[victim.value].lastUsed) {
          victim := Some(k);
        }
      }
    }

    /** Evicts idle routes, the least recently used first, until the rest fits the budget. */
    method EvictOverBudget(budget: nat)
      modifies this
      ensures Evicted(old(entries), entries, budget)
      ensures forall k :: k in old(entries) && old(entries)[k].active > 0 ==> k in entries && entries[k] == old(entries)[k]
      ensures Total(entries) <= budget || forall k :: k in entries ==> entries[k].active > 0
    {
      ghost var before := entries;
      ghost var last: Option<Key> := None;
      while true
        invariant LeastRecentlyUsed(before, entries)
        invariant last.None? ==> entries == before
        invariant last.Some? ==> LastOut(before, entries, last.value, budget)
        decreases |entries|
      {
        var total := TotalCost();
        if total <= budget {
          return;
        }
        var victim := Victim();
        if victim.None? {
          return;
        }
        var key := victim.value;
        ghost var was := entries;
        entries := entries - {key};
        assert entries[key := before[key]] == was;
        last := Some(key);
      }
    }

    /** Memory pressure: everything that is not working goes. */
    method EvictUnpinned() returns (evicted: nat)
      modifies this
      ensures entries == OnlyPinned(old(entries))
      ensures forall k :: k in entries <==> k in old(entries) && old(entries)[k].active > 0
      ensures evicted == |old(entries)| - |entries|
    {
      var before := entries;
      entries := map k | k in before && Pinned(before[k]) :: before[k];
      assert entries.Keys <= before.Keys;
      CardinalityMonotone(entries.Keys, before.Keys);
      evicted := |before| - |entries|;
    }

    /** Drops the route of that name and the pivot routes that share an end, pinned or not. */
    method UnloadPair(source: string, target: string)
      modifies this
      ensures entries == Unloaded(old(entries), source, target)
    {
      var before := entries;
      entries := map k | k in before &&
        !((k.source == source && k.target == target)
          || (before[k].pivot.Some? && (k.source == source || k.target == target))) :: before[k];
    }

    /** Drops the routes named. */
    method RemoveAll(keys: seq<Key>)
      modifies this
      ensures entries == old(entries) - set i | 0 <= i < |keys| :: keys[i]
    {
      ghost var before := entries;
      for i := 0 to |keys|
        invariant entries == before - set j | 0 <= j < i :: keys[j]
      {
        entries := entries - {keys[i]};
      }
    }

    /**
      The periodic sweep: routes idle beyond the window go, and of the unpinned rest only the
      `keepWarm` most recently used stay.
     */
    method Sweep(now: int, keepWarm: nat, window: nat)
      modifies this
      ensures Swept(old(entries), entries, now, keepWarm, window)
      ensures forall k :: k in old(entries) && old(entries)[k].active > 0 ==> k in entries && entries[k] == old(entries)[k]
      ensures forall k :: k in entries && entries[k].active == 0 ==> now - entries[k].lastUsed < window
    {
      ghost var before := entries;
      var expired := set k | k in entries && !Pinned(entries[k]) && now - entries[k].lastUsed >= window;
      entries := entries - expired;
      assert Unpinned(entries) == Warm(before, now, window);
      KeepWarm(keepWarm);
      assert forall k :: k in before && Pinned(before[k]) ==> k in entries;
    }

    /** Keeps at most `keepWarm` unpinned routes. */
    method KeepWarm(keepWarm: nat)
      modifies this
      ensures Trimmed(old(entries), entries)
      ensures forall k :: k in old(entries) && Pinned(old(entries)[k]) ==> k in entries
      ensures |Unpinned(entries)| ==
        if |Unpinned(old(entries))| < keepWarm then |Unpinned(old(entries))| else keepWarm
      ensures forall k, other :: k in old(entries) && k !in entries && other in Unpinned(entries) ==>
        old(entries)[k].lastUsed <= entries[other].lastUsed
    {
      ghost var before := entries;
      var unpinned := SortedByIdle(entries, set k | k in entries && !Pinned(entries[k]));
      assert |unpinned| == |Unpinned(entries)|;
      if |unpinned| > keepWarm {
        var excess := |unpinned| - keepWarm;
        RemoveAll(unpinned[..excess]);
        KeptOfSorted(before, entries, unpinned, excess);
      }
    }
  }

  /** Removing the front of the sorted unpinned keys leaves the back. */
  lemma KeptOfSorted(before: Entries, kept: Entries, unpinned: seq<Key>, excess: nat)
    requires excess <= |unpinned| && Distinct(unpinned)
    requires forall k :: k in unpinned <==> k in Unpinned(before)
    requires forall i, j :: 0 <= i < j < |unpinned| ==> before[unpinned[i]].lastUsed <= before[unpinned[j]].lastUsed
    requires kept == before - set i | 0 <= i < excess :: unpinned[..excess][i]
    ensures |Unpinned(kept)| == |unpinned| - excess
    ensures forall k :: k in before && Pinned(before[k]) ==> k in kept
    ensures forall k, other :: k in before && k !in kept && other in Unpinned(kept) ==>
      before[k].lastUsed <= kept[other].lastUsed
  {
    var left := unpinned[excess..];
    assert forall i :: 0 <= i < excess ==> unpinned[..excess][i] in Unpinned(before);
    forall k
      ensures k in Unpinned(kept) <==> k in left
    {
      if k in unpinned {
        var i :| 0 <= i < |unpinned| && unpinned[i] == k;
        if i < excess {
          assert unpinned[..excess][i] == k;
        } else {
          assert left[i - excess] == k;
        }
      }
    }
    assert Unpinned(kept) == set i | 0 <= i < |left| :: left[i];
    DistinctCount(left);
    forall k, other | k in before && k !in kept && other in Unpinned(kept)
      ensures before[k].lastUsed <= kept[other].lastUsed
    {
      var i :| 0 <= i < excess && unpinned[..excess][i] == k;
      var j :| 0 <= j < |left| && left[j] == other;
      assert unpinned[i] == k && unpinned[excess + j] == other;
    }
  }

  ghost function Unpinned(entries: Entries): (r: set<Key>)
    ensures forall k :: k in r ==> k in entries
  {
    set k | k in entries && !Pinned(entries[k])
  }

  /** Unpinned routes that are still within the window. */
  ghost function Warm(entries: Entries, now: int, window: nat): set<Key> {
    set k | k in entries && !Pinned(entries[k]) && now - entries[k].lastUsed < window
  }

  /** Pinned routes stay; of the warm ones the most recently used stay, as many as allowed. */
  ghost predicate Swept(before: Entries, kept: Entries, now: int, keepWarm: nat, window: nat) {
    var warm := Warm(before, now, window);
    var stay := Unpinned(kept);
    && Trimmed(before, kept)
    && (forall k :: k in before && Pinned(before[k]) ==> k in kept)
    && stay <= warm
    && |stay| == (if |warm| < keepWarm then |warm| else keepWarm)
    && (forall k, other :: k in warm && k !in kept && other in stay ==>
          before[k].lastUsed <= before[other].lastUsed)
  }

  /** With distinct time stamps the sweep leaves no choice either. */
  lemma SweepIsDetermined(before: Entries, a: Entries, b: Entries, now: int, keepWarm: nat, window: nat)
    requires Swept(before, a, now, keepWarm, window) && Swept(before, b, now, keepWarm, window)
    requires DistinctStamps(before)
    ensures a == b
  {
    SweepKeepsAll(before, a, b, now, keepWarm, window);
    SweepKeepsAll(before, b, a, now, keepWarm, window);
  }

  lemma SweepKeepsAll(before: Entries, a: Entries, b: Entries, now: int, keepWarm: nat, window: nat)
    requires Swept(before, a, now, keepWarm, window) && Swept(before, b, now, keepWarm, window)
    requires DistinctStamps(before)
    ensures a.Keys <= b.Keys
  {
    var stays, others := Unpinned(a), Unpinned(b);
    forall k | k in a
      ensures k in b
    {
      if k in stays && k !in others {
        var y := InOther(stays, others, k);
      }
    }
  }

  lemma InOther<T>(a: set<T>, b: set<T>, x: T) returns (y: T)
    requires |a| == |b| && x in a && x !in b
    ensures y in b && y !in a
  {
    if b <= a {
      CardinalityMonotone(b, a - {x});
    }
    y :| y in b && y !in a;
  }

  lemma CardinalityMonotone<T>(a: set<T>, b: set<T>)
    requires a <= b
    ensures |a| <= |b|
  {
    assert b == a + (b - a);
  }

  ghost predicate Distinct(keys: seq<Key>) {
    forall i, j :: 0 <= i < j < |keys| ==> keys[i] != keys[j]
  }

  lemma {:induction false} DistinctCount(keys: seq<Key>)
    requires Distinct(keys)
    ensures |set i | 0 <= i < |keys| :: keys[i]| == |keys|
  {
    if |keys| > 0 {
      var last := |keys| - 1;
      DistinctCount(keys[..last]);
      assert (set i | 0 <= i < |keys| :: keys[i]) == (set i | 0 <= i < last :: keys[..last][i]) + {keys[last]};
    }
  }

  /** The keys with the longest idle time first: `sort_by_key` on the reversed idle time. */
  method SortedByIdle(entries: Entries, keys: set<Key>) returns (sorted: seq<Key>)
    requires keys <= entries.Keys
    ensures Distinct(sorted) && (forall k :: k in keys <==> k in sorted) && |sorted| == |keys|
    ensures forall i, j :: 0 <= i < j < |sorted| ==> entries[sorted[i]].lastUsed <= entries[sorted[j]].lastUsed
  {
    sorted := [];
    var rest := keys;
    while rest != {}
      invariant rest <= keys && |sorted| + |rest| == |keys|
      invariant Distinct(sorted) && forall k :: k in sorted <==> k in keys && k !in rest
      invariant forall i, j :: 0 <= i < j < |sorted| ==> entries[sorted[i]].lastUsed <= entries[sorted[j]].lastUsed
      invariant forall i, k :: 0 <= i < |sorted| && k in rest ==> entries[sorted[i]].lastUsed <= entries[k].lastUsed
      decreases |rest|
    {
      var next := LongestIdle(entries, rest);
      sorted, rest := sorted + [next], rest - {next};
    }
  }

  method LongestIdle(entries: Entries, keys: set<Key>) returns (k: Key)
    requires keys <= entries.Keys && keys != {}
    ensures k in keys && forall other :: other in keys ==> entries[k].lastUsed <= entries[other].lastUsed
  {
    k :| k in keys;
    var rest := keys - {k};
    while rest != {}
      invariant rest <= keys && k in keys
      invariant forall other :: other in keys && other !in rest ==> entries[k].lastUsed <= entries[other].lastUsed
      decreases |rest|
    {
      var next :| next in rest;
      rest := rest - {next};
      if entries[next].lastUsed < entries[k].lastUsed {
        k := next;
      }
    }
  }
}
