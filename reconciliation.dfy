/**
 * What one reconciliation cycle computes, as functions: the calls made for a
 * matched instance, the stamps remembered for it, the sorted-merge diff of the
 * remembered and observed key sequences, and a per-connector reference
 * specification that the merge is proved to meet.
 */
module Reconciliation {
  import opened Stamps
  import opened ConnectorNames
  import opened Notifications

  type Inventory = map<Key, ConnectorStamps>

  /**
   * The listener calls for an instance known on both sides: one per facet
   * whose stamps differ, checkpoint first and configuration last.
   */
  function FacetEvents(name: Key, ms: ConnectorStamps, ps: ConnectorStamps): seq<Event> {
    (if CompareStamps(ms.checkpoint, ps.checkpoint) != 0 then [CheckpointChanged(name)] else [])
    + (if CompareStamps(ms.schedule, ps.schedule) != 0 then [ScheduleChanged(name)] else [])
    + (if CompareStamps(ms.configuration, ps.configuration) != 0 then [ConfigurationChanged(name)] else [])
  }

  /** The facet calls are all about the instance compared, and none adds or removes it. */
  lemma FacetEventsNamed(name: Key, ms: ConnectorStamps, ps: ConnectorStamps)
    ensures forall e | e in FacetEvents(name, ms, ps) :: e.name == name && !e.Added? && !e.Removed?
  {
  }

  /**
   * A facet is reported exactly when its stamps differ, and then once; there
   * is no call at all exactly when the stamps are equal; a checkpoint change
   * is reported first and a configuration change last.
   */
  lemma FacetEventsMeaning(name: Key, ms: ConnectorStamps, ps: ConnectorStamps)
    ensures var r := FacetEvents(name, ms, ps);
      && (r == [] <==> ms == ps)
      && (CheckpointChanged(name) in r <==> ms.checkpoint != ps.checkpoint)
      && (ScheduleChanged(name) in r <==> ms.schedule != ps.schedule)
      && (ConfigurationChanged(name) in r <==> ms.configuration != ps.configuration)
      && (ConfigurationChanged(name) in r ==> r[|r| - 1] == ConfigurationChanged(name))
      && (CheckpointChanged(name) in r ==> r[0] == CheckpointChanged(name))
      && |r| == (if ms.checkpoint != ps.checkpoint then 1 else 0)
                + (if ms.schedule != ps.schedule then 1 else 0)
                + (if ms.configuration != ps.configuration then 1 else 0)
  {
  }

  /**
   * The stamps remembered for an instance known on both sides, given whether
   * activating its configuration fails: the observed stamps, except that a
   * failed configuration change is remembered as an absent configuration.
   */
  function Reconciled(ms: ConnectorStamps, ps: ConnectorStamps, fails: bool): ConnectorStamps {
    if CompareStamps(ms.configuration, ps.configuration) != 0 && fails then
      ConnectorStamps(ps.checkpoint, ps.schedule, None)
    else
      ps
  }

  /**
   * The remembered stamps keep the observed checkpoint and schedule; they
   * differ from the observed stamps exactly when a changed, present
   * configuration failed to activate, and then only in having no
   * configuration stamp.
   */
  lemma ReconciledMeaning(ms: ConnectorStamps, ps: ConnectorStamps, fails: bool)
    ensures var r := Reconciled(ms, ps, fails);
      && r.checkpoint == ps.checkpoint && r.schedule == ps.schedule
      && (r.configuration == ps.configuration || r.configuration == None)
      && (r != ps <==> fails && ms.configuration != ps.configuration && ps.configuration != None)
  {
  }

  /** What a cycle produces: the new inventory, its sorted keys, the calls. */
  datatype Outcome = Outcome(inventory: Inventory, instances: seq<Key>, events: seq<Event>)

  /**
   * The sorted-merge diff of remembered keys `m` and observed keys `p`: at each
   * step the smaller head is consumed (removal from `m`, addition from `p`),
   * equal heads are compared facet by facet. Keys in `failing` are those whose
   * configuration activation fails in this cycle. Each step consumes at least
   * one key, so there are at most |m| + |p| steps.
   */
  function Merge(m: seq<Key>, p: seq<Key>, mem: Inventory, snap: Inventory, failing: set<Key>): Outcome
    requires forall k | k in m :: k in mem
    requires forall k | k in p :: k in snap
    decreases |m| + |p|
  {
    if m == [] && p == [] then
      Outcome(map[], [], [])
    else if p == [] || (m != [] && CompareNames(m[0], p[0]) < 0) then
      var r := Merge(m[1..], p, mem, snap, failing);
      Outcome(r.inventory, r.instances, [Removed(m[0])] + r.events)
    else if m == [] || CompareNames(m[0], p[0]) > 0 then
      var r := Merge(m, p[1..], mem, snap, failing);
      if p[0] in failing then
        Outcome(r.inventory, r.instances, [Added(p[0])] + r.events)
      else
        Outcome(r.inventory[p[0] := snap[p[0]]], [p[0]] + r.instances, [Added(p[0])] + r.events)
    else
      var r := Merge(m[1..], p[1..], mem, snap, failing);
      var stamps := Reconciled(mem[m[0]], snap[p[0]], p[0] in failing);
      Outcome(r.inventory[p[0] := stamps], [p[0]] + r.instances,
              FacetEvents(p[0], mem[m[0]], snap[p[0]]) + r.events)
  }

  /** The calls a cycle makes about connector `k`, given its remembered and observed inventories. */
  function ExpectedEvents(k: Key, mem: Inventory, snap: Inventory): seq<Event> {
    if k in mem && k in snap then FacetEvents(k, mem[k], snap[k])
    else if k in mem then [Removed(k)]
    else if k in snap then [Added(k)]
    else []
  }

  /** The inventory a cycle remembers, connector by connector. */
  function ExpectedInventory(mem: Inventory, snap: Inventory, failing: set<Key>): Inventory {
    map k | k in snap && (k in mem || k !in failing) ::
      if k in mem then Reconciled(mem[k], snap[k], k in failing) else snap[k]
  }

  /**
   * The merge only remembers observed keys, and its key sequence lists exactly
   * the keys it remembers.
   */
  lemma {:induction false} MergeKeys(m: seq<Key>, p: seq<Key>, mem: Inventory, snap: Inventory, failing: set<Key>)
    requires forall k | k in m :: k in mem
    requires forall k | k in p :: k in snap
    ensures var r := Merge(m, p, mem, snap, failing);
      Elems(r.instances) == r.inventory.Keys && r.inventory.Keys <= Elems(p)
    decreases |m| + |p|
  {
    if m == [] && p == [] {
    } else if p == [] || (m != [] && CompareNames(m[0], p[0]) < 0) {
      MergeKeys(m[1..], p, mem, snap, failing);
    } else if m == [] || CompareNames(m[0], p[0]) > 0 {
      MergeKeys(m, p[1..], mem, snap, failing);
      assert Elems(p) == {p[0]} + Elems(p[1..]) by { assert p == [p[0]] + p[1..]; }
    } else {
      MergeKeys(m[1..], p[1..], mem, snap, failing);
      assert Elems(p) == {p[0]} + Elems(p[1..]) by { assert p == [p[0]] + p[1..]; }
    }
  }

  /** The merge only makes calls about keys of either side. */
  lemma {:induction false} MergeEventNames(m: seq<Key>, p: seq<Key>, mem: Inventory, snap: Inventory,
                                           failing: set<Key>)
    requires forall k | k in m :: k in mem
    requires forall k | k in p :: k in snap
    ensures forall e | e in Merge(m, p, mem, snap, failing).events :: e.name in m || e.name in p
    decreases |m| + |p|
  {
    if m == [] && p == [] {
    } else if p == [] || (m != [] && CompareNames(m[0], p[0]) < 0) {
      MergeEventNames(m[1..], p, mem, snap, failing);
      assert forall k | k in m[1..] :: k in m;
    } else if m == [] || CompareNames(m[0], p[0]) > 0 {
      MergeEventNames(m, p[1..], mem, snap, failing);
      assert forall k | k in p[1..] :: k in p;
    } else {
      MergeEventNames(m[1..], p[1..], mem, snap, failing);
      FacetEventsNamed(p[0], mem[m[0]], snap[p[0]]);
      assert forall k | k in m[1..] :: k in m;
      assert forall k | k in p[1..] :: k in p;
    }
  }

  // ---------------------------------------------------------------------------
  // The merge meets the per-connector specification.

  /** Facts about the heads of the two sequences that every branch of the merge uses. */
  lemma HeadFacts(m: seq<Key>, p: seq<Key>)
    requires Sorted(m) && Sorted(p)
    ensures m != [] ==> Below(m[0], m[1..]) && Sorted(m[1..])
    ensures p != [] ==> Below(p[0], p[1..]) && Sorted(p[1..])
    ensures m != [] && p != [] && CompareNames(m[0], p[0]) < 0 ==> Below(m[0], p)
    ensures m != [] && p != [] && CompareNames(m[0], p[0]) > 0 ==> Below(p[0], m)
    ensures m != [] && p != [] && CompareNames(m[0], p[0]) == 0 ==> m[0] == p[0]
  {
    if m != [] { SortedHead(m); }
    if p != [] { SortedHead(p); }
    if m != [] && p != [] {
      CompareNamesZero(m[0], p[0]);
      CompareNamesAntisymmetric(m[0], p[0]);
      if CompareNames(m[0], p[0]) < 0 { BelowSorted(m[0], p); }
      if CompareNames(m[0], p[0]) > 0 { BelowSorted(p[0], m); }
    }
  }

  /** The merge unfolded when the observed head is the smaller key. */
  lemma UnfoldAdded(m: seq<Key>, p: seq<Key>, mem: Inventory, snap: Inventory, failing: set<Key>)
    requires forall k | k in m :: k in mem
    requires forall k | k in p :: k in snap
    requires p != [] && (m == [] || CompareNames(m[0], p[0]) > 0)
    ensures var now := Merge(m, p, mem, snap, failing);
      var rest := Merge(m, p[1..], mem, snap, failing);
      && now.events == [Added(p[0])] + rest.events
      && now.inventory == (if p[0] in failing then rest.inventory else rest.inventory[p[0] := snap[p[0]]])
      && now.instances == (if p[0] in failing then rest.instances else [p[0]] + rest.instances)
  {
  }

  /** The merge unfolded when both heads are the same key. */
  lemma UnfoldMatched(m: seq<Key>, p: seq<Key>, mem: Inventory, snap: Inventory, failing: set<Key>)
    requires forall k | k in m :: k in mem
    requires forall k | k in p :: k in snap
    requires m != [] && p != [] && CompareNames(m[0], p[0]) == 0
    ensures var now := Merge(m, p, mem, snap, failing);
      var rest := Merge(m[1..], p[1..], mem, snap, failing);
      && now.events == FacetEvents(p[0], mem[m[0]], snap[p[0]]) + rest.events
      && now.inventory == rest.inventory[p[0] := Reconciled(mem[m[0]], snap[p[0]], p[0] in failing)]
      && now.instances == [p[0]] + rest.instances
  {
  }

  /**
   * The calls about `k` that its membership in `m` and `p` calls for: the case
   * split of `ExpectedEvents` over key sequences instead of inventories.
   * `MergeMeetsSpecification` identifies the two through `Elems(m) ==
   * mem.Keys` and `Elems(p) == snap.Keys`.
   */
  function KeyEvents(k: Key, m: seq<Key>, p: seq<Key>, mem: Inventory, snap: Inventory): seq<Event>
    requires k in m ==> k in mem
    requires k in p ==> k in snap
  {
    if k in m && k in p then FacetEvents(k, mem[k], snap[k])
    else if k in m then [Removed(k)]
    else if k in p then [Added(k)]
    else []
  }

  /** A key other than the head of a sequence is in it exactly when it is in its tail. */
  lemma InTail(s: seq<Key>, k: Key)
    requires s != [] && k != s[0]
    ensures k in s <==> k in s[1..]
  {
    assert s == [s[0]] + s[1..];
  }

  /** The head of a sorted sequence is not in its tail. */
  lemma HeadNotInTail(s: seq<Key>)
    requires Sorted(s) && s != []
    ensures s[0] !in s[1..]
  {
    SortedHead(s);
    BelowNotIn(s[0], s[1..]);
  }

  /** A removal call in front of calls right for the rest keeps the per-connector calls right. */
  lemma RemovedEventsOf(m: seq<Key>, p: seq<Key>, mem: Inventory, snap: Inventory, k: Key, rest: seq<Event>)
    requires Sorted(m) && Sorted(p)
    requires forall x | x in m :: x in mem
    requires forall x | x in p :: x in snap
    requires m != [] && (p == [] || CompareNames(m[0], p[0]) < 0)
    requires EventsOf(rest, k) == KeyEvents(k, m[1..], p, mem, snap)
    ensures EventsOf([Removed(m[0])] + rest, k) == KeyEvents(k, m, p, mem, snap)
  {
    EventsOfConcat([Removed(m[0])], rest, k);
    EventsOfSingleName([Removed(m[0])], m[0], k);
    if k == m[0] {
      HeadNotInTail(m);
      if p != [] {
        BelowSorted(m[0], p);
        BelowNotIn(m[0], p);
      }
      assert m[0] in m;
    } else {
      InTail(m, k);
    }
  }

  /** An addition call in front of calls right for the rest keeps the per-connector calls right. */
  lemma AddedEventsOf(m: seq<Key>, p: seq<Key>, mem: Inventory, snap: Inventory, k: Key, rest: seq<Event>)
    requires Sorted(m) && Sorted(p)
    requires forall x | x in m :: x in mem
    requires forall x | x in p :: x in snap
    requires p != [] && (m == [] || CompareNames(m[0], p[0]) > 0)
    requires EventsOf(rest, k) == KeyEvents(k, m, p[1..], mem, snap)
    ensures EventsOf([Added(p[0])] + rest, k) == KeyEvents(k, m, p, mem, snap)
  {
    EventsOfConcat([Added(p[0])], rest, k);
    EventsOfSingleName([Added(p[0])], p[0], k);
    if k == p[0] {
      HeadNotInTail(p);
      if m != [] {
        CompareNamesAntisymmetric(m[0], p[0]);
        BelowSorted(p[0], m);
        BelowNotIn(p[0], m);
      }
      assert p[0] in p;
    } else {
      InTail(p, k);
    }
  }

  /**
   * The facet calls of a key known on both sides in front of calls right for
   * the rest keep the per-connector calls right.
   */
  lemma MatchedEventsOf(m: seq<Key>, p: seq<Key>, mem: Inventory, snap: Inventory, k: Key, rest: seq<Event>)
    requires Sorted(m) && Sorted(p)
    requires forall x | x in m :: x in mem
    requires forall x | x in p :: x in snap
    requires m != [] && p != [] && CompareNames(m[0], p[0]) == 0
    requires EventsOf(rest, k) == KeyEvents(k, m[1..], p[1..], mem, snap)
    ensures EventsOf(FacetEvents(p[0], mem[m[0]], snap[p[0]]) + rest, k) == KeyEvents(k, m, p, mem, snap)
  {
    CompareNamesZero(m[0], p[0]);
    var block := FacetEvents(p[0], mem[m[0]], snap[p[0]]);
    EventsOfConcat(block, rest, k);
    FacetEventsNamed(p[0], mem[m[0]], snap[p[0]]);
    EventsOfSingleName(block, p[0], k);
    if k == p[0] {
      HeadNotInTail(m);
      HeadNotInTail(p);
      assert m[0] in m && p[0] in p;
    } else {
      InTail(m, k);
      InTail(p, k);
    }
  }

  /** The calls the merge makes about `k` are the ones its membership on each side calls for. */
  lemma {:induction false} MergeEventsOf(m: seq<Key>, p: seq<Key>, mem: Inventory, snap: Inventory,
                                         failing: set<Key>, k: Key)
    requires Sorted(m) && Sorted(p)
    requires forall x | x in m :: x in mem
    requires forall x | x in p :: x in snap
    ensures EventsOf(Merge(m, p, mem, snap, failing).events, k) == KeyEvents(k, m, p, mem, snap)
    decreases |m| + |p|
  {
    if m == [] && p == [] {
    } else if p == [] || (m != [] && CompareNames(m[0], p[0]) < 0) {
      SortedHead(m);
      MergeEventsOf(m[1..], p, mem, snap, failing, k);
      RemovedEventsOf(m, p, mem, snap, k, Merge(m[1..], p, mem, snap, failing).events);
    } else if m == [] || CompareNames(m[0], p[0]) > 0 {
      SortedHead(p);
      MergeEventsOf(m, p[1..], mem, snap, failing, k);
      UnfoldAdded(m, p, mem, snap, failing);
      AddedEventsOf(m, p, mem, snap, k, Merge(m, p[1..], mem, snap, failing).events);
    } else {
      SortedHead(m);
      SortedHead(p);
      MergeEventsOf(m[1..], p[1..], mem, snap, failing, k);
      UnfoldMatched(m, p, mem, snap, failing);
      MatchedEventsOf(m, p, mem, snap, k, Merge(m[1..], p[1..], mem, snap, failing).events);
    }
  }

  /** Whether and with which stamps an inventory remembers `k`, as the merge of `m` and `p` prescribes. */
  ghost predicate RemembersAt(inv: Inventory, k: Key, m: seq<Key>, p: seq<Key>, mem: Inventory, snap: Inventory,
                              failing: set<Key>)
    requires k in m ==> k in mem
    requires k in p ==> k in snap
  {
    && (k in inv <==> k in p && (k in m || k !in failing))
    && (k in inv ==> inv[k] == if k in m then Reconciled(mem[k], snap[k], k in failing) else snap[k])
  }

  /** Whether and with which stamps the merge remembers `k`. */
  lemma {:induction false} MergeInventoryAt(m: seq<Key>, p: seq<Key>, mem: Inventory, snap: Inventory,
                                            failing: set<Key>, k: Key)
    requires Sorted(m) && Sorted(p)
    requires forall x | x in m :: x in mem
    requires forall x | x in p :: x in snap
    ensures RemembersAt(Merge(m, p, mem, snap, failing).inventory, k, m, p, mem, snap, failing)
    decreases |m| + |p|
  {
    HeadFacts(m, p);
    if m == [] && p == [] {
    } else if p == [] || (m != [] && CompareNames(m[0], p[0]) < 0) {
      MergeInventoryAt(m[1..], p, mem, snap, failing, k);
      if k == m[0] {
        HeadNotInTail(m);
        if p != [] { BelowNotIn(k, p); }
        assert k in m;
      } else {
        InTail(m, k);
      }
    } else if m == [] || CompareNames(m[0], p[0]) > 0 {
      MergeInventoryAt(m, p[1..], mem, snap, failing, k);
      UnfoldAdded(m, p, mem, snap, failing);
      if k == p[0] {
        HeadNotInTail(p);
        if m != [] { BelowNotIn(k, m); }
        assert k in p;
      } else {
        InTail(p, k);
      }
    } else {
      MergeInventoryAt(m[1..], p[1..], mem, snap, failing, k);
      UnfoldMatched(m, p, mem, snap, failing);
      if k == p[0] {
        assert k in m && k in p;
      } else {
        InTail(m, k);
        InTail(p, k);
      }
    }
  }

  /** The remembered keys stay strictly ascending. */
  lemma {:induction false} MergeInstancesSorted(m: seq<Key>, p: seq<Key>, mem: Inventory, snap: Inventory,
                                                failing: set<Key>)
    requires Sorted(p)
    requires forall x | x in m :: x in mem
    requires forall x | x in p :: x in snap
    ensures Sorted(Merge(m, p, mem, snap, failing).instances)
    decreases |m| + |p|
  {
    if m == [] && p == [] {
    } else if p == [] || (m != [] && CompareNames(m[0], p[0]) < 0) {
      MergeInstancesSorted(m[1..], p, mem, snap, failing);
    } else {
      SortedHead(p);
      var tail := if m == [] || CompareNames(m[0], p[0]) > 0 then m else m[1..];
      var r := Merge(tail, p[1..], mem, snap, failing);
      MergeInstancesSorted(tail, p[1..], mem, snap, failing);
      MergeKeys(tail, p[1..], mem, snap, failing);
      var s := [p[0]] + r.instances;
      forall i, j | 0 <= i < j < |s| ensures Less(s[i], s[j]) {
        if i == 0 {
          assert s[j] in Elems(r.instances);
          assert s[j] in p[1..];
        } else {
          assert s[i] == r.instances[i - 1] && s[j] == r.instances[j - 1];
        }
      }
    }
  }

  /** Calls only about keys above `n` are all about names above `n`. */
  lemma NamesAbove(n: Key, evs: seq<Event>, m: seq<Key>, p: seq<Key>)
    requires Below(n, m) && Below(n, p)
    requires forall e | e in evs :: e.name in m || e.name in p
    ensures forall e | e in evs :: Less(n, e.name)
  {
  }

  /** The merge makes its calls in ascending order of connector name. */
  lemma {:induction false} MergeNameOrdered(m: seq<Key>, p: seq<Key>, mem: Inventory, snap: Inventory,
                                            failing: set<Key>)
    requires Sorted(m) && Sorted(p)
    requires forall x | x in m :: x in mem
    requires forall x | x in p :: x in snap
    ensures NameOrdered(Merge(m, p, mem, snap, failing).events)
    decreases |m| + |p|
  {
    HeadFacts(m, p);
    if m == [] && p == [] {
    } else if p == [] || (m != [] && CompareNames(m[0], p[0]) < 0) {
      var r := Merge(m[1..], p, mem, snap, failing);
      MergeNameOrdered(m[1..], p, mem, snap, failing);
      MergeEventNames(m[1..], p, mem, snap, failing);
      NamesAbove(m[0], r.events, m[1..], p);
      PrependOrdered([Removed(m[0])], m[0], r.events);
    } else if m == [] || CompareNames(m[0], p[0]) > 0 {
      var r := Merge(m, p[1..], mem, snap, failing);
      MergeNameOrdered(m, p[1..], mem, snap, failing);
      MergeEventNames(m, p[1..], mem, snap, failing);
      NamesAbove(p[0], r.events, m, p[1..]);
      PrependOrdered([Added(p[0])], p[0], r.events);
      UnfoldAdded(m, p, mem, snap, failing);
    } else {
      var r := Merge(m[1..], p[1..], mem, snap, failing);
      MergeNameOrdered(m[1..], p[1..], mem, snap, failing);
      MergeEventNames(m[1..], p[1..], mem, snap, failing);
      NamesAbove(p[0], r.events, m[1..], p[1..]);
      FacetEventsNamed(p[0], mem[m[0]], snap[p[0]]);
      PrependOrdered(FacetEvents(p[0], mem[m[0]], snap[p[0]]), p[0], r.events);
      UnfoldMatched(m, p, mem, snap, failing);
    }
  }

  /**
   * The merge of the sorted remembered keys with the sorted observed keys
   * computes exactly the per-connector specification: the remembered
   * inventory, sorted keys matching it, and for every connector exactly the
   * calls its membership and stamps call for, in ascending name order.
   */
  lemma MergeMeetsSpecification(m: seq<Key>, p: seq<Key>, mem: Inventory, snap: Inventory, failing: set<Key>)
    requires Sorted(m) && Sorted(p)
    requires Elems(m) == mem.Keys && Elems(p) == snap.Keys
    ensures var r := Merge(m, p, mem, snap, failing);
      && r.inventory == ExpectedInventory(mem, snap, failing)
      && Sorted(r.instances) && Elems(r.instances) == r.inventory.Keys
      && (forall k :: EventsOf(r.events, k) == ExpectedEvents(k, mem, snap))
      && NameOrdered(r.events)
  {
    var r := Merge(m, p, mem, snap, failing);
    var expected := ExpectedInventory(mem, snap, failing);
    MergeKeys(m, p, mem, snap, failing);
    forall k ensures EventsOf(r.events, k) == ExpectedEvents(k, mem, snap) {
      MergeEventsOf(m, p, mem, snap, failing, k);
    }
    forall k ensures (k in r.inventory <==> k in expected) && (k in r.inventory ==> r.inventory[k] == expected[k]) {
      MergeInventoryAt(m, p, mem, snap, failing, k);
    }
    MergeInstancesSorted(m, p, mem, snap, failing);
    MergeNameOrdered(m, p, mem, snap, failing);
  }

  // ---------------------------------------------------------------------------
  // The merge resumed from two cursor positions: what the loops of the
  // imperative merge keep invariant.

  /**
   * Having produced `inventory`, `instances` and `events` from the first `i`
   * remembered and `j` observed keys, the merge of what remains completes them
   * to the merge of everything.
   */
  ghost predicate Resumes(m: seq<Key>, p: seq<Key>, i: nat, j: nat, mem: Inventory, snap: Inventory,
                          failing: set<Key>, inventory: Inventory, instances: seq<Key>, events: seq<Event>)
    requires i <= |m| && j <= |p|
    requires forall k | k in m :: k in mem
    requires forall k | k in p :: k in snap
  {
    var whole := Merge(m, p, mem, snap, failing);
    var rest := Merge(m[i..], p[j..], mem, snap, failing);
    && inventory + rest.inventory == whole.inventory
    && instances + rest.instances == whole.instances
    && events + rest.events == whole.events
  }

  lemma ResumesAtStart(m: seq<Key>, p: seq<Key>, mem: Inventory, snap: Inventory, failing: set<Key>)
    requires forall k | k in m :: k in mem
    requires forall k | k in p :: k in snap
    ensures Resumes(m, p, 0, 0, mem, snap, failing, map[], [], [])
  {
    assert m[0..] == m && p[0..] == p;
    var whole := Merge(m, p, mem, snap, failing);
    assert map[] + whole.inventory == whole.inventory;
  }

  lemma ResumesAtEnd(m: seq<Key>, p: seq<Key>, mem: Inventory, snap: Inventory, failing: set<Key>,
                     inventory: Inventory, instances: seq<Key>, events: seq<Event>)
    requires forall k | k in m :: k in mem
    requires forall k | k in p :: k in snap
    requires Resumes(m, p, |m|, |p|, mem, snap, failing, inventory, instances, events)
    ensures Merge(m, p, mem, snap, failing) == Outcome(inventory, instances, events)
  {
    assert m[|m|..] == [] && p[|p|..] == [];
    assert inventory + map[] == inventory;
  }

  /** The remembered key `m[i]` is below every remaining observed key: it was removed. */
  lemma ResumeRemoved(m: seq<Key>, p: seq<Key>, i: nat, j: nat, mem: Inventory, snap: Inventory,
                      failing: set<Key>, inventory: Inventory, instances: seq<Key>, events: seq<Event>)
    requires i < |m| && j <= |p|
    requires forall k | k in m :: k in mem
    requires forall k | k in p :: k in snap
    requires j == |p| || CompareNames(m[i], p[j]) < 0
    requires Resumes(m, p, i, j, mem, snap, failing, inventory, instances, events)
    ensures Resumes(m, p, i + 1, j, mem, snap, failing, inventory, instances, events + [Removed(m[i])])
  {
    assert m[i..][0] == m[i] && m[i..][1..] == m[i + 1..];
  }

  lemma UpdateCommutesWithUnion(a: Inventory, b: Inventory, k: Key, v: ConnectorStamps)
    requires k !in b
    ensures a[k := v] + b == a + b[k := v]
  {
  }

  /** Unfolding the merge when the observed key `p[j]` is the smaller head. */
  lemma AddedStep(m: seq<Key>, p: seq<Key>, i: nat, j: nat, mem: Inventory, snap: Inventory, failing: set<Key>)
    requires i <= |m| && j < |p|
    requires forall k | k in m :: k in mem
    requires forall k | k in p :: k in snap
    requires i == |m| || CompareNames(m[i], p[j]) > 0
    ensures var now := Merge(m[i..], p[j..], mem, snap, failing);
      var rest := Merge(m[i..], p[j + 1..], mem, snap, failing);
      && now.events == [Added(p[j])] + rest.events
      && now.inventory == (if p[j] in failing then rest.inventory else rest.inventory[p[j] := snap[p[j]]])
      && now.instances == (if p[j] in failing then rest.instances else [p[j]] + rest.instances)
  {
    var mi, pj := m[i..], p[j..];
    assert pj != [] && pj[0] == p[j] && pj[1..] == p[j + 1..];
    assert mi == [] || CompareNames(mi[0], pj[0]) > 0;
  }

  /** The observed key `p[j]` is below every remaining remembered key: it was added. */
  lemma ResumeAdded(m: seq<Key>, p: seq<Key>, i: nat, j: nat, mem: Inventory, snap: Inventory,
                    failing: set<Key>, inventory: Inventory, instances: seq<Key>, events: seq<Event>)
    requires i <= |m| && j < |p|
    requires Sorted(p)
    requires forall k | k in m :: k in mem
    requires forall k | k in p :: k in snap
    requires i == |m| || CompareNames(m[i], p[j]) > 0
    requires Resumes(m, p, i, j, mem, snap, failing, inventory, instances, events)
    ensures p[j] in failing ==>
              Resumes(m, p, i, j + 1, mem, snap, failing, inventory, instances, events + [Added(p[j])])
    ensures p[j] !in failing ==>
              Resumes(m, p, i, j + 1, mem, snap, failing, inventory[p[j] := snap[p[j]]], instances + [p[j]],
                      events + [Added(p[j])])
  {
    AddedStep(m, p, i, j, mem, snap, failing);
    if p[j] !in failing {
      var rest := Merge(m[i..], p[j + 1..], mem, snap, failing);
      SortedHead(p[j..]);
      assert p[j..][1..] == p[j + 1..];
      BelowNotIn(p[j], p[j + 1..]);
      MergeKeys(m[i..], p[j + 1..], mem, snap, failing);
      UpdateCommutesWithUnion(inventory, rest.inventory, p[j], snap[p[j]]);
    }
  }

  /** Unfolding the merge when the keys at both cursors are the same. */
  lemma MatchedStep(m: seq<Key>, p: seq<Key>, i: nat, j: nat, mem: Inventory, snap: Inventory, failing: set<Key>)
    requires i < |m| && j < |p|
    requires forall k | k in m :: k in mem
    requires forall k | k in p :: k in snap
    requires CompareNames(m[i], p[j]) == 0
    ensures var now := Merge(m[i..], p[j..], mem, snap, failing);
      var rest := Merge(m[i + 1..], p[j + 1..], mem, snap, failing);
      && now.events == FacetEvents(p[j], mem[m[i]], snap[p[j]]) + rest.events
      && now.inventory == rest.inventory[p[j] := Reconciled(mem[m[i]], snap[p[j]], p[j] in failing)]
      && now.instances == [p[j]] + rest.instances
  {
    assert m[i..][0] == m[i] && m[i..][1..] == m[i + 1..];
    assert p[j..][0] == p[j] && p[j..][1..] == p[j + 1..];
    UnfoldMatched(m[i..], p[j..], mem, snap, failing);
  }

  /** The heads are the same key: its stamps were compared. */
  lemma ResumeMatched(m: seq<Key>, p: seq<Key>, i: nat, j: nat, mem: Inventory, snap: Inventory,
                      failing: set<Key>, inventory: Inventory, instances: seq<Key>, events: seq<Event>)
    requires i < |m| && j < |p|
    requires Sorted(p)
    requires forall k | k in m :: k in mem
    requires forall k | k in p :: k in snap
    requires CompareNames(m[i], p[j]) == 0
    requires Resumes(m, p, i, j, mem, snap, failing, inventory, instances, events)
    ensures Resumes(m, p, i + 1, j + 1, mem, snap, failing,
                    inventory[p[j] := Reconciled(mem[m[i]], snap[p[j]], p[j] in failing)],
                    instances + [p[j]],
                    events + FacetEvents(p[j], mem[m[i]], snap[p[j]]))
  {
    MatchedStep(m, p, i, j, mem, snap, failing);
    var rest := Merge(m[i + 1..], p[j + 1..], mem, snap, failing);
    var block := FacetEvents(p[j], mem[m[i]], snap[p[j]]);
    assert events + block + rest.events == events + (block + rest.events);
    assert instances + [p[j]] + rest.instances == instances + ([p[j]] + rest.instances);
    assert p[j] !in rest.inventory by {
      SortedHead(p[j..]);
      BelowNotIn(p[j], p[j + 1..]);
      MergeKeys(m[i + 1..], p[j + 1..], mem, snap, failing);
    }
    UpdateCommutesWithUnion(inventory, rest.inventory, p[j], Reconciled(mem[m[i]], snap[p[j]], p[j] in failing));
  }


  /**
   * The merge walked forward from cursors `i` and `j`, appending each step's
   * result to `acc`: the shape of the imperative loops, which decide each step
   * on the two current keys.
   */
  ghost function MergeFrom(m: seq<Key>, p: seq<Key>, i: nat, j: nat, mem: Inventory, snap: Inventory,
                           failing: set<Key>, acc: Outcome): Outcome
    requires i <= |m| && j <= |p|
    requires forall k | k in m :: k in mem
    requires forall k | k in p :: k in snap
    decreases |m| - i + |p| - j
  {
    if i < |m| && j < |p| && CompareNames(m[i], p[j]) == 0 then
      MergeFrom(m, p, i + 1, j + 1, mem, snap, failing,
                Outcome(acc.inventory[p[j] := Reconciled(mem[m[i]], snap[p[j]], p[j] in failing)],
                        acc.instances + [p[j]],
                        acc.events + FacetEvents(p[j], mem[m[i]], snap[p[j]])))
    else if i < |m| && (j == |p| || CompareNames(m[i], p[j]) < 0) then
      MergeFrom(m, p, i + 1, j, mem, snap, failing,
                Outcome(acc.inventory, acc.instances, acc.events + [Removed(m[i])]))
    else if j < |p| then
      MergeFrom(m, p, i, j + 1, mem, snap, failing,
                if p[j] in failing then
                  Outcome(acc.inventory, acc.instances, acc.events + [Added(p[j])])
                else
                  Outcome(acc.inventory[p[j] := snap[p[j]]], acc.instances + [p[j]], acc.events + [Added(p[j])]))
    else
      acc
  }

  /** Walking forward from a state the merge resumes ends in the merge itself. */
  lemma {:induction false} MergeFromResumes(m: seq<Key>, p: seq<Key>, i: nat, j: nat, mem: Inventory,
                                            snap: Inventory, failing: set<Key>,
                                            inventory: Inventory, instances: seq<Key>, events: seq<Event>)
    requires i <= |m| && j <= |p|
    requires Sorted(p)
    requires forall k | k in m :: k in mem
    requires forall k | k in p :: k in snap
    requires Resumes(m, p, i, j, mem, snap, failing, inventory, instances, events)
    ensures MergeFrom(m, p, i, j, mem, snap, failing, Outcome(inventory, instances, events))
            == Merge(m, p, mem, snap, failing)
    decreases |m| - i + |p| - j
  {
    if i < |m| && j < |p| && CompareNames(m[i], p[j]) == 0 {
      ResumeMatched(m, p, i, j, mem, snap, failing, inventory, instances, events);
      MergeFromResumes(m, p, i + 1, j + 1, mem, snap, failing,
                       inventory[p[j] := Reconciled(mem[m[i]], snap[p[j]], p[j] in failing)],
                       instances + [p[j]], events + FacetEvents(p[j], mem[m[i]], snap[p[j]]));
    } else if i < |m| && (j == |p| || CompareNames(m[i], p[j]) < 0) {
      ResumeRemoved(m, p, i, j, mem, snap, failing, inventory, instances, events);
      MergeFromResumes(m, p, i + 1, j, mem, snap, failing, inventory, instances, events + [Removed(m[i])]);
    } else if j < |p| {
      ResumeAdded(m, p, i, j, mem, snap, failing, inventory, instances, events);
      if p[j] in failing {
        MergeFromResumes(m, p, i, j + 1, mem, snap, failing, inventory, instances, events + [Added(p[j])]);
      } else {
        MergeFromResumes(m, p, i, j + 1, mem, snap, failing, inventory[p[j] := snap[p[j]]],
                         instances + [p[j]], events + [Added(p[j])]);
      }
    } else {
      ResumesAtEnd(m, p, mem, snap, failing, inventory, instances, events);
    }
  }

  /** Calls already in the accumulator before the walk stay in front of the calls it makes. */
  lemma {:induction false} MergeFromPrefix(m: seq<Key>, p: seq<Key>, i: nat, j: nat, mem: Inventory,
                                           snap: Inventory, failing: set<Key>, acc: Outcome, prefix: seq<Event>)
    requires i <= |m| && j <= |p|
    requires forall k | k in m :: k in mem
    requires forall k | k in p :: k in snap
    ensures var r := MergeFrom(m, p, i, j, mem, snap, failing, acc);
      MergeFrom(m, p, i, j, mem, snap, failing, Outcome(acc.inventory, acc.instances, prefix + acc.events))
      == Outcome(r.inventory, r.instances, prefix + r.events)
    decreases |m| - i + |p| - j
  {
    if i < |m| && j < |p| && CompareNames(m[i], p[j]) == 0 {
      var evs := FacetEvents(p[j], mem[m[i]], snap[p[j]]);
      assert prefix + acc.events + evs == prefix + (acc.events + evs);
      MergeFromPrefix(m, p, i + 1, j + 1, mem, snap, failing,
                      Outcome(acc.inventory[p[j] := Reconciled(mem[m[i]], snap[p[j]], p[j] in failing)],
                              acc.instances + [p[j]], acc.events + evs), prefix);
    } else if i < |m| && (j == |p| || CompareNames(m[i], p[j]) < 0) {
      assert prefix + acc.events + [Removed(m[i])] == prefix + (acc.events + [Removed(m[i])]);
      MergeFromPrefix(m, p, i + 1, j, mem, snap, failing,
                      Outcome(acc.inventory, acc.instances, acc.events + [Removed(m[i])]), prefix);
    } else if j < |p| {
      assert prefix + acc.events + [Added(p[j])] == prefix + (acc.events + [Added(p[j])]);
      if p[j] in failing {
        MergeFromPrefix(m, p, i, j + 1, mem, snap, failing,
                        Outcome(acc.inventory, acc.instances, acc.events + [Added(p[j])]), prefix);
      } else {
        MergeFromPrefix(m, p, i, j + 1, mem, snap, failing,
                        Outcome(acc.inventory[p[j] := snap[p[j]]], acc.instances + [p[j]],
                                acc.events + [Added(p[j])]), prefix);
      }
    }
  }

  /**
   * The forward walk from the start computes the merge, its calls following
   * the calls `prefix` made before it.
   */
  lemma MergeFromStart(m: seq<Key>, p: seq<Key>, mem: Inventory, snap: Inventory, failing: set<Key>,
                       prefix: seq<Event>)
    requires Sorted(p)
    requires forall k | k in m :: k in mem
    requires forall k | k in p :: k in snap
    ensures var r := Merge(m, p, mem, snap, failing);
      MergeFrom(m, p, 0, 0, mem, snap, failing, Outcome(map[], [], prefix))
      == Outcome(r.inventory, r.instances, prefix + r.events)
  {
    ResumesAtStart(m, p, mem, snap, failing);
    MergeFromResumes(m, p, 0, 0, mem, snap, failing, map[], [], []);
    MergeFromPrefix(m, p, 0, 0, mem, snap, failing, Outcome(map[], [], []), prefix);
    assert prefix + [] == prefix;
  }

  // ---------------------------------------------------------------------------
  // Properties of the per-connector specification.

  /** A connector that disappeared gets one removal call and is forgotten. */
  lemma RemovedOnce(mem: Inventory, snap: Inventory, failing: set<Key>, k: Key)
    requires k in mem && k !in snap
    ensures ExpectedEvents(k, mem, snap) == [Removed(k)]
    ensures k !in ExpectedInventory(mem, snap, failing)
  {
  }

  /**
   * A new connector gets one addition call; it is remembered with its observed
   * stamps if the activation succeeds and forgotten if it fails.
   */
  lemma AddedOnce(mem: Inventory, snap: Inventory, failing: set<Key>, k: Key)
    requires k !in mem && k in snap
    ensures ExpectedEvents(k, mem, snap) == [Added(k)]
    ensures k in ExpectedInventory(mem, snap, failing) <==> k !in failing
    ensures k !in failing ==> ExpectedInventory(mem, snap, failing)[k] == snap[k]
  {
  }

  /** A connector whose three stamps are unchanged gets no call and keeps its observed stamps. */
  lemma UnchangedIsSilent(mem: Inventory, snap: Inventory, failing: set<Key>, k: Key)
    requires k in mem && k in snap && mem[k] == snap[k]
    ensures ExpectedEvents(k, mem, snap) == []
    ensures k in ExpectedInventory(mem, snap, failing)
    ensures ExpectedInventory(mem, snap, failing)[k] == snap[k]
  {
  }

  /**
   * A known connector whose configuration activation fails stays remembered
   * with the observed checkpoint and schedule stamps and no configuration
   * stamp.
   */
  lemma FailedConfigurationDegrades(mem: Inventory, snap: Inventory, failing: set<Key>, k: Key)
    requires k in mem && k in snap && k in failing
    requires mem[k].configuration != snap[k].configuration
    ensures ConfigurationChanged(k) in ExpectedEvents(k, mem, snap)
    ensures k in ExpectedInventory(mem, snap, failing)
    ensures ExpectedInventory(mem, snap, failing)[k] == ConnectorStamps(snap[k].checkpoint, snap[k].schedule, None)
  {
  }

  /**
   * A degraded entry is retried: against the same observed stamps, the next
   * cycle calls for exactly one configuration change for it.
   */
  lemma DegradedEntryRetried(mem: Inventory, snap: Inventory, failing: set<Key>, k: Key)
    requires k in mem && k in snap && k in failing
    requires mem[k].configuration != snap[k].configuration && snap[k].configuration != None
    ensures ExpectedEvents(k, ExpectedInventory(mem, snap, failing), snap) == [ConfigurationChanged(k)]
  {
    var next := ExpectedInventory(mem, snap, failing);
    assert next[k] == ConnectorStamps(snap[k].checkpoint, snap[k].schedule, None);
    assert CompareStamps(next[k].checkpoint, snap[k].checkpoint) == 0;
    assert CompareStamps(next[k].schedule, snap[k].schedule) == 0;
  }

  /** A new connector whose activation failed is added again by the next cycle. */
  lemma FailedAdditionRetried(mem: Inventory, snap: Inventory, failing: set<Key>, k: Key)
    requires k !in mem && k in snap && k in failing
    ensures ExpectedEvents(k, ExpectedInventory(mem, snap, failing), snap) == [Added(k)]
  {
  }

  /** The remembered connectors are all in the observed snapshot. */
  lemma InventoryWithinSnapshot(mem: Inventory, snap: Inventory, failing: set<Key>)
    ensures ExpectedInventory(mem, snap, failing).Keys <= snap.Keys
    ensures snap.Keys - failing <= ExpectedInventory(mem, snap, failing).Keys
  {
  }

  /** When no activation fails, the cycle remembers exactly the observed snapshot. */
  lemma NoFailureConverges(mem: Inventory, snap: Inventory, failing: set<Key>)
    requires snap.Keys !! failing
    ensures ExpectedInventory(mem, snap, failing) == snap
  {
  }

  /**
   * When no activation fails, a second cycle against the same snapshot makes
   * no listener call at all.
   */
  lemma SecondCycleSilent(mem: Inventory, snap: Inventory, failing: set<Key>, evs: seq<Event>)
    requires snap.Keys !! failing
    requires forall k :: EventsOf(evs, k) == ExpectedEvents(k, ExpectedInventory(mem, snap, failing), snap)
    ensures evs == []
  {
    NoFailureConverges(mem, snap, failing);
    SilentForEveryKey(evs);
  }

  // ---------------------------------------------------------------------------
  // Worked cycles on concrete snapshots.

  function Stamped(checkpoint: int, schedule: int, configuration: int): ConnectorStamps {
    ConnectorStamps(Some(checkpoint), Some(schedule), Some(configuration))
  }

  /**
   * Remembered {A:(1,1,1)}, observed {A:(1,1,2), B:(1,1,1)}: one configuration
   * change for A, one addition of B, and the observed snapshot is remembered.
   */
  lemma ScenarioChangeAndAddition()
    ensures var snap := map["A" := Stamped(1, 1, 2), "B" := Stamped(1, 1, 1)];
      var r := Merge(["A"], ["A", "B"], map["A" := Stamped(1, 1, 1)], snap, {});
      r.events == [ConfigurationChanged("A"), Added("B")] && r.inventory == snap && r.instances == ["A", "B"]
  {
    var snap := map["A" := Stamped(1, 1, 2), "B" := Stamped(1, 1, 1)];
    var mem := map["A" := Stamped(1, 1, 1)];
    assert CompareNames("A", "A") == 0;
    assert CompareNames("A", "B") < 0;
    assert ["A", "B"][1..] == ["B"];
    assert ["A"][1..] == [];
    var tail := Merge([], ["B"], mem, snap, {});
    assert tail.events == [Added("B")];
  }

  /**
   * The same cycle with A's configuration activation failing: A is remembered
   * as (1,1,absent) and B as observed.
   */
  lemma ScenarioFailure()
    ensures var snap := map["A" := Stamped(1, 1, 2), "B" := Stamped(1, 1, 1)];
      var r := Merge(["A"], ["A", "B"], map["A" := Stamped(1, 1, 1)], snap, {"A"});
      && r.events == [ConfigurationChanged("A"), Added("B")]
      && r.inventory == map["A" := ConnectorStamps(Some(1), Some(1), None), "B" := Stamped(1, 1, 1)]
      && r.instances == ["A", "B"]
  {
    var snap := map["A" := Stamped(1, 1, 2), "B" := Stamped(1, 1, 1)];
    var mem := map["A" := Stamped(1, 1, 1)];
    var degraded := ConnectorStamps(Some(1), Some(1), None);
    var tail := Merge([], ["B"], mem, snap, {"A"});
    assert tail == Outcome(map["B" := Stamped(1, 1, 1)], ["B"], [Added("B")]) by {
      UnfoldAdded([], ["B"], mem, snap, {"A"});
      assert ["B"][1..] == [];
    }
    var r := Merge(["A"], ["A", "B"], mem, snap, {"A"});
    assert r == Outcome(tail.inventory["A" := degraded], ["A"] + tail.instances,
                        [ConfigurationChanged("A")] + tail.events) by {
      assert CompareNames("A", "A") == 0;
      assert ["A", "B"][1..] == ["B"];
      assert ["A"][1..] == [];
      UnfoldMatched(["A"], ["A", "B"], mem, snap, {"A"});
      assert FacetEvents("A", mem["A"], snap["A"]) == [ConfigurationChanged("A")];
      assert Reconciled(mem["A"], snap["A"], true) == degraded;
    }
  }

  const RetrySnapshot: Inventory := map["A" := Stamped(1, 1, 2), "B" := Stamped(1, 1, 1)]
  const RetryRemembered: Inventory := map["A" := ConnectorStamps(Some(1), Some(1), None), "B" := Stamped(1, 1, 1)]

  /**
   * After that failure, the next cycle against the same snapshot tries A's
   * configuration again and makes no call about any other connector.
   */
  lemma ScenarioRetryCalls()
    ensures forall k :: ExpectedEvents(k, RetryRemembered, RetrySnapshot) ==
                          if k == "A" then [ConfigurationChanged("A")] else []
  {
    assert FacetEvents("A", RetryRemembered["A"], RetrySnapshot["A"]) == [ConfigurationChanged("A")] by {
      assert RetryRemembered["A"] == ConnectorStamps(Some(1), Some(1), None);
      assert RetrySnapshot["A"] == Stamped(1, 1, 2);
    }
    assert RetryRemembered["B"] == RetrySnapshot["B"];
  }

  /** If that retry succeeds, the snapshot is remembered. */
  lemma ScenarioRetryRemembers()
    ensures ExpectedInventory(RetryRemembered, RetrySnapshot, {}) == RetrySnapshot
  {
    assert RetryRemembered.Keys == RetrySnapshot.Keys;
  }
}
