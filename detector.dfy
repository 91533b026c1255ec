/**
 * The change detector as an object: it remembers the inventory of the previous
 * cycle, and each call of Detect reads the store's snapshot, notifies the
 * listener of every difference and replaces what it remembers.
 */
module ChangeDetection {
  import opened Stamps
  import opened ConnectorNames
  import opened Notifications
  import opened Reconciliation

  /** The persistent store; only its inventory of stamps is modelled. */
  class PersistentStore {
    var inventory: Inventory

    constructor (inventory: Inventory)
      ensures this.inventory == inventory
    {
      this.inventory := inventory;
    }
  }

  /**
   * A change listener that records every call it receives. Activating the
   * configuration of a connector in `failing` throws, in an addition as in a
   * configuration change; the other calls always succeed.
   */
  class ChangeListener {
    var calls: seq<Event>
    var failing: set<Key>

    constructor (failing: set<Key>)
      ensures calls == [] && this.failing == failing
    {
      calls := [];
      this.failing := failing;
    }

    method ConnectorAdded(name: Key) returns (activated: bool)
      modifies this`calls
      ensures calls == old(calls) + [Added(name)]
      ensures activated <==> name !in failing
    {
      calls := calls + [Added(name)];
      activated := name !in failing;
    }

    method ConnectorRemoved(name: Key)
      modifies this`calls
      ensures calls == old(calls) + [Removed(name)]
    {
      calls := calls + [Removed(name)];
    }

    method ConnectorCheckpointChanged(name: Key)
      modifies this`calls
      ensures calls == old(calls) + [CheckpointChanged(name)]
    {
      calls := calls + [CheckpointChanged(name)];
    }

    method ConnectorScheduleChanged(name: Key)
      modifies this`calls
      ensures calls == old(calls) + [ScheduleChanged(name)]
    {
      calls := calls + [ScheduleChanged(name)];
    }

    method ConnectorConfigurationChanged(name: Key) returns (activated: bool)
      modifies this`calls
      ensures calls == old(calls) + [ConfigurationChanged(name)]
      ensures activated <==> name !in failing
    {
      calls := calls + [ConfigurationChanged(name)];
      activated := name !in failing;
    }
  }

  class ChangeDetector {
    const store: PersistentStore
    const listener: ChangeListener

    /** The stamps remembered from the previous cycle. */
    var inMemoryInventory: Inventory
    /** The keys of `inMemoryInventory`, in ascending order. */
    var inMemoryInstances: seq<Key>

    ghost predicate Valid()
      reads this
    {
      Sorted(inMemoryInstances) && Elems(inMemoryInstances) == inMemoryInventory.Keys
    }

    constructor (store: PersistentStore, listener: ChangeListener)
      ensures Valid()
      ensures this.store == store && this.listener == listener
      ensures inMemoryInventory == map[] && inMemoryInstances == []
    {
      this.store := store;
      this.listener := listener;
      inMemoryInventory := map[];
      inMemoryInstances := [];
    }

    /**
     * One reconciliation cycle. Afterwards the detector remembers, connector
     * by connector, what the specification prescribes; the calls made are,
     * connector by connector, exactly the ones the specification prescribes,
     * in ascending name order.
     */
    method Detect()
      requires Valid()
      modifies this, listener`calls
      ensures Valid()
      ensures inMemoryInventory == ExpectedInventory(old(inMemoryInventory), store.inventory, listener.failing)
      ensures |old(listener.calls)| <= |listener.calls|
      ensures listener.calls[..|old(listener.calls)|] == old(listener.calls)
      ensures forall k :: EventsOf(listener.calls[|old(listener.calls)|..], k)
                           == ExpectedEvents(k, old(inMemoryInventory), store.inventory)
      ensures NameOrdered(listener.calls[|old(listener.calls)|..])
    {
      var persistentInventory := store.inventory;
      var persistentInstances := SortedKeys(persistentInventory.Keys);
      ghost var before := listener.calls;
      ghost var m := inMemoryInstances;
      ghost var mem := inMemoryInventory;
      var inventory, instances := CompareInventoriesAndNotifyListeners(
        inMemoryInstances, persistentInstances, persistentInventory);
      MergeFromStart(m, persistentInstances, mem, persistentInventory, listener.failing, before);
      MergeMeetsSpecification(m, persistentInstances, mem, persistentInventory, listener.failing);
      inMemoryInventory := inventory;
      inMemoryInstances := instances;
      assert listener.calls[|before|..] == Merge(m, persistentInstances, mem, persistentInventory, listener.failing).events;
      assert listener.calls[..|before|] == before;
    }

    /**
     * The sorted-merge walk over the remembered keys `mi` and the observed
     * keys `pi`: it makes the calls and builds the inventory and key sequence
     * the merge prescribes. A key whose addition failed is left out of both.
     */
    method CompareInventoriesAndNotifyListeners(mi: seq<Key>, pi: seq<Key>, persistentInventory: Inventory)
      returns (inventory: Inventory, instances: seq<Key>)
      requires Sorted(pi)
      requires forall k | k in mi :: k in inMemoryInventory
      requires forall k | k in pi :: k in persistentInventory
      modifies listener`calls
      ensures Outcome(inventory, instances, listener.calls)
              == MergeFrom(mi, pi, 0, 0, inMemoryInventory, persistentInventory, listener.failing,
                           Outcome(map[], [], old(listener.calls)))
    {
      ghost var mem, failing := inMemoryInventory, listener.failing;
      ghost var total := MergeFrom(mi, pi, 0, 0, mem, persistentInventory, failing, Outcome(map[], [], listener.calls));
      inventory, instances := map[], [];
      var i, j := 0, 0;
      while i < |mi| && j < |pi|
        invariant 0 <= i <= |mi| && 0 <= j <= |pi|
        invariant listener.failing == failing
        invariant MergeFrom(mi, pi, i, j, mem, persistentInventory, failing, Outcome(inventory, instances, listener.calls)) == total
        invariant inventory.Keys <= Elems(pi[..j])
        decreases |mi| - i + |pi| - j
      {
        var diff := CompareNames(mi[i], pi[j]);
        if diff == 0 {
          var stamps := CompareInstancesAndNotifyListeners(pi[j], inMemoryInventory[mi[i]], persistentInventory[pi[j]]);
          // The builder is never given a key twice.
          FreshAtCursor(pi, j, inventory.Keys);
          inventory := inventory[pi[j] := stamps];
          instances := instances + [pi[j]];
          i, j := i + 1, j + 1;
        } else if diff < 0 {
          listener.ConnectorRemoved(mi[i]);
          i := i + 1;
        } else {
          var activated := listener.ConnectorAdded(pi[j]);
          FreshAtCursor(pi, j, inventory.Keys);
          if activated {
            inventory := inventory[pi[j] := persistentInventory[pi[j]]];
            instances := instances + [pi[j]];
          }
          j := j + 1;
        }
      }
      while i < |mi|
        invariant 0 <= i <= |mi| && 0 <= j <= |pi| && (i < |mi| ==> j == |pi|)
        invariant listener.failing == failing
        invariant MergeFrom(mi, pi, i, j, mem, persistentInventory, failing, Outcome(inventory, instances, listener.calls)) == total
        invariant inventory.Keys <= Elems(pi[..j])
        decreases |mi| - i
      {
        listener.ConnectorRemoved(mi[i]);
        i := i + 1;
      }
      while j < |pi|
        invariant i == |mi| && 0 <= j <= |pi|
        invariant listener.failing == failing
        invariant MergeFrom(mi, pi, i, j, mem, persistentInventory, failing, Outcome(inventory, instances, listener.calls)) == total
        invariant inventory.Keys <= Elems(pi[..j])
        decreases |pi| - j
      {
        var activated := listener.ConnectorAdded(pi[j]);
        FreshAtCursor(pi, j, inventory.Keys);
        if activated {
          inventory := inventory[pi[j] := persistentInventory[pi[j]]];
          instances := instances + [pi[j]];
        }
        j := j + 1;
      }
    }

    /**
     * Compares the stamps of an instance known on both sides and notifies the
     * listener of each facet that changed, configuration last. Returns the
     * stamps to remember: the observed ones, or, when activating the new
     * configuration failed, the observed ones with no configuration stamp.
     */
    method CompareInstancesAndNotifyListeners(name: Key, ms: ConnectorStamps, ps: ConnectorStamps)
      returns (stamps: ConnectorStamps)
      modifies listener`calls
      ensures listener.calls == old(listener.calls) + FacetEvents(name, ms, ps)
      ensures stamps == Reconciled(ms, ps, name in listener.failing)
    {
      if CompareStamps(ms.checkpoint, ps.checkpoint) != 0 {
        listener.ConnectorCheckpointChanged(name);
      }
      if CompareStamps(ms.schedule, ps.schedule) != 0 {
        listener.ConnectorScheduleChanged(name);
      }
      if CompareStamps(ms.configuration, ps.configuration) != 0 {
        var activated := listener.ConnectorConfigurationChanged(name);
        if !activated {
          return ConnectorStamps(ps.checkpoint, ps.schedule, None);
        }
      }
      return ps;
    }
  }
}
