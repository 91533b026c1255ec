# Change detection in the connector manager

This project models the change detector of the Google Enterprise connector
manager (`ChangeDetectorImpl`) in Dafny and proves what one detection cycle
does.

The detector remembers, from its previous cycle, an inventory: for every
connector instance, the version stamps of its checkpoint, schedule and
configuration, together with the sorted set of instance names. A cycle does
the following:

1. It reads the persistent store's current inventory and sorts its names.
2. It walks the remembered and the observed names with two cursors, as a
   sorted-merge diff.
3. It tells the change listener about each step:
   - a name only remembered gets `connectorRemoved`;
   - a name only observed gets `connectorAdded`;
   - a name on both sides gets one call per facet whose stamps differ, with
     configuration last.
4. It keeps the observed inventory as the new remembered one, with two
   exceptions for a configuration activation that throws:
   - a known instance is remembered with no configuration stamp, so the
     change is tried again;
   - a new instance is forgotten altogether, so it is added again.

The model has five modules:

- `Stamps` (stamps.dfy): the stamp triple, with `null` as `None`, and the
  null-tolerant comparison `CompareStamps`.
- `ConnectorNames` (names.dfy):
  - names and their order, which has the shape of `String.compareTo` but
    compares code points rather than UTF-16 code units;
  - strictly ascending key sequences;
  - `SortedKeys`, the `TreeSet` built from the snapshot's key set.
- `Notifications` (notifications.dfy): the listener's calls as a log of
  events, and the per-connector view `EventsOf` of such a log.
- `Reconciliation` (reconciliation.dfy) holds the cycle as functions:
  - `FacetEvents` and `Reconciled`, for one matched instance;
  - `Merge`, the sorted-merge diff stated recursively;
  - `MergeFrom`, the same walk resumed from two cursor positions, which is
    the shape of the three loops;
  - `ExpectedEvents` and `ExpectedInventory`, an independent reference
    specification stated connector by connector;
  - the lemmas that connect these functions to each other and state the
    retry and convergence properties.
- `ChangeDetection` (detector.dfy) holds the classes:
  - the store;
  - a recording change listener;
  - the detector, whose fields `inMemoryInventory` and `inMemoryInstances`
    `Detect` replaces.

  The three loops of `compareInventoriesAndNotifyListeners` are a method with
  loop invariants, proved equal to `MergeFrom`. The per-instance comparison
  is a method with the early return of the source.

Activation failure is an oracle. The listener's `failing` field is the set of
names whose configuration activation throws `InstantiatorException`, in
`connectorAdded` as in `connectorConfigurationChanged`. Within one cycle each
name gets at most one activation attempt, so a set per cycle covers every
pattern of failures.

## Model

| member | source | states |
|---|---|---|
| Stamps.StampCompareTo | projects/connector-manager/source/java/com/google/enterprise/connector/instantiator/ChangeDetectorImpl.java:246 | The stamp's own comparison is negative exactly when the first stamp is smaller and zero exactly when the stamps are equal. |
| Stamps.CompareStamps | projects/connector-manager/source/java/com/google/enterprise/connector/instantiator/ChangeDetectorImpl.java:238-248 | Zero exactly when both stamps are equal, both null included. Negative when only the in-memory stamp is null and positive when only the persistent one is. With both present, negative exactly when the in-memory stamp is smaller. |
| Stamps.CompareStampsAntisymmetric | projects/connector-manager/source/java/com/google/enterprise/connector/instantiator/ChangeDetectorImpl.java:227-237 | Swapping the two stamps reverses the sign of the comparison, as the Comparator contract cited there requires. |
| ConnectorNames.CompareNamesZero | projects/connector-manager/source/java/com/google/enterprise/connector/instantiator/ChangeDetectorImpl.java:120 | The name comparison is zero exactly for equal names, so `diff == 0` means the same instance. |
| ConnectorNames.CompareNamesAntisymmetric | projects/connector-manager/source/java/com/google/enterprise/connector/instantiator/ChangeDetectorImpl.java:120 | Swapping the names negates the comparison. |
| ConnectorNames.LessTransitive | projects/connector-manager/source/java/com/google/enterprise/connector/instantiator/ChangeDetectorImpl.java:120 | The name order is transitive, which the merge needs to conclude that a skipped name is below everything left on the other side. |
| ConnectorNames.FreshAtCursor | projects/connector-manager/source/java/com/google/enterprise/connector/instantiator/ChangeDetectorImpl.java:113-114 | Walking the ascending names, the name at the cursor is not yet among the keys put so far, so the map builder is never given a key twice and `build()` cannot throw. |
| ConnectorNames.SortedKeys | projects/connector-manager/source/java/com/google/enterprise/connector/instantiator/ChangeDetectorImpl.java:66-67 | The snapshot's names as a strictly ascending sequence holding exactly the keys of the snapshot. |
| Notifications.EventsOf | projects/connector-manager/source/java/com/google/enterprise/connector/instantiator/ChangeDetectorImpl.java:137-213 | The view of a call log for one connector is a sub-log containing only calls about that connector. |
| Notifications.EventsOfConcat | projects/connector-manager/source/java/com/google/enterprise/connector/instantiator/ChangeDetectorImpl.java:118-176 | The per-connector view of calls made one after another is the concatenation of the views. |
| Notifications.SilentForEveryKey | projects/connector-manager/source/java/com/google/enterprise/connector/instantiator/ChangeDetectorImpl.java:118-176 | A call log in which no connector has a call is empty. |
| Notifications.PrependOrdered | projects/connector-manager/source/java/com/google/enterprise/connector/instantiator/ChangeDetectorImpl.java:118-153 | Calls about one name followed by name-ordered calls about greater names are in name order. |
| Reconciliation.FacetEventsMeaning | projects/connector-manager/source/java/com/google/enterprise/connector/instantiator/ChangeDetectorImpl.java:196-212 | For a matched instance, each facet is reported exactly when its stamps differ. There is no call exactly when all three stamps are equal. There is one call per differing facet, a checkpoint change comes first and a configuration change last. |
| Reconciliation.FacetEventsNamed | projects/connector-manager/source/java/com/google/enterprise/connector/instantiator/ChangeDetectorImpl.java:196-212 | The facet calls are about the compared instance only, and none of them adds or removes it. |
| Reconciliation.ReconciledMeaning | projects/connector-manager/source/java/com/google/enterprise/connector/instantiator/ChangeDetectorImpl.java:207-224 | The remembered stamps always keep the observed checkpoint and schedule. They differ from the observed stamps exactly when a changed, present configuration failed to activate, and then only by an absent configuration stamp. |
| Reconciliation.MergeKeys | projects/connector-manager/source/java/com/google/enterprise/connector/instantiator/ChangeDetectorImpl.java:131-146 | The merge's key sequence holds exactly the keys of its inventory, and both lie within the observed keys. |
| Reconciliation.MergeEventNames | projects/connector-manager/source/java/com/google/enterprise/connector/instantiator/ChangeDetectorImpl.java:116-176 | Every call the merge makes names a remembered or an observed instance. |
| Reconciliation.MergeEventsOf | projects/connector-manager/source/java/com/google/enterprise/connector/instantiator/ChangeDetectorImpl.java:116-176 | For every connector, the merge's calls about it are exactly the calls its own membership and stamps prescribe. |
| Reconciliation.MergeInventoryAt | projects/connector-manager/source/java/com/google/enterprise/connector/instantiator/ChangeDetectorImpl.java:127-147 | A connector is in the merged inventory exactly when it is observed and either was remembered or did not fail to activate. Its entry is the reconciled stamps if it was remembered and the observed stamps otherwise. |
| Reconciliation.MergeInstancesSorted | projects/connector-manager/source/java/com/google/enterprise/connector/instantiator/ChangeDetectorImpl.java:66-76 | The merge's key sequence stays strictly ascending. |
| Reconciliation.MergeNameOrdered | projects/connector-manager/source/java/com/google/enterprise/connector/instantiator/ChangeDetectorImpl.java:116-176 | The merge makes its calls in ascending order of connector name. |
| Reconciliation.MergeMeetsSpecification | projects/connector-manager/source/java/com/google/enterprise/connector/instantiator/ChangeDetectorImpl.java:104-178 | On sorted remembered and observed keys, the merge computes the reference inventory. Its sorted key sequence matches that inventory, it makes exactly the reference calls for every connector, and the calls come in name order. |
| Reconciliation.ResumeRemoved | projects/connector-manager/source/java/com/google/enterprise/connector/instantiator/ChangeDetectorImpl.java:136-138 | Reporting a remembered name below the observed cursor as removed keeps the partial results a prefix of the whole merge. |
| Reconciliation.ResumeAdded | projects/connector-manager/source/java/com/google/enterprise/connector/instantiator/ChangeDetectorImpl.java:139-148 | Reporting an observed name below the remembered cursor as added, and keeping it only if activation succeeds, keeps the partial results a prefix of the whole merge. |
| Reconciliation.ResumeMatched | projects/connector-manager/source/java/com/google/enterprise/connector/instantiator/ChangeDetectorImpl.java:123-135 | Comparing the stamps of a name at both cursors and putting the reconciled stamps keeps the partial results a prefix of the whole merge. |
| Reconciliation.MergeFromResumes | projects/connector-manager/source/java/com/google/enterprise/connector/instantiator/ChangeDetectorImpl.java:118-176 | Walking the cursors forward from a state that is a prefix of the merge ends in the merge itself. |
| Reconciliation.MergeFromStart | projects/connector-manager/source/java/com/google/enterprise/connector/instantiator/ChangeDetectorImpl.java:116-177 | The cursor walk from the start yields the merge's inventory and key sequence, and appends the merge's calls after the calls made before it. |
| Reconciliation.RemovedOnce | projects/connector-manager/source/java/com/google/enterprise/connector/instantiator/ChangeDetectorImpl.java:136-138 | A connector that is only remembered gets exactly one removal call and is absent from the new inventory, whether the main loop or the drain loop finds it. |
| Reconciliation.AddedOnce | projects/connector-manager/source/java/com/google/enterprise/connector/instantiator/ChangeDetectorImpl.java:139-148 | A connector that is only observed gets exactly one addition call. It is remembered exactly when its activation succeeds, and then with its observed stamps. |
| Reconciliation.UnchangedIsSilent | projects/connector-manager/source/java/com/google/enterprise/connector/instantiator/ChangeDetectorImpl.java:196-224 | A matched connector with all three stamps equal gets no call and keeps its persistent stamps unchanged. |
| Reconciliation.FailedConfigurationDegrades | projects/connector-manager/source/java/com/google/enterprise/connector/instantiator/ChangeDetectorImpl.java:207-221 | When the configuration change of a matched connector fails to activate, the connector stays remembered with the observed checkpoint and schedule and no configuration stamp. |
| Reconciliation.DegradedEntryRetried | projects/connector-manager/source/java/com/google/enterprise/connector/instantiator/ChangeDetectorImpl.java:208-212 | After such a failure, the next cycle against the same present configuration stamp makes exactly one call for that connector, a configuration change. |
| Reconciliation.FailedAdditionRetried | projects/connector-manager/source/java/com/google/enterprise/connector/instantiator/ChangeDetectorImpl.java:144-147 | A new connector whose activation failed is added again by the next cycle. |
| Reconciliation.InventoryWithinSnapshot | projects/connector-manager/source/java/com/google/enterprise/connector/instantiator/ChangeDetectorImpl.java:73-76 | The new inventory's keys lie within the snapshot's keys, and every observed connector that did not fail is among them. |
| Reconciliation.NoFailureConverges | projects/connector-manager/source/java/com/google/enterprise/connector/instantiator/ChangeDetectorImpl.java:108-112 | When no activation fails, the new inventory equals the snapshot exactly. |
| Reconciliation.SecondCycleSilent | projects/connector-manager/source/java/com/google/enterprise/connector/instantiator/ChangeDetectorImpl.java:108-112 | When no activation fails, a second cycle against the same snapshot makes no listener call. |
| Reconciliation.ScenarioChangeAndAddition | projects/connector-manager/source/java/com/google/enterprise/connector/instantiator/ChangeDetectorImpl.java:116-177 | The example has {A:(1,1,1)} remembered and {A:(1,1,2), B:(1,1,1)} observed. It makes one configuration change for A, then one addition of B, and remembers the snapshot. |
| Reconciliation.ScenarioFailure | projects/connector-manager/source/java/com/google/enterprise/connector/instantiator/ChangeDetectorImpl.java:207-221 | The same example with A's activation failing makes the same calls, but remembers A as (1,1,absent). |
| Reconciliation.ScenarioRetryCalls | projects/connector-manager/source/java/com/google/enterprise/connector/instantiator/ChangeDetectorImpl.java:241-242 | The next cycle after that failure makes one configuration change for A and no other call. |
| Reconciliation.ScenarioRetryRemembers | projects/connector-manager/source/java/com/google/enterprise/connector/instantiator/ChangeDetectorImpl.java:208-224 | When that retry succeeds, the snapshot is remembered. |
| ChangeDetection.ChangeListener.ConnectorAdded | projects/connector-manager/source/java/com/google/enterprise/connector/instantiator/ChangeDetectorImpl.java:141-147 | Records an addition. Activation fails exactly for the names in `failing`. |
| ChangeDetection.ChangeListener.ConnectorRemoved | projects/connector-manager/source/java/com/google/enterprise/connector/instantiator/ChangeDetectorImpl.java:137 | Records a removal. |
| ChangeDetection.ChangeListener.ConnectorCheckpointChanged | projects/connector-manager/source/java/com/google/enterprise/connector/instantiator/ChangeDetectorImpl.java:198-199 | Records a checkpoint change. |
| ChangeDetection.ChangeListener.ConnectorScheduleChanged | projects/connector-manager/source/java/com/google/enterprise/connector/instantiator/ChangeDetectorImpl.java:203-204 | Records a schedule change. |
| ChangeDetection.ChangeListener.ConnectorConfigurationChanged | projects/connector-manager/source/java/com/google/enterprise/connector/instantiator/ChangeDetectorImpl.java:210-213 | Records a configuration change. Activation fails exactly for the names in `failing`. |
| ChangeDetection.ChangeDetector.constructor | projects/connector-manager/source/java/com/google/enterprise/connector/instantiator/ChangeDetectorImpl.java:42-58 | A new detector remembers the empty inventory and no names. |
| ChangeDetection.ChangeDetector.Detect | projects/connector-manager/source/java/com/google/enterprise/connector/instantiator/ChangeDetectorImpl.java:61-81 | A cycle keeps the remembered names sorted and equal to the inventory's keys. The new inventory is the reference inventory of the old one against the store's. Earlier listener calls stay as they were. For every connector, the calls made are exactly the reference calls, and they come in ascending name order. |
| ChangeDetection.ChangeDetector.CompareInventoriesAndNotifyListeners | projects/connector-manager/source/java/com/google/enterprise/connector/instantiator/ChangeDetectorImpl.java:104-178 | The three loops produce the inventory, the surviving names and the appended calls of the cursor walk `MergeFrom`. A failed addition is left out of both the inventory and the names. |
| ChangeDetection.ChangeDetector.CompareInstancesAndNotifyListeners | projects/connector-manager/source/java/com/google/enterprise/connector/instantiator/ChangeDetectorImpl.java:193-225 | The method appends exactly the facet calls for the instance. It returns the reconciled stamps: the persistent ones, or those with no configuration stamp when activation failed. |

Termination of the loops: each iteration of
`CompareInventoriesAndNotifyListeners` and each step of `Merge` and
`MergeFrom` consumes at least one name. Their `decreases` clauses state the
bound of at most |M| + |P| steps:
- `|mi| - i + |pi| - j` for the main loop, `|mi| - i` and `|pi| - j` for the
  two drain loops;
- `|m| + |p|` for `Merge`;
- `|m| - i + |p| - j` for `MergeFrom`.

## Left out

- The nested diagnostic context (`NDC` push and pop) is not modelled; it only
  labels log output.
- The `synchronized` on `detect` is not modelled. `Detect` is a sequential
  method.
- The store's facet reads (`getConnectorConfiguration`, `getConnectorState`,
  `getConnectorSchedule`) are not modelled. A listener event carries only the
  connector name, not the value read.
- Only `InstantiatorException` from the listener is modelled, as the
  `failing` oracle. Other exceptions, which would leave the cycle half done,
  are not.
- `StoreContext` also carries a connector type. Keys here are names alone,
  which is all that line 120 compares, with no policy for a changed type.
- `CompareNames` compares names by Unicode code point, while Java's
  `String.compareTo` (line 120, and the `TreeSet` at lines 66-67) compares
  UTF-16 code units. The sign of the two comparisons differs only for names
  that mix characters above U+FFFF with characters in U+E000-U+FFFF. For
  those names, the order of `SortedKeys`, of the new `inMemoryInstances` and
  of the calls that `Detect`'s ensures fix is the code-point order, not the
  program's. The calls per connector and the new inventory do not depend on
  the order. The size of the result differs whenever a character above
  U+FFFF is involved; the program uses only its sign (lines 120-123), and so
  does the model.
- A present `Stamp` is modelled as an integer, and its `compareTo` as integer
  order. The concrete stamp classes are not part of this model.
- Lines 218-219 pass `ps.getScheduleStamp()` in the third argument position
  of the `ConnectorStamps` constructor, which is not part of this model. The
  model follows the intent the comment at lines 214-217 states: it keeps the
  checkpoint and schedule stamps and drops the configuration stamp.
- `pi.remove()` on the `TreeSet` iterator is modelled as not copying the name
  into the survivors sequence that becomes `inMemoryInstances`. The
  iterators are modelled as indexes into sequences.
- The `ImmutableMap.Builder` refuses a duplicate key. The model uses a map
  update instead. A loop invariant of `CompareInventoriesAndNotifyListeners`
  proves that no key is put twice, so that refusal cannot happen.
- `getNext` (lines 89-91) is folded into the loop conditions on the cursor
  indexes.
- `OpenSamlUtil.java`, `JdbcStoreTest.java` and `DirEntry.java` are not part
  of this model. They are a wrapper over an external library, a database
  test and a plain field holder.
