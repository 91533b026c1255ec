/**
 * The calls the detector makes on its change listener, recorded as a log of
 * events, and the per-connector view of such a log.
 */
module Notifications {
  import opened ConnectorNames

  /** One listener call, naming the connector instance it is about. */
  datatype Event =
    | Added(name: Key)
    | Removed(name: Key)
    | CheckpointChanged(name: Key)
    | ScheduleChanged(name: Key)
    | ConfigurationChanged(name: Key)

  /** The calls of `evs` about connector `k`, in the order they were made. */
  function EventsOf(evs: seq<Event>, k: Key): (r: seq<Event>)
    ensures |r| <= |evs|
    ensures forall e | e in r :: e in evs && e.name == k
  {
    if evs == [] then []
    else (if evs[0].name == k then [evs[0]] else []) + EventsOf(evs[1..], k)
  }

  lemma {:induction false} EventsOfConcat(a: seq<Event>, b: seq<Event>, k: Key)
    ensures EventsOf(a + b, k) == EventsOf(a, k) + EventsOf(b, k)
  {
    if a == [] {
      assert a + b == b;
    } else {
      assert (a + b)[1..] == a[1..] + b;
      EventsOfConcat(a[1..], b, k);
    }
  }

  /** A log about `k` alone is its own view for `k` and is invisible to others. */
  lemma {:induction false} EventsOfSingleName(evs: seq<Event>, n: Key, k: Key)
    requires forall e | e in evs :: e.name == n
    ensures EventsOf(evs, k) == if n == k then evs else []
  {
    if evs != [] {
      assert evs[0] in evs;
      assert forall e | e in evs[1..] :: e in evs;
      EventsOfSingleName(evs[1..], n, k);
      assert evs == [evs[0]] + evs[1..];
    }
  }

  /** The first call of a log shows in the view of the connector it names. */
  lemma FirstEventVisible(evs: seq<Event>)
    ensures evs != [] ==> EventsOf(evs, evs[0].name) != []
  {
  }

  /** A log in which no connector has any call is empty. */
  lemma SilentForEveryKey(evs: seq<Event>)
    requires forall k :: EventsOf(evs, k) == []
    ensures evs == []
  {
    FirstEventVisible(evs);
  }

  /** The calls are made in ascending order of connector name. */
  predicate NameOrdered(evs: seq<Event>) {
    forall i, j :: 0 <= i < j < |evs| ==> CompareNames(evs[i].name, evs[j].name) <= 0
  }

  /** Calls all about one name are trivially in name order. */
  lemma SingleNameOrdered(evs: seq<Event>, n: Key)
    requires forall e | e in evs :: e.name == n
    ensures NameOrdered(evs)
  {
    CompareNamesZero(n, n);
    forall i, j | 0 <= i < j < |evs|
      ensures CompareNames(evs[i].name, evs[j].name) <= 0
    {
      assert evs[i] in evs && evs[j] in evs;
    }
  }

  /** A block of calls about `n` followed by calls about names above `n`. */
  lemma PrependOrdered(block: seq<Event>, n: Key, rest: seq<Event>)
    requires forall e | e in block :: e.name == n
    requires forall e | e in rest :: Less(n, e.name)
    requires NameOrdered(rest)
    ensures NameOrdered(block + rest)
  {
    SingleNameOrdered(block, n);
    var all := block + rest;
    forall i, j | 0 <= i < j < |all|
      ensures CompareNames(all[i].name, all[j].name) <= 0
    {
      if j < |block| {
        assert all[i] == block[i] && all[j] == block[j];
      } else if i < |block| {
        assert all[i] == block[i] && block[i] in block;
        assert all[j] == rest[j - |block|] && rest[j - |block|] in rest;
      } else {
        assert all[i] == rest[i - |block|] && all[j] == rest[j - |block|];
      }
    }
  }
}
