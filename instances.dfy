/**
 * Performance instances of an event, their seat statuses and the capacity
 * summary over them.
 */
module Instances {
  import opened Wrappers
  import opened Rounding
  import opened OrderedDict

  /** A scheduled performance: its id, the id of its event, its start time. */
  datatype Instance = Instance(id: string, eventId: string, start: string)

  /** The counts the status endpoint returns for one instance. */
  datatype RawStatus = RawStatus(sold: int, locked: int, available: int)

  /** The per-instance entry of the result of `get_event_instances_statuses`. */
  datatype InstanceStatus = InstanceStatus(instanceId: string, sold: int, locked: int, available: int)

  /** The dict `calculate_event_capacity_summary` returns. */
  datatype CapacitySummary = CapacitySummary(
    totalSold: int,
    totalLocked: int,
    totalAvailable: int,
    percentSold: real,
    percentLocked: real,
    percentAvailable: real)

  /** Instance `x` is kept for `eventId` and starts at `start`. */
  predicate KeptAt(x: Instance, eventId: string, start: string) {
    x.eventId == eventId && x.start == start
  }

  /** The id of the last instance of `eventId` starting at `start`, if any. */
  function LastMatch(xs: seq<Instance>, eventId: string, start: string): Option<string>
  {
    if xs == [] then None
    else if KeptAt(xs[|xs| - 1], eventId, start) then Some(xs[|xs| - 1].id)
    else LastMatch(xs[..|xs| - 1], eventId, start)
  }

  /** LastMatch finds nothing exactly when no kept instance starts then, and
      otherwise names a kept instance with that start that no later kept
      instance shares its start with. */
  lemma {:induction false} LastMatchIsLastKept(xs: seq<Instance>, eventId: string, start: string)
    ensures LastMatch(xs, eventId, start).None? <==> forall i :: 0 <= i < |xs| ==> !KeptAt(xs[i], eventId, start)
    ensures LastMatch(xs, eventId, start).Some? ==>
              exists i :: 0 <= i < |xs| && KeptAt(xs[i], eventId, start)
                          && xs[i].id == LastMatch(xs, eventId, start).value
                          && forall j :: i < j < |xs| ==> !KeptAt(xs[j], eventId, start)
  {
    if xs != [] {
      var init := xs[..|xs| - 1];
      LastMatchIsLastKept(init, eventId, start);
      assert forall i :: 0 <= i < |init| ==> init[i] == xs[i];
      if KeptAt(xs[|xs| - 1], eventId, start) {
        assert KeptAt(xs[|xs| - 1], eventId, start) && xs[|xs| - 1].id == LastMatch(xs, eventId, start).value;
      } else if LastMatch(init, eventId, start).Some? {
        var i :| 0 <= i < |init| && KeptAt(init[i], eventId, start)
                 && init[i].id == LastMatch(init, eventId, start).value
                 && forall j :: i < j < |init| ==> !KeptAt(init[j], eventId, start);
        assert KeptAt(xs[i], eventId, start);
      }
    }
  }

  /** The start times of the instances of `eventId`, each once, in the order
      in which they first occur. */
  function KeptStarts(xs: seq<Instance>, eventId: string): (ks: seq<string>)
    ensures forall s :: s in ks <==> LastMatch(xs, eventId, s).Some?
  {
    if xs == [] then []
    else
      var ks := KeptStarts(xs[..|xs| - 1], eventId);
      var x := xs[|xs| - 1];
      if x.eventId == eventId && x.start !in ks then ks + [x.start] else ks
  }

  /** `filter_instances_by_event`: start time -> instance id for the instances
      of `eventId`; a later instance with the same start time overwrites an
      earlier one. */
  method FilterInstancesByEvent(instances: seq<Instance>, eventId: string) returns (d: Dict<string, string>)
    ensures DistinctKeys(d)
    ensures forall s :: Get(d, s) == LastMatch(instances, eventId, s)
    ensures Keys(d) == KeptStarts(instances, eventId)
  {
    d := [];
    for i := 0 to |instances|
      invariant DistinctKeys(d)
      invariant forall s :: Get(d, s) == LastMatch(instances[..i], eventId, s)
      invariant Keys(d) == KeptStarts(instances[..i], eventId)
    {
      var x := instances[i];
      assert instances[..i + 1][..i] == instances[..i];
      if x.eventId == eventId {
        GetNoneIffNotKey(d, x.start);
        if Get(d, x.start).None? {
          KeysAppend(d, x.start, x.id);
        }
        PutKeepsDistinctKeys(d, x.start, x.id);
        d := Put(d, x.start, x.id);
      }
      assert forall s :: Get(d, s) == LastMatch(instances[..i + 1], eventId, s);
    }
    assert instances[..|instances|] == instances;
  }

  /** The stored entry for instance `id` from its raw status: `extra_locks`
      is subtracted from the locked count, with no clamping at zero. */
  function StatusFrom(id: string, raw: RawStatus, extraLocks: int): (st: InstanceStatus)
    ensures st.instanceId == id && st.sold == raw.sold && st.available == raw.available
    ensures st.locked + extraLocks == raw.locked
  {
    InstanceStatus(id, raw.sold, raw.locked - extraLocks, raw.available)
  }

  /** The entry stored for an instance id (or for no instance): present
      exactly when there is an instance and its status fetch succeeded. */
  function EntryFor(id: Option<string>, statusOf: string -> Option<RawStatus>, extraLocks: int): Option<InstanceStatus>
  {
    match id
    case None => None
    case Some(id) =>
      match statusOf(id)
      case None => None
      case Some(raw) => Some(StatusFrom(id, raw, extraLocks))
  }

  /** The start times among `ks` whose instance's status fetch succeeds, in order. */
  function StartsWithStatus(ks: seq<string>, xs: seq<Instance>, eventId: string, statusOf: string -> Option<RawStatus>): (r: seq<string>)
    ensures forall s :: s in r ==> s in ks && LastMatch(xs, eventId, s).Some? && statusOf(LastMatch(xs, eventId, s).value).Some?
  {
    if ks == [] then []
    else
      var rest := StartsWithStatus(ks[..|ks| - 1], xs, eventId, statusOf);
      var s := ks[|ks| - 1];
      var id := LastMatch(xs, eventId, s);
      assert forall t :: t in ks[..|ks| - 1] ==> t in ks;
      if id.Some? && statusOf(id.value).Some? then rest + [s] else rest
  }

  /** The statuses collected after the first `i` entries of `filtered`:
      one per start time whose status fetch succeeded, in that order. */
  ghost predicate CollectedUpTo(
    statuses: Dict<string, InstanceStatus>, filtered: Dict<string, string>, i: nat,
    xs: seq<Instance>, eventId: string, statusOf: string -> Option<RawStatus>, extraLocks: int)
    requires i <= |filtered|
  {
    && DistinctKeys(statuses)
    && (forall s :: Get(statuses, s) == EntryFor(Get(filtered[..i], s), statusOf, extraLocks))
    && Keys(statuses) == StartsWithStatus(Keys(filtered[..i]), xs, eventId, statusOf)
  }

  /** StartsWithStatus of a list with one more start time at its end. */
  lemma StartsWithStatusAppend(ks: seq<string>, k: string, xs: seq<Instance>, eventId: string, statusOf: string -> Option<RawStatus>)
    ensures var id := LastMatch(xs, eventId, k);
            StartsWithStatus(ks + [k], xs, eventId, statusOf)
            == StartsWithStatus(ks, xs, eventId, statusOf) + if id.Some? && statusOf(id.value).Some? then [k] else []
  {
    assert (ks + [k])[..|ks|] == ks;
  }

  /** The lookups part of one step of the status loop. */
  lemma CollectStepGets(
    statuses: Dict<string, InstanceStatus>, filtered: Dict<string, string>, i: nat,
    statusOf: string -> Option<RawStatus>, extraLocks: int)
    requires i < |filtered| && DistinctKeys(filtered)
    requires forall s :: Get(statuses, s) == EntryFor(Get(filtered[..i], s), statusOf, extraLocks)
    ensures Get(statuses, filtered[i].0).None?
    ensures var (start, id) := filtered[i];
            var next := if statusOf(id).Some? then Put(statuses, start, StatusFrom(id, statusOf(id).value, extraLocks)) else statuses;
            forall s :: Get(next, s) == EntryFor(Get(filtered[..i + 1], s), statusOf, extraLocks)
  {
    var (start, id) := filtered[i];
    assert filtered[..i + 1] == filtered[..i] + [(start, id)];
    assert Get(filtered[..i], start).None? by {
      forall k | 0 <= k < i ensures filtered[..i][k].0 != start {
        assert filtered[k].0 != filtered[i].0;
      }
    }
    forall s ensures Get(filtered[..i + 1], s) == if s == start then Some(id) else Get(filtered[..i], s) {
      GetAppend(filtered[..i], start, id, s);
    }
  }

  /** The key-order part of one step of the status loop. */
  lemma CollectStepKeys(
    statuses: Dict<string, InstanceStatus>, filtered: Dict<string, string>, i: nat,
    xs: seq<Instance>, eventId: string, statusOf: string -> Option<RawStatus>, extraLocks: int)
    requires i < |filtered|
    requires Get(statuses, filtered[i].0).None?
    requires LastMatch(xs, eventId, filtered[i].0) == Some(filtered[i].1)
    requires Keys(statuses) == StartsWithStatus(Keys(filtered[..i]), xs, eventId, statusOf)
    ensures var (start, id) := filtered[i];
            var next := if statusOf(id).Some? then Put(statuses, start, StatusFrom(id, statusOf(id).value, extraLocks)) else statuses;
            Keys(next) == StartsWithStatus(Keys(filtered[..i + 1]), xs, eventId, statusOf)
  {
    var (start, id) := filtered[i];
    assert filtered[..i + 1] == filtered[..i] + [(start, id)];
    KeysAppend(filtered[..i], start, id);
    StartsWithStatusAppend(Keys(filtered[..i]), start, xs, eventId, statusOf);
    if statusOf(id).Some? {
      KeysAppend(statuses, start, StatusFrom(id, statusOf(id).value, extraLocks));
    }
  }

  /** One step of the status loop keeps CollectedUpTo. */
  lemma CollectStep(
    statuses: Dict<string, InstanceStatus>, filtered: Dict<string, string>, i: nat,
    xs: seq<Instance>, eventId: string, statusOf: string -> Option<RawStatus>, extraLocks: int)
    requires i < |filtered| && DistinctKeys(filtered)
    requires forall s :: Get(filtered, s) == LastMatch(xs, eventId, s)
    requires CollectedUpTo(statuses, filtered, i, xs, eventId, statusOf, extraLocks)
    ensures var (start, id) := filtered[i];
            CollectedUpTo(
              if statusOf(id).Some? then Put(statuses, start, StatusFrom(id, statusOf(id).value, extraLocks)) else statuses,
              filtered, i + 1, xs, eventId, statusOf, extraLocks)
  {
    var (start, id) := filtered[i];
    GetAt(filtered, i);
    CollectStepGets(statuses, filtered, i, statusOf, extraLocks);
    CollectStepKeys(statuses, filtered, i, xs, eventId, statusOf, extraLocks);
    if statusOf(id).Some? {
      PutKeepsDistinctKeys(statuses, start, StatusFrom(id, statusOf(id).value, extraLocks));
    }
  }

  /** `get_event_instances_statuses`, with the instance-list fetch given as
      `fetched` and the per-instance status fetch as `statusOf`. A failed list
      fetch fails the whole call; a failed status fetch drops that instance.
      The keys keep the order in which the start times first occur. */
  method GetEventInstancesStatuses(
    fetched: Option<seq<Instance>>,
    eventId: string,
    extraLocks: int,
    statusOf: string -> Option<RawStatus>)
    returns (r: Option<Dict<string, InstanceStatus>>)
    ensures r.None? <==> fetched.None?
    ensures r.Some? ==> DistinctKeys(r.value)
    ensures r.Some? ==> forall s :: Get(r.value, s) == EntryFor(LastMatch(fetched.value, eventId, s), statusOf, extraLocks)
    ensures r.Some? ==> Keys(r.value) == StartsWithStatus(KeptStarts(fetched.value, eventId), fetched.value, eventId, statusOf)
  {
    if fetched.None? {
      return None;
    }
    var filtered := FilterInstancesByEvent(fetched.value, eventId);
    var statuses: Dict<string, InstanceStatus> := [];
    for i := 0 to |filtered|
      invariant CollectedUpTo(statuses, filtered, i, fetched.value, eventId, statusOf, extraLocks)
    {
      CollectStep(statuses, filtered, i, fetched.value, eventId, statusOf, extraLocks);
      var (start, id) := filtered[i];
      var status := statusOf(id);
      if status.Some? {
        statuses := Put(statuses, start, StatusFrom(id, status.value, extraLocks));
      }
    }
    assert filtered[..|filtered|] == filtered;
    r := Some(statuses);
  }

  /** Sold, locked and available counts side by side. */
  datatype Counts = Counts(sold: int, locked: int, available: int)

  /** The three counts summed over a list of statuses. */
  function Totals(vs: seq<InstanceStatus>): Counts
  {
    if vs == [] then Counts(0, 0, 0)
    else
      var c := Totals(vs[..|vs| - 1]);
      var v := vs[|vs| - 1];
      Counts(c.sold + v.sold, c.locked + v.locked, c.available + v.available)
  }

  /** Each total is non-negative when that count is non-negative in every status. */
  lemma {:induction false} TotalsNonNegative(vs: seq<InstanceStatus>)
    ensures (forall i :: 0 <= i < |vs| ==> vs[i].sold >= 0) ==> Totals(vs).sold >= 0
    ensures (forall i :: 0 <= i < |vs| ==> vs[i].locked >= 0) ==> Totals(vs).locked >= 0
    ensures (forall i :: 0 <= i < |vs| ==> vs[i].available >= 0) ==> Totals(vs).available >= 0
  {
    if vs != [] {
      var init := vs[..|vs| - 1];
      TotalsNonNegative(init);
      assert forall i :: 0 <= i < |init| ==> init[i] == vs[i];
    }
  }

  lemma {:induction false} TotalsAppend(a: seq<InstanceStatus>, b: seq<InstanceStatus>)
    ensures var ta, tb := Totals(a), Totals(b);
            Totals(a + b) == Counts(ta.sold + tb.sold, ta.locked + tb.locked, ta.available + tb.available)
  {
    if b == [] {
      assert a + b == a;
    } else {
      assert (a + b)[..|a + b| - 1] == a + b[..|b| - 1];
      TotalsAppend(a, b[..|b| - 1]);
    }
  }

  /** A status in the middle of the list adds its counts to the totals of the rest. */
  lemma TotalsMiddle(left: seq<InstanceStatus>, x: InstanceStatus, right: seq<InstanceStatus>)
    ensures var t := Totals(left + right);
            Totals(left + [x] + right) == Counts(t.sold + x.sold, t.locked + x.locked, t.available + x.available)
  {
    TotalsAppend(left + [x], right);
    TotalsAppend(left, right);
    assert (left + [x])[..|left + [x]| - 1] == left;
  }

  /** A list is its part before `j`, its `j`-th element and its part after. */
  lemma SplitAt(b: seq<InstanceStatus>, j: nat)
    requires j < |b|
    ensures b == b[..j] + [b[j]] + b[j + 1..]
  {
    assert b[j..] == [b[j]] + b[j + 1..];
    assert b == b[..j] + b[j..];
  }

  /** Taking one status out of the list takes it out of the multiset. */
  lemma MultisetRemoveAt(b: seq<InstanceStatus>, j: nat)
    requires j < |b|
    ensures multiset(b[..j] + b[j + 1..]) == multiset(b) - multiset{b[j]}
  {
    SplitAt(b, j);
  }

  /** Taking one status out of the list takes its counts out of the totals. */
  lemma TotalsRemoveAt(b: seq<InstanceStatus>, j: nat)
    requires j < |b|
    ensures var t, x := Totals(b[..j] + b[j + 1..]), b[j];
            Totals(b) == Counts(t.sold + x.sold, t.locked + x.locked, t.available + x.available)
  {
    SplitAt(b, j);
    TotalsMiddle(b[..j], b[j], b[j + 1..]);
  }

  /** The totals do not depend on the order of the statuses: any
      rearrangement of them has the same totals. */
  lemma {:induction false} TotalsPermutation(a: seq<InstanceStatus>, b: seq<InstanceStatus>)
    requires multiset(a) == multiset(b)
    ensures Totals(a) == Totals(b)
    decreases |a|
  {
    if a == [] {
      assert |b| == |multiset(b)| == 0;
    } else {
      var init, x := a[..|a| - 1], a[|a| - 1];
      MultisetRemoveAt(a, |a| - 1);
      assert a[|a|..] == [];
      assert init + [] == init;
      assert x in multiset(b);
      var j :| 0 <= j < |b| && b[j] == x;
      var rest := b[..j] + b[j + 1..];
      MultisetRemoveAt(b, j);
      assert multiset(init) == multiset(a) - multiset{x};
      TotalsRemoveAt(b, j);
      TotalsPermutation(init, rest);
    }
  }

  function Capacity(c: Counts): int {
    c.sold + c.locked + c.available
  }

  /** A count as a fraction of capacity, rounded to two decimals; 0 unless
      the capacity is positive. */
  function PercentOf(count: int, capacity: int): (p: real)
    ensures capacity <= 0 ==> p == 0.0
    ensures capacity > 0 ==> -0.005 <= p - count as real / capacity as real <= 0.005
    ensures capacity > 0 ==> IsHalfEvenHundredths(count as real / capacity as real, p)
    ensures IsHundredths(p)
  {
    var raw := if capacity > 0 then (count as real / capacity as real) * 100.0 else 0.0;
    assert capacity > 0 ==> raw / 100.0 == count as real / capacity as real;
    Round2(raw / 100.0)
  }

  /** One seat sold out of eight is the tie 12.5 hundredths, which goes to
      the even hundredth: 0.12. */
  lemma OneInEight()
    ensures PercentOf(1, 8) == 0.12
  {
    assert 1 as real / 8 as real == 0.125;
    Round2Tie();
  }

  /** `calculate_event_capacity_summary`: totals over all statuses and each
      total as a rounded fraction of their sum. */
  method CalculateEventCapacitySummary(statuses: Dict<string, InstanceStatus>) returns (s: CapacitySummary)
    ensures Counts(s.totalSold, s.totalLocked, s.totalAvailable) == Totals(Values(statuses))
    ensures var cap := s.totalSold + s.totalLocked + s.totalAvailable;
            && s.percentSold == PercentOf(s.totalSold, cap)
            && s.percentLocked == PercentOf(s.totalLocked, cap)
            && s.percentAvailable == PercentOf(s.totalAvailable, cap)
  {
    var totalSold, totalLocked, totalAvailable := 0, 0, 0;
    var vs := Values(statuses);
    for i := 0 to |vs|
      invariant Counts(totalSold, totalLocked, totalAvailable) == Totals(vs[..i])
    {
      assert vs[..i + 1][..i] == vs[..i];
      totalSold := totalSold + vs[i].sold;
      totalLocked := totalLocked + vs[i].locked;
      totalAvailable := totalAvailable + vs[i].available;
    }
    assert vs[..|vs|] == vs;
    var totalCapacity := totalSold + totalLocked + totalAvailable;
    s := CapacitySummary(
      totalSold, totalLocked, totalAvailable,
      PercentOf(totalSold, totalCapacity),
      PercentOf(totalLocked, totalCapacity),
      PercentOf(totalAvailable, totalCapacity));
  }

  /** For a positive capacity the three percentages add up to 1 up to the
      rounding of each; for any other capacity they are all 0. */
  lemma PercentagesSumToOne(c: Counts)
    ensures Capacity(c) > 0 ==>
              -0.015 <= PercentOf(c.sold, Capacity(c)) + PercentOf(c.locked, Capacity(c))
                        + PercentOf(c.available, Capacity(c)) - 1.0 <= 0.015
    ensures Capacity(c) <= 0 ==>
              PercentOf(c.sold, Capacity(c)) == PercentOf(c.locked, Capacity(c))
              == PercentOf(c.available, Capacity(c)) == 0.0
  {
    var cap := Capacity(c);
    if cap > 0 {
      assert cap as real == c.sold as real + c.locked as real + c.available as real;
      FractionsAddUp(c.sold as real, c.locked as real, c.available as real);
    }
  }

  /** Three parts of a positive whole, as fractions of it, add up to 1. */
  lemma FractionsAddUp(x: real, y: real, z: real)
    requires x + y + z > 0.0
    ensures x / (x + y + z) + y / (x + y + z) + z / (x + y + z) == 1.0
  {
  }
}
