/**
 The neighbor cache of a network interface: eight entries with 16-bit usage counters.
 An entry is live while its counter is positive; a new address evicts a least-used entry.
 */
module NeighborCache {
  import opened Addresses
  import opened Wrappers

  const ENTRY_COUNT: nat := 8
  const COUNTER_LIMIT: nat := 0x1_0000

  datatype Entry = Entry(ipv6Address: Ipv6Address, macAddress: MacAddress, usageCounter: nat) {
    predicate Answers(ip: Ipv6Address) {
      usageCounter > 0 && ipv6Address == ip
    }
  }

  const VACANT := Entry(0, 0, 0)

  // ---------------------------------------------------------------------------
  // What the operations do to the entries
  // ---------------------------------------------------------------------------

  // Counts a use of `ip`; the counter is 16 bits wide and wraps.
  function Touched(e: Entry, ip: Ipv6Address): Entry {
    if e.Answers(ip) then e.(usageCounter := (e.usageCounter + 1) % COUNTER_LIMIT) else e
  }

  function TouchAll(c: seq<Entry>, ip: Ipv6Address): (r: seq<Entry>)
    ensures |r| == |c| && forall i | 0 <= i < |c| :: r[i] == Touched(c[i], ip)
  {
    seq(|c|, i requires 0 <= i < |c| => Touched(c[i], ip))
  }

  // The last entry that answers for `ip`.
  function Lookup(c: seq<Entry>, ip: Ipv6Address): (r: Option<nat>)
    ensures r.Some? ==> r.value < |c| && c[r.value].Answers(ip)
    ensures r.None? ==> forall i | 0 <= i < |c| :: !c[i].Answers(ip)
  {
    if c == [] then None
    else if c[|c| - 1].Answers(ip) then Some(|c| - 1)
    else Lookup(c[..|c| - 1], ip)
  }

  // The first entry with the smallest counter.
  ghost predicate IsVictim(c: seq<Entry>, v: nat) {
    && v < |c|
    && (forall i | 0 <= i < v :: c[v].usageCounter < c[i].usageCounter)
    && (forall i | v <= i < |c| :: c[v].usageCounter <= c[i].usageCounter)
  }

  ghost predicate Adds(c: seq<Entry>, mac: MacAddress, ip: Ipv6Address, c': seq<Entry>) {
    match Lookup(c, ip)
    case Some(i) => c' == TouchAll(c, ip)[i := Touched(c[i], ip).(macAddress := mac)]
    case None => exists v: nat :: IsVictim(c, v) && c' == c[v := Entry(ip, mac, 1)]
  }

  class Cache {
    var neighborCache: array<Entry>

    ghost predicate Valid()
      reads this
    {
      neighborCache.Length == ENTRY_COUNT
    }

    ghost function Entries(): seq<Entry>
      reads this, neighborCache
    {
      neighborCache[..]
    }

    constructor ()
      ensures Valid() && fresh(neighborCache)
      ensures Entries() == seq(ENTRY_COUNT, _ => VACANT)
    {
      neighborCache := new Entry[ENTRY_COUNT](_ => VACANT);
    }

    method InvalidateNeighborCache()
      requires Valid()
      modifies neighborCache
      ensures Valid() && Entries() == seq(ENTRY_COUNT, _ => VACANT)
    {
      for i := 0 to ENTRY_COUNT
        invariant forall j | 0 <= j < i :: neighborCache[j] == VACANT
      {
        neighborCache[i] := VACANT;
      }
    }

    method FindNeighbor(ip: Ipv6Address) returns (entry: Option<nat>)
      requires Valid()
      modifies neighborCache
      ensures Valid() && Entries() == TouchAll(old(Entries()), ip)
      ensures entry == Lookup(old(Entries()), ip)
    {
      ghost var c := neighborCache[..];
      entry := None;
      for i := 0 to ENTRY_COUNT
        invariant forall j | 0 <= j < i :: neighborCache[j] == Touched(c[j], ip)
        invariant forall j | i <= j < ENTRY_COUNT :: neighborCache[j] == c[j]
        invariant entry == Lookup(c[..i], ip)
      {
        assert c[..i + 1][..i] == c[..i];
        var e := neighborCache[i];
        if e.usageCounter > 0 && e.ipv6Address == ip {
          neighborCache[i] := e.(usageCounter := (e.usageCounter + 1) % COUNTER_LIMIT);
          entry := Some(i);
        }
      }
      assert c[..ENTRY_COUNT] == c;
    }

    method AddNeighbor(mac: MacAddress, ip: Ipv6Address)
      requires Valid()
      modifies neighborCache
      ensures Valid() && Adds(old(Entries()), mac, ip, Entries())
    {
      ghost var c := neighborCache[..];
      var found := FindNeighbor(ip);
      if found.Some? {
        neighborCache[found.value] := neighborCache[found.value].(macAddress := mac);
        return;
      }
      assert neighborCache[..] == c;
      var entry := 0;
      for i := 1 to ENTRY_COUNT
        invariant IsVictim(c[..i], entry)
        invariant neighborCache[..] == c
      {
        if neighborCache[i].usageCounter < neighborCache[entry].usageCounter {
          entry := i;
        }
      }
      assert c[..ENTRY_COUNT] == c;
      neighborCache[entry] := Entry(ip, mac, 1);
    }
  }

  // ---------------------------------------------------------------------------
  // Runs, and the unbounded map they refine
  // ---------------------------------------------------------------------------

  datatype Event = Add(mac: MacAddress, ip: Ipv6Address) | Find(ip: Ipv6Address) | InvalidateAll

  ghost predicate Step(c: seq<Entry>, e: Event, c': seq<Entry>) {
    match e
    case Add(mac, ip) => Adds(c, mac, ip, c')
    case Find(ip) => c' == TouchAll(c, ip)
    case InvalidateAll => c' == seq(ENTRY_COUNT, _ => VACANT)
  }

  // `states` is a run over `events` from the initialized cache.
  ghost predicate IsRun(states: seq<seq<Entry>>, events: seq<Event>) {
    && |states| == |events| + 1
    && states[0] == seq(ENTRY_COUNT, _ => VACANT)
    && forall i | 0 <= i < |events| :: Step(states[i], events[i], states[i + 1])
  }

  // The map without bounds: the last link-layer address added since the last invalidation.
  function LastAdded(events: seq<Event>, ip: Ipv6Address): Option<MacAddress> {
    if events == [] then None
    else match events[|events| - 1]
      case Add(mac, a) => if a == ip then Some(mac) else LastAdded(events[..|events| - 1], ip)
      case Find(_) => LastAdded(events[..|events| - 1], ip)
      case InvalidateAll => None
  }

  ghost predicate Coherent(c: seq<Entry>, events: seq<Event>) {
    && |c| == 8
    && (forall i | 0 <= i < |c| :: c[i].usageCounter < 0x1_0000)
    && (forall i | 0 <= i < |c| && c[i].usageCounter > 0 ::
          LastAdded(events, c[i].ipv6Address) == Some(c[i].macAddress))
    && (forall i, j | 0 <= i < j < |c| && c[i].usageCounter > 0 && c[j].usageCounter > 0 ::
          c[i].ipv6Address != c[j].ipv6Address)
  }

  lemma StepCoherent(c: seq<Entry>, events: seq<Event>, e: Event, c': seq<Entry>)
    requires Coherent(c, events) && Step(c, e, c')
    ensures Coherent(c', events + [e])
  {
    assert (events + [e])[..|events|] == events;
    if e.Add? {
      var before := Lookup(c, e.ip);
      if before.None? {
        var v: nat :| IsVictim(c, v) && c' == c[v := Entry(e.ip, e.mac, 1)];
      }
    }
  }

  /** Over every run the live entries have distinct addresses and each holds the last
      link-layer address added for it. */
  lemma {:induction false} RunsAreCoherent(states: seq<seq<Entry>>, events: seq<Event>)
    requires IsRun(states, events)
    ensures Coherent(states[|events|], events)
  {
    if events != [] {
      var n := |events| - 1;
      assert IsRun(states[..|states| - 1], events[..n]);
      RunsAreCoherent(states[..|states| - 1], events[..n]);
      assert events == events[..n] + [events[n]];
      StepCoherent(states[n], events[..n], events[n], states[n + 1]);
    }
  }

  /** A lookup never answers anything but the last address added. */
  lemma {:induction false} LookupAgreesWithMap(states: seq<seq<Entry>>, events: seq<Event>, ip: Ipv6Address)
    requires IsRun(states, events)
    ensures var c := states[|events|];
            var r := Lookup(c, ip);
            r.Some? ==> r.value < |c| && LastAdded(events, ip) == Some(c[r.value].macAddress)
  {
    RunsAreCoherent(states, events);
  }

  /** Right after an address is added it is found again, with the address added, if and only
      if its counter did not just wrap. */
  lemma {:induction false} AddedIsFoundUnlessWrapped(c: seq<Entry>, events: seq<Event>,
                                  mac: MacAddress, ip: Ipv6Address, c': seq<Entry>)
    requires Coherent(c, events) && Adds(c, mac, ip, c')
    ensures var r := Lookup(c', ip);
            var before := Lookup(c, ip);
            && (r.Some? <==> !(before.Some? && c[before.value].usageCounter == COUNTER_LIMIT - 1))
            && (r.Some? ==> c'[r.value].macAddress == mac)
  {
    StepCoherent(c, events, Add(mac, ip), c');
    var r, before := Lookup(c', ip), Lookup(c, ip);
    if before.None? {
      var v: nat :| IsVictim(c, v) && c' == c[v := Entry(ip, mac, 1)];
      assert c'[v].Answers(ip);
    } else {
      assert c'[before.value].ipv6Address == ip;
    }
  }

  ghost predicate Evicts(c: seq<Entry>, v: nat, e: Entry, c': seq<Entry>) {
    && v < |c| == |c'|
    && c'[v] == e
    && (forall i | 0 <= i < |c| :: c[v].usageCounter <= c[i].usageCounter)
    && (forall i | 0 <= i < |c| && i != v :: c'[i] == c[i])
  }

  /** A new address takes the place of an entry of minimal count; all others stay. */
  lemma {:induction false} NewAddressEvictsLeastUsed(c: seq<Entry>, mac: MacAddress, ip: Ipv6Address, c': seq<Entry>)
    requires Adds(c, mac, ip, c') && Lookup(c, ip).None?
    ensures |c'| == |c|
    ensures exists v: nat :: Evicts(c, v, Entry(ip, mac, 1), c')
  {
    var v: nat :| IsVictim(c, v) && c' == c[v := Entry(ip, mac, 1)];
    assert Evicts(c, v, Entry(ip, mac, 1), c');
  }

  // ---------------------------------------------------------------------------
  // What the counters count
  // ---------------------------------------------------------------------------

  predicate Uses(e: Event, ip: Ipv6Address) {
    !e.InvalidateAll? && e.ip == ip
  }

  function UseCount(events: seq<Event>, ip: Ipv6Address): (n: nat)
    ensures n <= |events|
  {
    if events == [] then 0
    else UseCount(events[..|events| - 1], ip) + if Uses(events[|events| - 1], ip) then 1 else 0
  }

  // No entry answers for the address added, and entry `i` is filled with it.
  ghost predicate Fills(c: seq<Entry>, e: Event, c': seq<Entry>, i: nat) {
    && e.Add? && (forall j | 0 <= j < |c| :: !c[j].Answers(e.ip))
    && i < |c'| && c'[i] == Entry(e.ip, e.mac, 1)
  }

  // Entry `i` was filled by event `k`; nothing was invalidated since, and it counted the uses since.
  ghost predicate CountsUses(states: seq<seq<Entry>>, events: seq<Event>, i: nat, k: nat)
    requires IsRun(states, events) && i < |states[|events|]|
  {
    && k < |events| && Fills(states[k], events[k], states[k + 1], i)
    && (forall j | k < j < |events| :: !events[j].InvalidateAll?)
    && states[|events|][i].ipv6Address == events[k].ip
    && states[|events|][i].usageCounter == 1 + UseCount(events[k + 1..], events[k].ip)
  }

  // What one event does to an entry that is live after it: it was filled just now, or it was live and counted.
  lemma LiveAfterStep(c: seq<Entry>, e: Event, c': seq<Entry>, i: nat)
    requires Step(c, e, c') && i < |c'| && c'[i].usageCounter > 0
    requires forall j | 0 <= j < |c| :: c[j].usageCounter < COUNTER_LIMIT
    ensures !e.InvalidateAll?
    ensures || Fills(c, e, c', i)
            || (&& i < |c| && c[i].usageCounter > 0 && c'[i].ipv6Address == c[i].ipv6Address
                && c'[i].usageCounter == c[i].usageCounter + if Uses(e, c[i].ipv6Address) then 1 else 0)
  {
    if e.Add? && Lookup(c, e.ip).None? {
      var v: nat :| IsVictim(c, v) && c' == c[v := Entry(e.ip, e.mac, 1)];
      if v != i {
        assert !c[i].Answers(e.ip);
      }
    }
  }

  lemma CountGoesOn(states: seq<seq<Entry>>, events: seq<Event>, i: nat, k: nat)
    requires IsRun(states, events) && events != [] && i < |states[|events| - 1]| && i < |states[|events|]|
    requires IsRun(states[..|events|], events[..|events| - 1])
    requires CountsUses(states[..|events|], events[..|events| - 1], i, k)
    requires !events[|events| - 1].InvalidateAll?
    requires states[|events|][i].ipv6Address == states[|events| - 1][i].ipv6Address
    requires states[|events|][i].usageCounter == states[|events| - 1][i].usageCounter
             + if Uses(events[|events| - 1], states[|events| - 1][i].ipv6Address) then 1 else 0
    ensures CountsUses(states, events, i, k)
  {
    hide Step, Fills;
    var n := |events| - 1;
    assert states[..|events|][k] == states[k] && states[..|events|][k + 1] == states[k + 1];
    assert events[k + 1..][..n - k - 1] == events[..n][k + 1..];
  }

  /** Over every run the counter of a live entry is one more than the number of times its address was looked up
      or added again since the event that filled it. */
  lemma {:induction false} CounterIsUseCount(states: seq<seq<Entry>>, events: seq<Event>, i: nat)
    requires IsRun(states, events)
    requires i < |states[|events|]| && states[|events|][i].usageCounter > 0
    ensures exists k: nat :: CountsUses(states, events, i, k)
  {
    hide Step;
    var n := |events| - 1;
    var s, es := states[..|events|], events[..|events| - 1];
    assert IsRun(s, es);
    RunsAreCoherent(s, es);
    LiveAfterStep(states[n], events[n], states[n + 1], i);
    hide IsRun, Uses;
    if Fills(states[n], events[n], states[n + 1], i) {
      assert events[n + 1..] == [];
      assert CountsUses(states, events, i, n);
    } else {
      CounterIsUseCount(s, es, i);
      var k: nat :| CountsUses(s, es, i, k);
      hide CountsUses;
      CountGoesOn(states, events, i, k);
    }
  }
}
