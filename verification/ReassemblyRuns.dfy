/** Arbitrary sequences of arriving packets: what may be delivered, what silences a datagram, and isolation. */
module ReassemblyRuns {
  import opened Common
  import opened Ipv6Packet
  import opened ReassemblySpec

  datatype Event = Event(packet: Bytes, now: nat)

  predicate IsPart(e: Event) { Classify(e.packet).Part? }

  function PartOf(e: Event): Fragment
    requires IsPart(e)
  {
    Classify(e.packet).fragment
  }

  ghost predicate About(e: Event, k: Key) { IsPart(e) && PartOf(e).key == k }

  /** The table after a sequence of arrivals. */
  ghost function TableFrom(t: Table, maxRuns: nat, events: seq<Event>): (r: Table)
    requires TableOk(t)
    ensures TableOk(r)
    decreases |events|
  {
    if events == [] then t
    else
      var before, e := TableFrom(t, maxRuns, events[..|events| - 1]), events[|events| - 1];
      AcceptOk(before, e, maxRuns);
      Accept(before, e.packet, e.now, maxRuns).0
  }

  lemma AcceptOk(t: Table, e: Event, maxRuns: nat)
    requires TableOk(t)
    ensures TableOk(Accept(t, e.packet, e.now, maxRuns).0)
  {
    if IsPart(e) { AcceptPartOk(t, PartOf(e), e.now, maxRuns); }
  }

  /** What the `n`th arrival gives back. */
  ghost function Output(t: Table, maxRuns: nat, events: seq<Event>, n: nat): Option<Bytes>
    requires TableOk(t) && n < |events|
  {
    Accept(TableFrom(t, maxRuns, events[..n]), events[n].packet, events[n].now, maxRuns).1
  }

  // ----- deliveries

  ghost predicate Arrived(events: seq<Event>, f: Fragment, at: nat) {
    exists j :: 0 <= j < |events| && Classify(events[j].packet) == Part(f) && events[j].now == at
  }

  ghost predicate AllArrived(events: seq<Event>, parts: seq<Fragment>, times: seq<nat>) {
    |parts| == |times| && forall i :: 0 <= i < |parts| ==> Arrived(events, parts[i], times[i])
  }

  ghost predicate FromEvents(events: seq<Event>, t: Table) {
    forall k :: k in t && t[k].Collecting? ==> AllArrived(events, t[k].parts, t[k].times)
  }

  lemma ArrivedLater(init: seq<Event>, e: Event, f: Fragment, at: nat)
    requires Arrived(init, f, at)
    ensures Arrived(init + [e], f, at)
  {
    var j :| 0 <= j < |init| && Classify(init[j].packet) == Part(f) && init[j].now == at;
    assert (init + [e])[j] == init[j];
  }

  lemma AllArrivedLater(init: seq<Event>, e: Event, parts: seq<Fragment>, times: seq<nat>)
    requires AllArrived(init, parts, times)
    ensures AllArrived(init + [e], parts, times)
    ensures IsPart(e) ==> AllArrived(init + [e], parts + [PartOf(e)], times + [e.now])
  {
    forall i | 0 <= i < |parts| ensures Arrived(init + [e], parts[i], times[i]) {
      ArrivedLater(init, e, parts[i], times[i]);
    }
    assert (init + [e])[|init|] == e;
  }

  /** Queues hold only what arrived. */
  lemma {:induction false} TableFromEvents(maxRuns: nat, events: seq<Event>)
    ensures FromEvents(events, TableFrom(map[], maxRuns, events))
    decreases |events|
  {
    if events == [] {
    } else {
      var init, e := events[..|events| - 1], events[|events| - 1];
      assert events == init + [e];
      TableFromEvents(maxRuns, init);
      var before := TableFrom(map[], maxRuns, init);
      hide Offer, Classify, TableOk;
      forall k | k in TableFrom(map[], maxRuns, events) && TableFrom(map[], maxRuns, events)[k].Collecting?
        ensures var q := TableFrom(map[], maxRuns, events)[k]; AllArrived(events, q.parts, q.times)
      {
        StepFromEvents(before, maxRuns, init, e, k);
      }
    }
  }

  lemma StepFromEvents(before: Table, maxRuns: nat, init: seq<Event>, e: Event, k: Key)
    requires TableOk(before) && FromEvents(init, before)
    requires var after := Accept(before, e.packet, e.now, maxRuns).0; k in after && after[k].Collecting?
    ensures var q := Accept(before, e.packet, e.now, maxRuns).0[k]; AllArrived(init + [e], q.parts, q.times)
  {
    hide Classify, Invalid, RunStarts, Complete, TableOk;
    if k in before && before[k].Collecting? {
      AllArrivedLater(init, e, before[k].parts, before[k].times);
    }
    assert AllArrived(init, [], []);
    AllArrivedLater(init, e, [], []);
  }

  /**
  Safety of delivery: a packet given back for a non-atomic fragment is made of fragments that
  all arrived, share source, destination and identification with the last one, arrived less
  than 30 seconds after the first of them, do not overlap and leave no gap.
  */
  lemma SafeDelivery(maxRuns: nat, events: seq<Event>, n: nat) returns (parts: seq<Fragment>, times: seq<nat>)
    requires n < |events| && IsPart(events[n]) && Output(map[], maxRuns, events, n).Some?
    ensures Delivery(parts, Output(map[], maxRuns, events, n).value)
    ensures AllArrived(events[..n + 1], parts, times)
    ensures forall i :: 0 <= i < |parts| ==> parts[i].key == PartOf(events[n]).key
    ensures forall i :: 0 <= i < |times| ==> Elapsed(times[i], times[0]) < LIFETIME
  {
    NonePending();
    hide Delivery, Offer, QueueOk, TableOk, AllArrived, TableFrom, Elapsed;
    var init, f, now := events[..n], PartOf(events[n]), events[n].now;
    var before := TableFrom(map[], maxRuns, init);
    TableFromEvents(maxRuns, init);
    var q := DeliveredFrom(before, f, now, maxRuns, init);
    parts, times := q.parts + [f], q.times + [now];
    assert events[..n + 1] == init + [events[n]];
    DeliveredQueue(q, f, now, maxRuns);
    AllArrivedLater(init, events[n], q.parts, q.times);
  }

  lemma NonePending()
    ensures TableOk(map[])
  {}

  /** A delivery comes from the fragment's own queue, which is in order and holds only what arrived. */
  lemma DeliveredFrom(before: Table, f: Fragment, now: nat, maxRuns: nat, init: seq<Event>) returns (q: Queue)
    requires f.WellFormed() && TableOk(before) && FromEvents(init, before)
    requires AcceptPart(before, f, now, maxRuns).1.Some?
    ensures q.Collecting? && AllArrived(init, q.parts, q.times)
    ensures q == Collecting(now, [], []) || (QueueOk(f.key, q) && Elapsed(now, q.created) < LIFETIME)
    ensures q.parts != [] ==> PartsOk(q.parts) && f.key == q.parts[0].key
    ensures Offer(q, f, now, maxRuns).Deliver?
    ensures AcceptPart(before, f, now, maxRuns).1 == Some(Offer(q, f, now, maxRuns).packet)
  {
    hide QueueOk, AllArrived, PartsOk, Invalid, RunStarts, Complete, Assembled;
    var live := Expire(before, now);
    ExpireOk(before, now);
    QueueForOk(live, f, now);
    q := QueueFor(live, f, now);
    NothingArrived(init);
  }

  lemma NothingArrived(init: seq<Event>)
    ensures AllArrived(init, [], [])
  {}

  lemma DeliveredQueue(q: Queue, f: Fragment, now: nat, maxRuns: nat)
    requires f.WellFormed()
    requires q == Collecting(now, [], []) || (QueueOk(f.key, q) && Elapsed(now, q.created) < LIFETIME)
    requires Offer(q, f, now, maxRuns).Deliver?
    ensures q.Collecting? && Delivery(q.parts + [f], Offer(q, f, now, maxRuns).packet)
    ensures |q.times| == |q.parts|
    ensures var times := q.times + [now];
      forall i :: 0 <= i < |times| ==> Elapsed(times[i], times[0]) < LIFETIME
    ensures forall i :: 0 <= i <= |q.parts| ==> (q.parts + [f])[i].key == f.key
  {
    var parts := q.parts + [f];
    ExtendOk(q.parts, f);
    AssembledIsDelivery(parts);
    hide Delivery;
    forall i | 0 <= i <= |q.parts| ensures parts[i].key == f.key {
      assert PartOk(parts[0], parts[i]) && PartOk(parts[0], parts[|q.parts|]);
    }
  }

  // ----- a datagram given up stays silent

  /** Every fragment among the events arrives within the lifetime of a datagram created at `created`. */
  ghost predicate Within(events: seq<Event>, created: nat) {
    forall i :: 0 <= i < |events| && IsPart(events[i]) ==> Elapsed(events[i].now, created) < LIFETIME
  }

  lemma RejectedStep(t: Table, maxRuns: nat, e: Event, k: Key, created: nat)
    requires TableOk(t) && k in t && t[k] == Rejected(created)
    requires IsPart(e) ==> Elapsed(e.now, created) < LIFETIME
    ensures var r := Accept(t, e.packet, e.now, maxRuns);
      && k in r.0 && r.0[k] == Rejected(created)
      && (IsPart(e) && PartOf(e).key == k ==> r.1 == None)
  {
    hide Classify, Invalid, RunStarts, Complete, TableOk;
  }

  lemma {:induction false} RejectedStays(t: Table, maxRuns: nat, events: seq<Event>, k: Key, created: nat)
    requires TableOk(t) && k in t && t[k] == Rejected(created) && Within(events, created)
    ensures var after := TableFrom(t, maxRuns, events); k in after && after[k] == Rejected(created)
    decreases |events|
  {
    if events == [] {
    } else {
      var init := events[..|events| - 1];
      RejectedStays(t, maxRuns, init, k, created);
      hide Accept, IsPart;
      RejectedStep(TableFrom(t, maxRuns, init), maxRuns, events[|events| - 1], k, created);
    }
  }

  lemma {:induction false} TableFromSplit(t: Table, maxRuns: nat, a: seq<Event>, b: seq<Event>)
    requires TableOk(t)
    ensures TableFrom(t, maxRuns, a + b) == TableFrom(TableFrom(t, maxRuns, a), maxRuns, b)
    decreases |b|
  {
    if b == [] {
      assert a + b == a;
    } else {
      var init := b[..|b| - 1];
      assert (a + b)[..|a + b| - 1] == a + init && (a + b)[|a + b| - 1] == b[|b| - 1];
      TableFromSplit(t, maxRuns, a, init);
      hide Accept, TableOk;
    }
  }

  lemma InvalidRejects(t: Table, maxRuns: nat, e: Event)
    requires TableOk(t) && IsPart(e)
    requires var live, f := Expire(t, e.now), PartOf(e);
      && (f.key in live || |live| < MAX_PACKETS)
      && GivesUp(QueueFor(live, f, e.now), f, maxRuns)
    ensures var after, k := Accept(t, e.packet, e.now, maxRuns).0, PartOf(e).key;
      k in after && after[k] == Rejected(QueueFor(Expire(t, e.now), PartOf(e), e.now).created)
  {
    hide Invalid, RunStarts, Classify, Complete, PartsOk, QueueOk, Assembled, Expire;
    ExpireOk(t, e.now);
    QueueForOk(Expire(t, e.now), PartOf(e), e.now);
  }

  lemma SilentWhileRejected(maxRuns: nat, events: seq<Event>, s: nat, m: nat, k: Key, created: nat)
    requires s <= m < |events| && About(events[m], k) && Within(events[s..m + 1], created)
    requires var t := TableFrom(map[], maxRuns, events[..s]); k in t && t[k] == Rejected(created)
    ensures Output(map[], maxRuns, events, m) == None
  {
    hide Accept, IsPart, PartOf;
    var rest, window := events[s..m], events[s..m + 1];
    assert forall i :: 0 <= i < |rest| ==> rest[i] == window[i];
    assert window[m - s] == events[m];
    RejectedStays(TableFrom(map[], maxRuns, events[..s]), maxRuns, rest, k, created);
    assert events[..m] == events[..s] + rest;
    TableFromSplit(map[], maxRuns, events[..s], rest);
    RejectedStep(TableFrom(map[], maxRuns, events[..m]), maxRuns, events[m], k, created);
  }

  /**
  Once a datagram gets an overlapping or inconsistent fragment, nothing is delivered for its
  key while fragments keep arriving within 30 seconds of its first one.
  */
  lemma InvalidSilences(maxRuns: nat, events: seq<Event>, n: nat, m: nat)
    requires n < m < |events| && IsPart(events[n]) && About(events[m], PartOf(events[n]).key)
    requires var t, f := Expire(TableFrom(map[], maxRuns, events[..n]), events[n].now), PartOf(events[n]);
      && (f.key in t || |t| < MAX_PACKETS)
      && GivesUp(QueueFor(t, f, events[n].now), f, maxRuns)
      && Within(events[n + 1..m + 1], QueueFor(t, f, events[n].now).created)
    ensures Output(map[], maxRuns, events, m) == None
  {
    assert TableOk(map[]);
    hide Accept, Expire, QueueFor, GivesUp, IsPart, PartOf, TableOk, Within, Output, About;
    var before := TableFrom(map[], maxRuns, events[..n]);
    InvalidRejects(before, maxRuns, events[n]);
    assert events[..n + 1][..n] == events[..n];
    SilentWhileRejected(maxRuns, events, n + 1, m, PartOf(events[n]).key,
                        QueueFor(Expire(before, events[n].now), PartOf(events[n]), events[n].now).created);
  }

  // ----- isolation of keys

  /** The queue of `k` as far as an arrival at `now` can tell. */
  ghost function View(t: Table, k: Key, now: nat): Option<Queue> {
    if k in t && Elapsed(now, t[k].created) < LIFETIME then Some(t[k]) else None
  }

  /** The fragments with key `k` only. */
  ghost function Only(events: seq<Event>, k: Key): seq<Event> {
    if events == [] then []
    else
      var e := events[|events| - 1];
      Only(events[..|events| - 1], k) + if About(e, k) then [e] else []
  }

  ghost predicate Monotone(events: seq<Event>) {
    forall i, j :: 0 <= i < j < |events| ==> events[i].now <= events[j].now
  }

  /** Whenever a fragment with key `k` opens a queue, the table has a free slot. */
  ghost predicate RoomFor(maxRuns: nat, events: seq<Event>, k: Key) {
    forall n :: 0 <= n < |events| && About(events[n], k) ==>
      var t := TableFrom(map[], maxRuns, events[..n]);
      View(t, k, events[n].now).None? ==> |Expire(t, events[n].now)| < MAX_PACKETS
  }

  /** Another key's fragment, or any other packet, changes nothing a later fragment with key `k` can see. */
  lemma OthersInvisible(t: Table, maxRuns: nat, e: Event, k: Key, later: nat)
    requires TableOk(t) && !About(e, k) && e.now <= later
    ensures View(Accept(t, e.packet, e.now, maxRuns).0, k, later) == View(t, k, later)
  {
    hide Classify, Offer, TableOk;
  }

  /** The outcome for a fragment depends only on its own queue, if there is room to open one. */
  lemma OwnQueueDecides(t: Table, u: Table, maxRuns: nat, e: Event, k: Key, later: nat)
    requires TableOk(t) && TableOk(u) && About(e, k) && e.now <= later
    requires View(t, k, e.now) == View(u, k, e.now)
    requires View(t, k, e.now).None? ==> |Expire(t, e.now)| < MAX_PACKETS && |Expire(u, e.now)| < MAX_PACKETS
    ensures Accept(t, e.packet, e.now, maxRuns).1 == Accept(u, e.packet, e.now, maxRuns).1
    ensures View(Accept(t, e.packet, e.now, maxRuns).0, k, later)
         == View(Accept(u, e.packet, e.now, maxRuns).0, k, later)
  {
    hide Classify, Offer, TableOk;
    assert QueueFor(Expire(t, e.now), PartOf(e), e.now) == QueueFor(Expire(u, e.now), PartOf(e), e.now);
  }

  lemma AcceptKeys(t: Table, maxRuns: nat, e: Event, k: Key)
    requires TableOk(t) && About(e, k) && t.Keys <= {k}
    ensures Accept(t, e.packet, e.now, maxRuns).0.Keys <= {k}
  {
    hide Classify, Offer, TableOk;
  }

  lemma {:induction false} OnlyOneKey(maxRuns: nat, events: seq<Event>, k: Key)
    ensures TableFrom(map[], maxRuns, Only(events, k)).Keys <= {k}
    decreases |events|
  {
    if events == [] {
    } else {
      var init, e := events[..|events| - 1], events[|events| - 1];
      OnlyOneKey(maxRuns, init, k);
      var small := Only(init, k);
      hide Accept, TableOk;
      if About(e, k) {
        assert Only(events, k) == small + [e];
        assert (small + [e])[..|small|] == small && (small + [e])[|small|] == e;
        AcceptKeys(TableFrom(map[], maxRuns, small), maxRuns, e, k);
      } else {
        assert Only(events, k) == small;
      }
    }
  }

  lemma OneKeyHasRoom(t: Table, k: Key, now: nat)
    requires t.Keys <= {k}
    ensures |Expire(t, now)| < MAX_PACKETS
  {
    var live := Expire(t, now);
    SubsetSize(live.Keys, {k});
    assert |live| == |live.Keys|;
  }

  lemma RoomForPrefix(maxRuns: nat, events: seq<Event>, k: Key, n: nat)
    requires RoomFor(maxRuns, events, k) && n <= |events|
    ensures RoomFor(maxRuns, events[..n], k)
  {
    hide Accept, View, Expire;
    var init := events[..n];
    forall i | 0 <= i < |init| && About(init[i], k)
      ensures var t := TableFrom(map[], maxRuns, init[..i]);
        View(t, k, init[i].now).None? ==> |Expire(t, init[i].now)| < MAX_PACKETS
    {
      assert init[i] == events[i] && init[..i] == events[..i];
    }
  }

  /**
  Isolation: with a clock that does not go back, the queue of a key is what it would be if
  only its own fragments had arrived, provided the table had room each time it was opened.
  */
  lemma {:induction false} Isolation(maxRuns: nat, events: seq<Event>, k: Key, later: nat)
    requires Monotone(events) && RoomFor(maxRuns, events, k)
    requires events != [] ==> events[|events| - 1].now <= later
    ensures View(TableFrom(map[], maxRuns, events), k, later)
         == View(TableFrom(map[], maxRuns, Only(events, k)), k, later)
    decreases |events|
  {
    if events == [] {
    } else {
      var n := |events| - 1;
      var init, e := events[..n], events[n];
      RoomForPrefix(maxRuns, events, k, n);
      hide Accept, View, Expire;
      var t, small := TableFrom(map[], maxRuns, init), Only(init, k);
      var u := TableFrom(map[], maxRuns, small);
      Isolation(maxRuns, init, k, e.now);
      Isolation(maxRuns, init, k, later);
      if About(e, k) {
        assert (small + [e])[..|small|] == small;
        OnlyOneKey(maxRuns, init, k);
        OneKeyHasRoom(u, k, e.now);
        OwnQueueDecides(t, u, maxRuns, e, k, later);
      } else {
        OthersInvisible(t, maxRuns, e, k, later);
        assert Only(events, k) == small;
      }
    }
  }

  /** Other keys' fragments never change what a fragment gives back. */
  lemma IsolatedOutcome(maxRuns: nat, events: seq<Event>, n: nat)
    requires Monotone(events) && n < |events| && IsPart(events[n]) && RoomFor(maxRuns, events, PartOf(events[n]).key)
    ensures var e, k := events[n], PartOf(events[n]).key;
      Output(map[], maxRuns, events, n) ==
      Accept(TableFrom(map[], maxRuns, Only(events[..n], k)), e.packet, e.now, maxRuns).1
  {
    var e, k, init := events[n], PartOf(events[n]).key, events[..n];
    RoomForPrefix(maxRuns, events, k, n);
    hide Accept, View, Expire;
    Isolation(maxRuns, init, k, e.now);
    OnlyOneKey(maxRuns, init, k);
    var t, u := TableFrom(map[], maxRuns, init), TableFrom(map[], maxRuns, Only(init, k));
    OneKeyHasRoom(u, k, e.now);
    OwnQueueDecides(t, u, maxRuns, e, k, e.now);
  }
}
