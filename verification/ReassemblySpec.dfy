/**
Reassembly of IPv6 fragments as a list of accepted fragments per datagram: the reference that
the buffer-and-runs reassembler of `Reassembly` refines, and over which arrivals are reasoned
about.
*/
module ReassemblySpec {
  import opened Common
  import opened Ipv6Packet

  const MAX_PACKETS: nat := 64
  /** 30 seconds, in nanoseconds. */
  const LIFETIME: nat := 30_000_000_000

  /** A datagram being collected, with the arrival time of each part, or one given up until it expires. */
  datatype Queue =
    | Collecting(created: nat, parts: seq<Fragment>, times: seq<nat>)
    | Rejected(created: nat)

  type Table = map<Key, Queue>

  /** Saturating difference of two instants. */
  function Elapsed(now: nat, since: nat): nat { if now < since then 0 else now - since }

  function Expire(t: Table, now: nat): Table {
    map k | k in t && Elapsed(now, t[k].created) < LIFETIME :: t[k]
  }

  // ----- coverage

  predicate Covers(f: Fragment, p: int) { f.start <= p < f.End() }

  ghost predicate Covered(parts: seq<Fragment>, p: int) {
    exists i :: 0 <= i < |parts| && Covers(parts[i], p)
  }

  predicate Overlap(f: Fragment, g: Fragment) { f.start < g.End() && g.start < f.End() }

  /** Starts of the maximal stretches of received bytes. */
  ghost function RunStarts(parts: seq<Fragment>): set<int> {
    set i | 0 <= i < |parts| && !Covered(parts, parts[i].start - 1) :: parts[i].start
  }

  /** A known end of the datagram that `f` does not agree with. */
  predicate Contradicts(f: Fragment, total: nat) {
    f.End() > total || (!f.more && f.End() != total) || (f.more && f.End() >= total)
  }

  predicate SameShape(f: Fragment, g: Fragment) {
    |f.prefix| == |g.prefix| && f.previous == g.previous && f.next == g.next
  }

  /** Why a fragment makes the whole datagram be given up, apart from the limit on runs. */
  ghost predicate Invalid(parts: seq<Fragment>, f: Fragment) {
    || f.payload == []
    || (f.more && |f.payload| % 8 != 0)
    || f.End() > MAX_PACKET - |f.prefix|
    || (parts != [] && !SameShape(parts[0], f))
    || (exists i :: 0 <= i < |parts| && !parts[i].more && Contradicts(f, parts[i].End()))
    || (!f.more && exists i :: 0 <= i < |parts| && parts[i].End() > f.End())
    || (exists i :: 0 <= i < |parts| && Overlap(parts[i], f))
  }

  /** The end of the datagram, once its last fragment is here. */
  function Total(parts: seq<Fragment>): Option<nat> {
    if parts == [] then None
    else if !parts[|parts| - 1].more then Some(parts[|parts| - 1].End())
    else Total(parts[..|parts| - 1])
  }

  ghost predicate Complete(parts: seq<Fragment>) {
    Total(parts).Some? && forall p {:trigger Covered(parts, p)} :: 0 <= p < Total(parts).value ==> Covered(parts, p)
  }

  /** The bytes before the fragment header: those of the fragment at offset zero, once it is here. */
  function Prefix(parts: seq<Fragment>): Bytes
    requires parts != []
  {
    var last := parts[|parts| - 1];
    if last.start == 0 || |parts| == 1 then last.prefix else Prefix(parts[..|parts| - 1])
  }

  /** The received byte at position `p`, zero where nothing was received. */
  function ByteAt(parts: seq<Fragment>, p: nat): byte {
    if parts == [] then 0
    else
      var last := parts[|parts| - 1];
      if Covers(last, p) then last.payload[p - last.start] else ByteAt(parts[..|parts| - 1], p)
  }

  function Contents(parts: seq<Fragment>, total: nat): Bytes {
    seq(total, p requires 0 <= p < total => ByteAt(parts, p))
  }

  function Assembled(parts: seq<Fragment>, total: nat): Bytes
    requires parts != [] && |Prefix(parts)| >= HEADER && parts[0].previous < |Prefix(parts)|
  {
    Unfragmented(Prefix(parts), parts[0].previous, parts[0].next, Contents(parts, total))
  }

  // ----- what every queue keeps

  ghost predicate PartOk(first: Fragment, f: Fragment) {
    && f.WellFormed() && f.key == first.key && SameShape(first, f)
    && f.payload != [] && (f.more ==> |f.payload| % 8 == 0)
    && f.End() <= MAX_PACKET - |f.prefix|
  }

  ghost predicate PartsOk(parts: seq<Fragment>) {
    && parts != []
    && (forall i :: 0 <= i < |parts| ==> PartOk(parts[0], parts[i]))
    && (forall i, j :: 0 <= i < j < |parts| ==> !Overlap(parts[i], parts[j]))
    && (forall i, j :: 0 <= i < |parts| && 0 <= j < |parts| && i != j && !parts[i].more ==>
          parts[j].more && parts[j].End() < parts[i].End())
  }

  /** A fragment that is not invalid joins the queue and keeps it in order. */
  lemma ExtendOk(parts: seq<Fragment>, f: Fragment)
    requires parts == [] || PartsOk(parts)
    requires f.WellFormed() && (parts != [] ==> f.key == parts[0].key)
    requires !Invalid(parts, f)
    ensures PartsOk(parts + [f])
  {
    var more := parts + [f];
    forall i, j | 0 <= i < |more| && 0 <= j < |more| && i != j && !more[i].more
      ensures more[j].more && more[j].End() < more[i].End()
    {
      if i == |parts| {
        assert !Overlap(parts[j], f) && parts[j].End() <= f.End();
      } else if j == |parts| {
        assert !Contradicts(f, parts[i].End()) && !Overlap(parts[i], f);
      }
    }
  }

  /** The total is the end of the one fragment without the more-fragments flag. */
  lemma {:induction false} TotalIsFinal(parts: seq<Fragment>)
    ensures Total(parts).Some? ==>
      exists i :: 0 <= i < |parts| && !parts[i].more && Total(parts) == Some(parts[i].End())
    ensures Total(parts).None? ==> forall i :: 0 <= i < |parts| ==> parts[i].more
  {
    if parts != [] && parts[|parts| - 1].more {
      var init := parts[..|parts| - 1];
      TotalIsFinal(init);
      assert forall i :: 0 <= i < |init| ==> init[i] == parts[i];
      if Total(parts).Some? {
        var i :| 0 <= i < |init| && !init[i].more && Total(init) == Some(init[i].End());
        assert !parts[i].more;
      }
    } else if parts != [] {
      assert !parts[|parts| - 1].more;
    }
  }

  lemma {:induction false} ByteAtPart(parts: seq<Fragment>, i: nat, p: nat)
    requires i < |parts| && Covers(parts[i], p)
    requires forall j :: i < j < |parts| ==> !Covers(parts[j], p)
    ensures ByteAt(parts, p) == parts[i].payload[p - parts[i].start]
    decreases |parts|
  {
    if i < |parts| - 1 {
      assert parts[..|parts| - 1][i] == parts[i];
      ByteAtPart(parts[..|parts| - 1], i, p);
    }
  }

  lemma {:induction false} PrefixOfHead(parts: seq<Fragment>)
    requires parts != []
    ensures exists i :: 0 <= i < |parts| && Prefix(parts) == parts[i].prefix
                        && ((exists j :: 0 <= j < |parts| && parts[j].start == 0) ==> parts[i].start == 0)
    decreases |parts|
  {
    var n := |parts| - 1;
    if parts[n].start == 0 || n == 0 {
      assert Prefix(parts) == parts[n].prefix;
    } else {
      var init := parts[..n];
      PrefixOfHead(init);
      var i :| 0 <= i < |init| && Prefix(init) == init[i].prefix
               && ((exists j :: 0 <= j < |init| && init[j].start == 0) ==> init[i].start == 0);
      assert parts[i] == init[i];
      forall j | 0 <= j < |parts| && parts[j].start == 0 ensures parts[i].start == 0 {
        assert init[j].start == 0;
      }
    }
  }

  /** The header is that of the fragment at offset zero, now announcing the payload's protocol; its length is exact. */
  ghost predicate HeaderIn(parts: seq<Fragment>, packet: Bytes)
    requires PartsOk(parts)
  {
    assert PartOk(parts[0], parts[0]);
    assert forall i :: 0 <= i < |parts| ==> PartOk(parts[0], parts[i]);
    var h := |parts[0].prefix|;
    && h <= |packet| <= MAX_PACKET
    && Be16(packet, 4) == |packet| - HEADER
    && exists i :: 0 <= i < |parts| && parts[i].start == 0
                   && packet[..h] == PutBe16(parts[i].prefix[parts[0].previous := parts[0].next], 4, |packet| - HEADER)
  }

  /** Every fragment's payload is in its place after the header, and there is nothing else. */
  ghost predicate PayloadsIn(parts: seq<Fragment>, body: Bytes) {
    && (forall i :: 0 <= i < |parts| ==>
          parts[i].End() <= |body| && body[parts[i].start..parts[i].End()] == parts[i].payload)
    && (forall p {:trigger Covered(parts, p)} :: 0 <= p < |body| ==> Covered(parts, p))
  }

  /** What a delivered packet is made of. */
  ghost predicate Delivery(parts: seq<Fragment>, packet: Bytes) {
    && PartsOk(parts)
    && HeaderIn(parts, packet)
    && PayloadsIn(parts, packet[|parts[0].prefix|..])
  }

  lemma ContentsInPlace(parts: seq<Fragment>, total: nat, i: nat)
    requires PartsOk(parts) && i < |parts| && parts[i].End() <= total
    ensures Contents(parts, total)[parts[i].start..parts[i].End()] == parts[i].payload
  {
    var c, f := Contents(parts, total), parts[i];
    forall k | 0 <= k < |f.payload| ensures c[f.start + k] == f.payload[k] {
      forall j | i < j < |parts| ensures !Covers(parts[j], f.start + k) {
        assert !Overlap(parts[i], parts[j]);
      }
      ByteAtPart(parts, i, f.start + k);
    }
  }

  lemma UnfragmentedShape(prefix: Bytes, previous: nat, next: byte, payload: Bytes)
    requires |prefix| >= HEADER && previous < |prefix| && |prefix| + |payload| <= HEADER + MAX_PACKET
    ensures var packet := Unfragmented(prefix, previous, next, payload);
      && |packet| == |prefix| + |payload|
      && packet[|prefix|..] == payload
      && packet[..|prefix|] == PutBe16(prefix[previous := next], 4, |packet| - HEADER)
      && Be16(packet, 4) == |packet| - HEADER
  {
    var packet := Unfragmented(prefix, previous, next, payload);
    assert packet[|prefix|..] == payload;
    assert packet[..|prefix|] == PutBe16(prefix[previous := next], 4, |packet| - HEADER);
  }

  /** In a complete queue the bytes before the fragment header come from the fragment at offset zero. */
  lemma HeadOfComplete(parts: seq<Fragment>) returns (z: nat)
    requires PartsOk(parts) && Complete(parts)
    ensures z < |parts| && parts[z].start == 0 && Prefix(parts) == parts[z].prefix
    ensures |Prefix(parts)| == |parts[0].prefix|
    ensures forall i :: 0 <= i < |parts| ==> parts[i].End() <= Total(parts).value
    ensures |parts[0].prefix| + Total(parts).value <= MAX_PACKET
  {
    TotalIsFinal(parts);
    var f :| 0 <= f < |parts| && !parts[f].more && Total(parts) == Some(parts[f].End());
    assert PartOk(parts[0], parts[f]);
    assert Covered(parts, 0);
    var j :| 0 <= j < |parts| && Covers(parts[j], 0);
    assert parts[j].start == 0;
    PrefixOfHead(parts);
    z :| 0 <= z < |parts| && Prefix(parts) == parts[z].prefix
         && ((exists j :: 0 <= j < |parts| && parts[j].start == 0) ==> parts[z].start == 0);
    assert PartOk(parts[0], parts[z]);
  }

  /** A complete queue assembles to a delivery of exactly its fragments. */
  lemma AssembledIsDelivery(parts: seq<Fragment>)
    requires PartsOk(parts) && Complete(parts)
    ensures |Prefix(parts)| == |parts[0].prefix|
    ensures Delivery(parts, Assembled(parts, Total(parts).value))
  {
    var z := HeadOfComplete(parts);
    var total := Total(parts).value;
    assert PartOk(parts[0], parts[0]);
    UnfragmentedShape(Prefix(parts), parts[0].previous, parts[0].next, Contents(parts, total));
    assert PayloadsIn(parts, Contents(parts, total)) by {
      forall i | 0 <= i < |parts|
        ensures Contents(parts, total)[parts[i].start..parts[i].End()] == parts[i].payload
      {
        ContentsInPlace(parts, total, i);
      }
    }
    hide PayloadsIn, PartsOk, Unfragmented, PutBe16, Be16, Prefix, Contents, Total;
  }

  // ----- one arriving fragment

  ghost predicate QueueOk(key: Key, q: Queue) {
    q.Collecting? ==>
      && PartsOk(q.parts) && q.parts[0].key == key && !Complete(q.parts)
      && |q.times| == |q.parts| && q.times[0] == q.created
      && forall i :: 0 <= i < |q.times| ==> Elapsed(q.times[i], q.created) < LIFETIME
  }

  ghost predicate TableOk(t: Table) {
    |t| <= MAX_PACKETS && forall k :: k in t ==> QueueOk(k, t[k])
  }

  /** The queue a fragment joins after expiry: its own, or a new one. */
  ghost function QueueFor(t: Table, f: Fragment, now: nat): Queue {
    if f.key in t then t[f.key] else Collecting(now, [], [])
  }

  /** The queue after `f`, or its packet. */
  datatype Verdict = Keep(queue: Queue) | Deliver(packet: Bytes)

  /** The datagram is given up, or already was: a fragment contradicts the others, or makes too many runs. */
  ghost predicate GivesUp(q: Queue, f: Fragment, maxRuns: nat) {
    q.Collecting? ==> Invalid(q.parts, f) || |RunStarts(q.parts + [f])| > maxRuns
  }

  ghost function Offer(q: Queue, f: Fragment, now: nat, maxRuns: nat): (v: Verdict)
    requires f.WellFormed() && (q.Collecting? && q.parts != [] ==> PartsOk(q.parts) && f.key == q.parts[0].key)
  {
    if q.Rejected? then Keep(q)
    else if Invalid(q.parts, f) || |RunStarts(q.parts + [f])| > maxRuns then Keep(Rejected(q.created))
    else
      var parts := q.parts + [f];
      ExtendOk(q.parts, f);
      if Complete(parts) then
        AssembledIsDelivery(parts);
        Deliver(Assembled(parts, Total(parts).value))
      else Keep(Collecting(q.created, parts, q.times + [now]))
  }

  /** The table and the packet given back for one non-atomic fragment. */
  ghost function AcceptPart(t: Table, f: Fragment, now: nat, maxRuns: nat): (r: (Table, Option<Bytes>))
    requires f.WellFormed() && TableOk(t)
  {
    var live := Expire(t, now);
    if f.key !in live && |live| >= MAX_PACKETS then (live, None)
    else
      var v := Offer(QueueFor(live, f, now), f, now, maxRuns);
      if v.Keep? then (live[f.key := v.queue], None) else (live - {f.key}, Some(v.packet))
  }

  ghost function Accept(t: Table, packet: Bytes, now: nat, maxRuns: nat): (Table, Option<Bytes>)
    requires TableOk(t)
  {
    match Classify(packet)
    case Pass(b) => (t, Some(b))
    case Drop => (t, None)
    case Atomic(b) => (t, Some(b))
    case Part(f) => AcceptPart(t, f, now, maxRuns)
  }

  lemma ExpireOk(t: Table, now: nat)
    requires TableOk(t)
    ensures TableOk(Expire(t, now))
    ensures forall k :: k in Expire(t, now) ==> Elapsed(now, Expire(t, now)[k].created) < LIFETIME
  {
    SubsetSize(Expire(t, now).Keys, t.Keys);
  }

  lemma QueueForOk(t: Table, f: Fragment, now: nat)
    requires TableOk(t)
    ensures var q := QueueFor(t, f, now);
      && (q.Collecting? && q.parts != [] ==> PartsOk(q.parts) && f.key == q.parts[0].key)
      && (f.key in t ==> q == t[f.key] && QueueOk(f.key, q))
      && (f.key !in t ==> q == Collecting(now, [], []))
  {
    hide PartsOk, Complete;
  }

  /** Every arrival keeps the table in order, never more than 64 datagrams pending. */
  lemma AcceptPartOk(t: Table, f: Fragment, now: nat, maxRuns: nat)
    requires f.WellFormed() && TableOk(t)
    ensures TableOk(AcceptPart(t, f, now, maxRuns).0)
  {
    hide Offer, QueueOk, QueueFor, PartsOk, Expire;
    var live := Expire(t, now);
    ExpireOk(t, now);
    QueueForOk(live, f, now);
    if f.key in live || |live| < MAX_PACKETS {
      var q := QueueFor(live, f, now);
      var v := Offer(q, f, now, maxRuns);
      OfferOk(q, f, now, maxRuns);
      if v.Keep? {
        var after := live[f.key := v.queue];
        assert after.Keys == live.Keys + {f.key};
      } else {
        var after := live - {f.key};
        SubsetSize(after.Keys, live.Keys);
      }
    }
  }

  lemma OfferOk(q: Queue, f: Fragment, now: nat, maxRuns: nat)
    requires f.WellFormed()
    requires q == Collecting(now, [], []) || (QueueOk(f.key, q) && Elapsed(now, q.created) < LIFETIME)
    ensures var v := Offer(q, f, now, maxRuns); v.Keep? ==> QueueOk(f.key, v.queue) && v.queue.created == q.created
  {
    hide Invalid, RunStarts, Complete;
    if q.Collecting? && !Invalid(q.parts, f) { ExtendOk(q.parts, f); }
  }
}
