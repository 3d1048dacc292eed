/**
The reassembler: per datagram one byte buffer, the runs received so far and the header bytes.
Each arrival is proved to do to the fragment lists of `ReassemblySpec` what is said there.
*/
module Reassembly {
  import opened Common
  import opened Ipv6Packet
  import opened ReassemblySpec
  import A = Assembler

  datatype Assembly = Assembly(created: nat, prefix: Bytes, previous: nat, next: byte, bytes: Bytes,
                               received: A.Runs, total: Option<nat>, rejected: bool)

  function Zeros(n: nat): Bytes { seq(n, _ => 0) }

  /** A new assembly for the datagram of `f`, with nothing received. */
  function Opened(f: Fragment, now: nat): Assembly
    requires |f.prefix| <= MAX_PACKET
  {
    Assembly(now, f.prefix, f.previous, f.next, Zeros(MAX_PACKET - |f.prefix|), A.NO_RUNS, None, false)
  }

  predicate IsInvalid(a: Assembly, f: Fragment) {
    || f.payload == []
    || (f.more && |f.payload| % 8 != 0)
    || f.End() > |a.bytes|
    || |a.prefix| != |f.prefix|
    || a.previous != f.previous
    || a.next != f.next
    || (a.total.Some? && Contradicts(f, a.total.value))
    || (!f.more && exists s :: s in a.received.ends && a.received.ends[s] > f.End())
    || (exists s :: s in a.received.ends && f.start < a.received.ends[s] && f.End() > s)
  }

  function Splice(b: Bytes, at: nat, payload: Bytes): Bytes
    requires at + |payload| <= |b|
  {
    b[..at] + payload + b[at + |payload|..]
  }

  // ----- the refinement

  /** Positions received so far. */
  ghost function CoverSet(parts: seq<Fragment>): set<int> {
    if parts == [] then {}
    else CoverSet(parts[..|parts| - 1]) + A.Span(parts[|parts| - 1].start, parts[|parts| - 1].End())
  }

  lemma {:induction false} CoverSetIsCovered(parts: seq<Fragment>, p: int)
    ensures p in CoverSet(parts) <==> Covered(parts, p)
    decreases |parts|
  {
    if parts == [] {
    } else {
      var init, last := parts[..|parts| - 1], parts[|parts| - 1];
      CoverSetIsCovered(init, p);
      if Covered(init, p) {
        var i :| 0 <= i < |init| && Covers(init[i], p);
        assert Covers(parts[i], p);
      }
      if Covered(parts, p) && !Covers(last, p) {
        var i :| 0 <= i < |parts| && Covers(parts[i], p);
        assert Covers(init[i], p);
      }
    }
  }

  /** The buffer, header, end and runs of `a` describe the fragments `parts` of a datagram shaped like `f`. */
  ghost predicate Describes(a: Assembly, parts: seq<Fragment>, f: Fragment) {
    && a.prefix == (if parts == [] then f.prefix else Prefix(parts))
    && (var g := if parts == [] then f else parts[0];
        |a.prefix| == |g.prefix| && a.previous == g.previous && a.next == g.next)
    && |a.prefix| <= MAX_PACKET && |a.bytes| == MAX_PACKET - |a.prefix|
    && (forall p :: 0 <= p < |a.bytes| ==> a.bytes[p] == ByteAt(parts, p))
    && a.total == Total(parts)
    && A.Matches(a.received, CoverSet(parts))
  }

  ghost predicate Refines(a: Assembly, q: Queue) {
    && a.created == q.created
    && match q
       case Rejected(_) => a.rejected
       case Collecting(_, parts, _) => !a.rejected && parts != [] && Describes(a, parts, parts[0])
  }

  lemma TotalOfParts(parts: seq<Fragment>, f: Fragment)
    requires parts == [] || PartsOk(parts)
    ensures Total(parts).Some? && Contradicts(f, Total(parts).value) <==>
            exists i :: 0 <= i < |parts| && !parts[i].more && Contradicts(f, parts[i].End())
  {
    TotalIsFinal(parts);
    if i :| 0 <= i < |parts| && !parts[i].more && Contradicts(f, parts[i].End()) {
      var j :| 0 <= j < |parts| && !parts[j].more && Total(parts) == Some(parts[j].End());
      assert i == j;
    }
  }

  lemma PastEndOfParts(parts: seq<Fragment>, r: A.Runs, e: nat)
    requires (parts == [] || PartsOk(parts)) && A.Matches(r, CoverSet(parts))
    ensures (exists s :: s in r.ends && r.ends[s] > e) <==> exists i :: 0 <= i < |parts| && parts[i].End() > e
  {
    hide A.Matches, CoverSet;
    A.PastEnd(r, CoverSet(parts), e);
    if p :| p in CoverSet(parts) && p >= e {
      CoverSetIsCovered(parts, p);
      var i :| 0 <= i < |parts| && Covers(parts[i], p);
      assert parts[i].End() > e;
    }
    if i :| 0 <= i < |parts| && parts[i].End() > e {
      assert PartOk(parts[0], parts[i]);
      var p := parts[i].End() - 1;
      assert Covers(parts[i], p);
      CoverSetIsCovered(parts, p);
    }
  }

  lemma DisjointOfParts(parts: seq<Fragment>, f: Fragment)
    requires (parts == [] || PartsOk(parts)) && f.payload != []
    ensures A.Span(f.start, f.End()) !! CoverSet(parts) <==>
            forall i :: 0 <= i < |parts| ==> !Overlap(parts[i], f)
  {
    hide CoverSet, A.Span;
    if i :| 0 <= i < |parts| && Overlap(parts[i], f) {
      assert PartOk(parts[0], parts[i]);
      var p := Max(parts[i].start, f.start);
      assert Covers(parts[i], p) && p in A.Span(f.start, f.End());
      CoverSetIsCovered(parts, p);
    }
    if p :| p in A.Span(f.start, f.End()) && p in CoverSet(parts) {
      CoverSetIsCovered(parts, p);
      var i :| 0 <= i < |parts| && Covers(parts[i], p);
      assert Overlap(parts[i], f);
    }
  }

  /** The checks on the buffer and the runs are the checks on the fragment list. */
  lemma SameInvalid(a: Assembly, parts: seq<Fragment>, f: Fragment)
    requires (parts == [] || PartsOk(parts)) && Describes(a, parts, f)
    ensures IsInvalid(a, f) <==> Invalid(parts, f)
    ensures !IsInvalid(a, f) ==> f.End() <= |a.bytes|
  {
    var r := a.received;
    TotalOfParts(parts, f);
    PastEndOfParts(parts, r, f.End());
    if f.payload != [] {
      A.OverlapIsReceived(r, CoverSet(parts), f.start, f.End());
      DisjointOfParts(parts, f);
    }
    hide A.Matches, CoverSet, PartsOk, A.Span, Contradicts, Total;
  }

  /** The runs after merging a valid fragment start where the fragment list says. */
  lemma SameRuns(r: A.Runs, parts: seq<Fragment>, f: Fragment)
    requires (parts == [] || PartsOk(parts)) && PartsOk(parts + [f]) && A.Matches(r, CoverSet(parts))
    ensures var m := A.Merge(r, f.start, f.End());
      A.Matches(m, CoverSet(parts + [f])) && m.ends.Keys == RunStarts(parts + [f])
  {
    var all, m := parts + [f], A.Merge(r, f.start, f.End());
    LastIsDisjoint(parts, f);
    hide PartsOk;
    DisjointOfParts(parts, f);
    assert all[..|all| - 1] == parts && all[|parts|] == f;
    hide A.Matches, A.Merge, A.Span;
    A.MergeMatches(r, CoverSet(parts), f.start, f.End());
    A.StartsAreEdges(m, CoverSet(all));
    hide CoverSet, RunStarts;
    forall p ensures p in m.ends <==> p in RunStarts(all) {
      CoverSetIsCovered(all, p);
      CoverSetIsCovered(all, p - 1);
      EdgeIsStart(all, p);
    }
  }

  lemma LastIsDisjoint(parts: seq<Fragment>, f: Fragment)
    requires PartsOk(parts + [f])
    ensures f.payload != [] && forall i :: 0 <= i < |parts| ==> !Overlap(parts[i], f)
  {
    var all := parts + [f];
    assert PartOk(all[0], all[|parts|]);
    forall i | 0 <= i < |parts| ensures !Overlap(parts[i], f) {
      assert all[i] == parts[i] && all[|parts|] == f;
    }
  }

  lemma EdgeIsStart(parts: seq<Fragment>, p: int)
    requires PartsOk(parts)
    ensures Covered(parts, p) && !Covered(parts, p - 1) <==> p in RunStarts(parts)
  {
    if Covered(parts, p) && !Covered(parts, p - 1) {
      var i :| 0 <= i < |parts| && Covers(parts[i], p);
      assert !Covers(parts[i], p - 1);
      assert parts[i].start == p;
    }
    if p in RunStarts(parts) {
      var i :| 0 <= i < |parts| && !Covered(parts, parts[i].start - 1) && parts[i].start == p;
      assert PartOk(parts[0], parts[i]);
      assert Covers(parts[i], p);
    }
  }

  lemma CoveredBelowTotal(parts: seq<Fragment>)
    requires PartsOk(parts) && Total(parts).Some?
    ensures Total(parts).value > 0
    ensures forall p :: p in CoverSet(parts) ==> 0 <= p < Total(parts).value
  {
    TotalIsFinal(parts);
    var f :| 0 <= f < |parts| && !parts[f].more && Total(parts) == Some(parts[f].End());
    assert PartOk(parts[0], parts[f]);
    hide CoverSet, Total;
    forall p | p in CoverSet(parts) ensures 0 <= p < Total(parts).value {
      CoverSetIsCovered(parts, p);
      var i :| 0 <= i < |parts| && Covers(parts[i], p);
      assert i != f ==> parts[i].End() < parts[f].End();
    }
  }

  /** The front run reaches the known end exactly when the fragments leave no gap. */
  lemma SameComplete(r: A.Runs, parts: seq<Fragment>)
    requires PartsOk(parts) && A.Matches(r, CoverSet(parts)) && Total(parts).Some?
    ensures A.PeekFront(r) == Total(parts).value <==> Complete(parts)
  {
    hide A.Matches, CoverSet, A.Span, PartsOk, Total, A.PeekFront, Covered;
    var total := Total(parts).value;
    CoveredBelowTotal(parts);
    A.FrontIsWhole(r, CoverSet(parts), total);
    forall p ensures p in CoverSet(parts) <==> Covered(parts, p) {
      CoverSetIsCovered(parts, p);
    }
    if Complete(parts) {
      assert forall p :: p in A.Span(0, total) ==> Covered(parts, p);
    }
    if A.Span(0, total) <= CoverSet(parts) {
      forall p {:trigger Covered(parts, p)} | 0 <= p < total ensures Covered(parts, p) {
        assert p in A.Span(0, total);
      }
    }
  }

  /** The assembly after a valid fragment. */
  function Updated(a: Assembly, f: Fragment): Assembly
    requires f.End() <= |a.bytes|
  {
    a.(received := A.Merge(a.received, f.start, f.End()),
       prefix := if f.start == 0 then f.prefix else a.prefix,
       bytes := Splice(a.bytes, f.start, f.payload),
       total := if f.more then a.total else Some(f.End()))
  }

  lemma SplicedBytes(b: Bytes, parts: seq<Fragment>, f: Fragment)
    requires f.End() <= |b| && forall p :: 0 <= p < |b| ==> b[p] == ByteAt(parts, p)
    ensures var c := Splice(b, f.start, f.payload);
      |c| == |b| && forall p :: 0 <= p < |c| ==> c[p] == ByteAt(parts + [f], p)
  {
    var all, c := parts + [f], Splice(b, f.start, f.payload);
    assert all[..|all| - 1] == parts && all[|parts|] == f;
    forall p | 0 <= p < |c| ensures c[p] == ByteAt(all, p) {
      assert Covers(f, p) ==> c[p] == f.payload[p - f.start];
      assert !Covers(f, p) ==> c[p] == b[p];
    }
  }

  lemma HeaderOfLonger(parts: seq<Fragment>, f: Fragment)
    ensures Prefix(parts + [f]) == if f.start == 0 || parts == [] then f.prefix else Prefix(parts)
    ensures Total(parts + [f]) == if f.more then Total(parts) else Some(f.End())
    ensures (parts + [f])[0] == if parts == [] then f else parts[0]
  {
    var all := parts + [f];
    assert all[..|all| - 1] == parts && all[|parts|] == f;
  }

  lemma ShapeOfLast(parts: seq<Fragment>, f: Fragment)
    requires PartsOk(parts + [f])
    ensures SameShape((parts + [f])[0], f)
  {
    assert PartOk((parts + [f])[0], (parts + [f])[|parts|]);
  }

  lemma UpdatedDescribes(a: Assembly, parts: seq<Fragment>, f: Fragment)
    requires (parts == [] || PartsOk(parts)) && PartsOk(parts + [f]) && Describes(a, parts, f)
    requires f.End() <= |a.bytes|
    ensures Describes(Updated(a, f), parts + [f], (parts + [f])[0])
    ensures |Updated(a, f).received.ends| == |RunStarts(parts + [f])|
  {
    hide A.Matches, A.Merge, CoverSet, RunStarts, PartsOk, Splice, ByteAt, Prefix, Total;
    HeaderOfLonger(parts, f);
    ShapeOfLast(parts, f);
    SameRuns(a.received, parts, f);
    SplicedBytes(a.bytes, parts, f);
    var u := Updated(a, f);
    assert |u.received.ends| == |u.received.ends.Keys|;
  }

  /** The assembly and the queue a fragment finds: both new, or one describing the other. */
  ghost predicate Meets(value: Assembly, q: Queue, f: Fragment, now: nat) {
    || (q == Collecting(now, [], []) && |f.prefix| <= MAX_PACKET && value == Opened(f, now))
    || (QueueOk(f.key, q) && Refines(value, q))
  }

  lemma MeetsDescribes(value: Assembly, q: Queue, f: Fragment, now: nat)
    requires f.WellFormed() && Meets(value, q, f, now) && q.Collecting?
    ensures Describes(value, q.parts, f) && value.created == q.created && !value.rejected
    ensures q.parts == [] || (PartsOk(q.parts) && q.parts[0].key == f.key)
  {
    hide PartsOk, ByteAt;
    if q.parts == [] {
      assert A.Matches(A.NO_RUNS, {});
      assert forall p :: 0 <= p < |value.bytes| ==> ByteAt([], p) == 0 by { EmptyBytes(); }
    }
  }

  lemma EmptyBytes()
    ensures forall p: nat :: ByteAt([], p) == 0
  {}

  /** The two reasons to give a datagram up agree with the fragment list. */
  lemma SameGivenUp(value: Assembly, q: Queue, f: Fragment, now: nat, maxRuns: nat)
    requires f.WellFormed() && Meets(value, q, f, now)
    ensures value.rejected <==> q.Rejected?
    ensures q.Collecting? ==>
      (IsInvalid(value, f) || A.Add(value.received, f.start, f.End(), maxRuns).None? <==> GivesUp(q, f, maxRuns))
    ensures q.Collecting? && !IsInvalid(value, f) ==>
      && PartsOk(q.parts + [f]) && f.End() <= |value.bytes|
      && Describes(Updated(value, f), q.parts + [f], (q.parts + [f])[0])
  {
    hide Invalid, IsInvalid, Describes, PartsOk, RunStarts, A.Merge, QueueOk;
    if q.Collecting? {
      MeetsDescribes(value, q, f, now);
      SameInvalid(value, q.parts, f);
      if !Invalid(q.parts, f) {
        ExtendOk(q.parts, f);
        UpdatedDescribes(value, q.parts, f);
      }
    }
  }

  lemma DoneIsComplete(u: Assembly, parts: seq<Fragment>)
    requires PartsOk(parts) && Describes(u, parts, parts[0])
    ensures u.total.Some? && A.PeekFront(u.received) == u.total.value <==> Complete(parts)
  {
    hide A.Matches, CoverSet, ByteAt, Prefix, PartsOk, A.PeekFront;
    if Total(parts).Some? { SameComplete(u.received, parts); }
  }

  /** The packet built from the buffer is the one built from the fragment list. */
  lemma SamePacket(u: Assembly, parts: seq<Fragment>)
    requires PartsOk(parts) && Describes(u, parts, parts[0]) && Complete(parts)
    ensures |u.prefix| >= HEADER && u.previous < |u.prefix| && u.total.Some? && u.total.value <= |u.bytes|
    ensures |Prefix(parts)| == |parts[0].prefix|
    ensures Unfragmented(u.prefix, u.previous, u.next, u.bytes[..u.total.value])
            == Assembled(parts, Total(parts).value)
  {
    var z := HeadOfComplete(parts);
    assert PartOk(parts[0], parts[0]);
    hide A.Matches, CoverSet, Total, Prefix, ByteAt;
    assert u.bytes[..u.total.value] == Contents(parts, Total(parts).value);
  }

  /** The same datagrams are pending, each assembly standing for its queue. */
  ghost predicate Mirrors(pending: map<Key, Assembly>, model: Table) {
    pending.Keys == model.Keys && forall k :: k in model ==> Refines(pending[k], model[k])
  }

  lemma MirrorsExpire(pending: map<Key, Assembly>, model: Table, now: nat)
    requires Mirrors(pending, model)
    ensures var live := map k | k in pending && Elapsed(now, pending[k].created) < LIFETIME :: pending[k];
      Mirrors(live, Expire(model, now))
  {
    hide Describes;
  }

  lemma MirrorsPut(pending: map<Key, Assembly>, model: Table, k: Key, a: Assembly, q: Queue)
    requires Mirrors(pending, model) && Refines(a, q)
    ensures Mirrors(pending[k := a], model[k := q])
  {
    hide Refines;
  }

  lemma MirrorsDrop(pending: map<Key, Assembly>, model: Table, k: Key)
    requires Mirrors(pending, model)
    ensures Mirrors(pending - {k}, model - {k})
  {
    hide Refines;
  }

  /** What a fragment finds in both tables: the same number of datagrams, and its own or none. */
  lemma MirrorsFind(pending: map<Key, Assembly>, model: Table, f: Fragment, now: nat)
    requires Mirrors(pending, model) && TableOk(model)
    ensures |pending| == |model| && (f.key in pending <==> f.key in model)
    ensures f.key in model ==> Meets(pending[f.key], QueueFor(model, f, now), f, now)
    ensures f.key !in model && |f.prefix| <= MAX_PACKET ==> Meets(Opened(f, now), QueueFor(model, f, now), f, now)
  {
    hide Refines, QueueOk, Opened;
    SameSize(pending, model);
  }

  class Reassembler {
    var pending: map<Key, Assembly>
    /** How many separate runs one datagram may have: the assembler's table size. */
    const maxRuns: nat

    /** The fragment lists this table stands for. */
    ghost var model: Table

    ghost predicate Valid()
      reads this
    {
      TableOk(model) && Mirrors(pending, model)
    }

    constructor (maxRuns: nat)
      ensures Valid() && model == map[] && this.maxRuns == maxRuns
    {
      pending := map[];
      model := map[];
      this.maxRuns := maxRuns;
    }

    /** Drops datagrams whose first fragment is 30 seconds old. */
    method ExpireOld(now: nat)
      requires Valid()
      modifies this
      ensures Valid() && model == Expire(old(model), now)
    {
      hide TableOk, Mirrors, Expire;
      ExpireOk(model, now);
      MirrorsExpire(pending, model, now);
      pending := map k | k in pending && Elapsed(now, pending[k].created) < LIFETIME :: pending[k];
      model := Expire(model, now);
    }

    /** One arriving packet: passed on, dropped, unwrapped, or offered to its datagram. */
    method Accept(packet: Bytes, now: nat) returns (r: Option<Bytes>)
      requires Valid()
      modifies this
      ensures Valid()
      ensures (model, r) == ReassemblySpec.Accept(old(model), packet, now, maxRuns)
    {
      hide TableOk, Mirrors;
      if packet == [] {
        return None;
      }
      if packet[0] / 16 != 6 {
        return Some(packet);
      }
      if !Checked(packet) {
        return None;
      }
      var b := packet[..HEADER + PayloadLength(packet)];
      var place := WalkHeaders(b);
      var arrival := ReadAt(b, place);
      assert arrival == Classify(packet);
      match arrival
      case Pass(b) => r := Some(b);
      case Drop => r := None;
      case Atomic(b) => r := Some(b);
      case Part(f) => r := AcceptPart(f, now);
    }

    method AcceptPart(f: Fragment, now: nat) returns (r: Option<Bytes>)
      requires Valid() && f.WellFormed()
      modifies this
      ensures Valid()
      ensures (model, r) == ReassemblySpec.AcceptPart(old(model), f, now, maxRuns)
    {
      hide TableOk, Mirrors, Refines, Meets, Offer, QueueOk, PartsOk, Opened, Expire, QueueFor;
      ghost var goal := ReassemblySpec.AcceptPart(model, f, now, maxRuns);
      AcceptPartOk(model, f, now, maxRuns);
      ExpireOld(now);
      ghost var q := QueueFor(model, f, now);
      QueueForOk(model, f, now);
      MirrorsFind(pending, model, f, now);
      var value: Assembly;
      if f.key in pending {
        value := pending[f.key];
      } else {
        if |pending| >= MAX_PACKETS || |f.prefix| >= MAX_PACKET {
          return None;
        }
        value := Opened(f, now);
      }
      ghost var v := Offer(q, f, now, maxRuns);
      var after, packet := OfferTo(value, f, now, q);
      if packet.Some? {
        MirrorsDrop(pending, model, f.key);
        pending := pending - {f.key};
        model := model - {f.key};
        r := packet;
      } else {
        MirrorsPut(pending, model, f.key, after, v.queue);
        pending := pending[f.key := after];
        model := model[f.key := v.queue];
        r := None;
      }
    }

    /** Offers `f` to one datagram: its next assembly, or its packet. */
    method OfferTo(value: Assembly, f: Fragment, now: nat, ghost q: Queue)
      returns (after: Assembly, packet: Option<Bytes>)
      requires f.WellFormed()
      requires Meets(value, q, f, now)
      requires q.Collecting? && q.parts != [] ==> PartsOk(q.parts) && f.key == q.parts[0].key
      ensures var v := Offer(q, f, now, maxRuns);
        if v.Deliver? then packet == Some(v.packet) else packet == None && Refines(after, v.queue)
    {
      hide Describes, PartsOk, Invalid, IsInvalid, RunStarts, Complete, Assembled, Unfragmented, Splice;
      hide A.Merge, A.PeekFront, QueueOk;
      SameGivenUp(value, q, f, now, maxRuns);
      after, packet := value, None;
      if value.rejected {
        return;
      }
      var added := A.Add(value.received, f.start, f.End(), maxRuns);
      if IsInvalid(value, f) || added.None? {
        after := value.(rejected := true, bytes := []);
        return;
      }
      after := value.(received := added.value);
      if f.start == 0 {
        after := after.(prefix := f.prefix);
      }
      after := after.(bytes := Splice(value.bytes, f.start, f.payload));
      if !f.more {
        after := after.(total := Some(f.End()));
      }
      ghost var parts := q.parts + [f];
      assert after == Updated(value, f);
      DoneIsComplete(after, parts);
      if after.total.None? || A.PeekFront(after.received) != after.total.value {
        return;
      }
      SamePacket(after, parts);
      packet := Some(Unfragmented(after.prefix, after.previous, after.next, after.bytes[..after.total.value]));
    }
  }

  lemma SameSize(a: map<Key, Assembly>, b: Table)
    requires a.Keys == b.Keys
    ensures |a| == |b|
  {
    assert |a| == |a.Keys| && |b| == |b.Keys|;
  }
}
