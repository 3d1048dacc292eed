/** When fragments belong together: exactly when they are separate pieces of one datagram. */
module Datagram {
  import opened Common
  import opened Ipv6Packet
  import opened ReassemblySpec

  /** A stretch of the body, in units of eight bytes unless it is the end, which alone says so. */
  ghost predicate IsPiece(f: Fragment, body: Bytes) {
    && f.payload != [] && f.End() <= |body| && body[f.start..f.End()] == f.payload
    && (f.more <==> f.End() < |body|) && (f.more ==> |f.payload| % 8 == 0)
  }

  /** The headers in front of both are as long, and announce the same next header in the same place. */
  ghost predicate SameHeaders(f: Fragment, g: Fragment) {
    |f.prefix| == |g.prefix| && f.previous == g.previous && f.next == g.next
  }

  /** Pieces of one body with headers of one form that do not overlap and fit a packet. */
  ghost predicate ArePieces(parts: seq<Fragment>, body: Bytes) {
    && (forall i :: 0 <= i < |parts| ==> IsPiece(parts[i], body) && |parts[i].prefix| + parts[i].End() <= 65535)
    && (forall i, j :: 0 <= i < j < |parts| ==> SameHeaders(parts[i], parts[j]))
    && (forall i, j :: 0 <= i < j < |parts| ==>
          parts[i].End() <= parts[j].start || parts[j].End() <= parts[i].start)
  }

  /** The furthest end of the fragments. */
  function Furthest(parts: seq<Fragment>): (n: nat)
    ensures forall i :: 0 <= i < |parts| ==> parts[i].End() <= n
  {
    if parts == [] then 0 else Max(Furthest(parts[..|parts| - 1]), parts[|parts| - 1].End())
  }

  /** Fragments in order are pieces of the body they fill, which goes on if none of them is its end. */
  lemma OrderedArePieces(parts: seq<Fragment>) returns (body: Bytes)
    requires PartsOk(parts)
    ensures ArePieces(parts, body)
  {
    TotalIsFinal(parts);
    var n := if Total(parts).Some? then Total(parts).value else Furthest(parts) + 1;
    body := Contents(parts, n);
    forall i | 0 <= i < |parts|
      ensures IsPiece(parts[i], body) && |parts[i].prefix| + parts[i].End() <= 65535
    {
      assert PartOk(parts[0], parts[i]);
      ContentsInPlace(parts, n, i);
    }
    forall i, j | 0 <= i < j < |parts|
      ensures SameHeaders(parts[i], parts[j])
      ensures parts[i].End() <= parts[j].start || parts[j].End() <= parts[i].start
    {
      assert PartOk(parts[0], parts[i]) && PartOk(parts[0], parts[j]) && !Overlap(parts[i], parts[j]);
    }
  }

  lemma PieceIsValid(parts: seq<Fragment>, f: Fragment, body: Bytes)
    requires ArePieces(parts + [f], body)
    ensures !Invalid(parts, f)
  {
    var all := parts + [f];
    assert all[|parts|] == f;
    forall i | 0 <= i < |parts|
      ensures IsPiece(parts[i], body) && !Overlap(parts[i], f) && SameHeaders(parts[i], f)
    {
      assert all[i] == parts[i];
    }
    hide ArePieces;
  }

  /** A fragment joins the others, if they are not too scattered, exactly when all are pieces of one datagram. */
  lemma JoinsExactly(parts: seq<Fragment>, f: Fragment)
    requires parts == [] || PartsOk(parts)
    requires f.WellFormed() && (parts != [] ==> f.key == parts[0].key)
    ensures !Invalid(parts, f) <==> exists body :: ArePieces(parts + [f], body)
  {
    hide ArePieces, Invalid;
    if !Invalid(parts, f) {
      ExtendOk(parts, f);
      var body := OrderedArePieces(parts + [f]);
    }
    if body :| ArePieces(parts + [f], body) {
      PieceIsValid(parts, f, body);
    }
  }

  /** Every byte of the body has arrived. */
  ghost predicate Gapless(parts: seq<Fragment>, body: Bytes) {
    forall p {:trigger Covered(parts, p)} :: 0 <= p < |body| ==> Covered(parts, p)
  }

  /** Fragments in order are all there exactly when the body they are pieces of has no gap. */
  lemma CompleteExactly(parts: seq<Fragment>, body: Bytes)
    requires PartsOk(parts) && ArePieces(parts, body)
    ensures Complete(parts) ==> Total(parts) == Some(|body|) && Gapless(parts, body)
    ensures Gapless(parts, body) ==> Complete(parts)
  {
    TotalIsFinal(parts);
    if Gapless(parts, body) {
      assert IsPiece(parts[0], body);
      assert Covered(parts, |body| - 1);
      var i :| 0 <= i < |parts| && Covers(parts[i], |body| - 1);
      assert IsPiece(parts[i], body) && !parts[i].more;
    }
    if Total(parts).Some? {
      var i :| 0 <= i < |parts| && !parts[i].more && Total(parts) == Some(parts[i].End());
      assert IsPiece(parts[i], body);
    }
  }

  /** A body without a gap is the only one. */
  lemma OnlyBody(parts: seq<Fragment>, body: Bytes, p: nat)
    requires PartsOk(parts) && ArePieces(parts, body) && Gapless(parts, body) && p < |body|
    ensures ByteAt(parts, p) == body[p]
  {
    hide ByteAt;
    assert Covered(parts, p);
    var i :| 0 <= i < |parts| && Covers(parts[i], p);
    CoveredOnce(parts, i, p);
    ByteAtPart(parts, i, p);
    PieceByte(parts[i], body, p);
  }

  lemma CoveredOnce(parts: seq<Fragment>, i: nat, p: nat)
    requires PartsOk(parts) && i < |parts| && Covers(parts[i], p)
    ensures forall j :: i < j < |parts| ==> !Covers(parts[j], p)
  {
    forall j | i < j < |parts| ensures !Covers(parts[j], p) {
      assert !Overlap(parts[i], parts[j]);
    }
  }

  lemma PieceByte(f: Fragment, body: Bytes, p: nat)
    requires IsPiece(f, body) && Covers(f, p)
    ensures f.payload[p - f.start] == body[p]
  {
    assert body[f.start..f.End()][p - f.start] == body[p];
  }

  /** The body follows the headers. */
  ghost predicate Carries(packet: Bytes, f: Fragment, body: Bytes) {
    |f.prefix| <= |packet| && packet[|f.prefix|..] == body
  }

  lemma AssembledIsBody(parts: seq<Fragment>, body: Bytes, f: Fragment)
    requires PartsOk(parts) && Complete(parts) && ArePieces(parts, body) && Gapless(parts, body) && f in parts
    ensures |Prefix(parts)| == |parts[0].prefix| && PartOk(parts[0], parts[0])
    ensures Carries(Assembled(parts, Total(parts).value), f, body)
  {
    hide ArePieces, Unfragmented, Prefix, Complete, Total;
    CompleteExactly(parts, body);
    AssembledIsDelivery(parts);
    assert Contents(parts, |body|) == body by {
      forall p | 0 <= p < |body| ensures Contents(parts, |body|)[p] == body[p] { OnlyBody(parts, body, p); }
    }
    var z := HeadOfComplete(parts);
    assert PartOk(parts[0], parts[0]) && PartOk(parts[0], f);
    UnfragmentedShape(Prefix(parts), parts[0].previous, parts[0].next, body);
  }

  /**
  What offering a fragment to a datagram under way comes to. The datagram is given up exactly when
  its fragments are not pieces of one body or lie too scattered, and delivered exactly when they
  fill that body, with that body; else the fragment is added.
  */
  lemma OfferExactly(q: Queue, f: Fragment, now: nat, maxRuns: nat)
    requires q.Collecting? && f.WellFormed() && (q.parts != [] ==> PartsOk(q.parts) && f.key == q.parts[0].key)
    ensures var all, v := q.parts + [f], Offer(q, f, now, maxRuns);
      var scattered := |RunStarts(all)| > maxRuns;
      && (v == Keep(Rejected(q.created)) <==> scattered || !exists body :: ArePieces(all, body))
      && (v.Deliver? <==> !scattered && exists body :: ArePieces(all, body) && Gapless(all, body))
      && (v.Keep? && v.queue.Collecting? ==> v.queue == Collecting(q.created, all, q.times + [now]))
      && (v.Keep? && v.queue.Rejected? ==> v.queue.created == q.created)
      && (v.Deliver? ==> forall body :: ArePieces(all, body) && Gapless(all, body) ==> Carries(v.packet, f, body))
  {
    hide ArePieces, Gapless, Invalid, RunStarts, PartsOk, Complete, Assembled, Delivery;
    var all := q.parts + [f];
    JoinsExactly(q.parts, f);
    if !Invalid(q.parts, f) {
      ExtendOk(q.parts, f);
      var whole := OrderedArePieces(all);
      CompleteExactly(all, whole);
      forall body | ArePieces(all, body) && Gapless(all, body)
        ensures Complete(all)
        ensures Offer(q, f, now, maxRuns).Deliver? ==> Carries(Offer(q, f, now, maxRuns).packet, f, body)
      {
        CompleteExactly(all, body);
        AssembledIsBody(all, body, f);
      }
    }
  }

  /** Pending and younger than 30 seconds; a clock that went back makes nothing older. */
  predicate Alive(t: Table, k: Key, now: nat) { k in t && now < t[k].created + 30_000_000_000 }

  /**
  What one fragment does to the table: overaged datagrams go, no other datagram changes, a new one
  is not begun when 64 are pending, and its own is gone exactly when it is delivered or was not begun.
  */
  lemma AcceptExactly(t: Table, f: Fragment, now: nat, maxRuns: nat)
    requires f.WellFormed() && TableOk(t)
    ensures var r := AcceptPart(t, f, now, maxRuns);
      var full := !Alive(t, f.key, now) && 64 <= |set k | k in t && Alive(t, k, now)|;
      && (forall k :: k != f.key ==> (k in r.0 <==> Alive(t, k, now)) && (k in r.0 ==> r.0[k] == t[k]))
      && (f.key in r.0 <==> !full && r.1.None?)
      && (full ==> r.1.None?)
  {
    hide Offer, TableOk;
    ExpireOk(t, now);
    var live := Expire(t, now);
    QueueForOk(live, f, now);
    assert live.Keys == set k | k in t && Alive(t, k, now);
    assert |live| == |live.Keys|;
  }
}
