/** Delivering the frames of one packet to the reassembler, in any order. */
module FragmentDelivery {
  import opened Common
  import opened Ipv6Packet
  import opened ReassemblySpec
  import opened ReassemblyRuns
  import opened Fragmenter
  import opened FragmentRoundTrip

  lemma {:induction false} PiecesOk(b: Bytes, mtu: nat, ident: nat, s: seq<nat>)
    requires Selection(b, mtu, ident, s) && s != []
    ensures PartsOk(Pieces(b, mtu, ident, s))
    ensures Pieces(b, mtu, ident, s)[0].key == Key(b[8..24], b[24..40], ident)
    decreases |s|
  {
    var init, j := s[..|s| - 1], s[|s| - 1];
    assert s == init + [j];
    NextIsValid(b, mtu, ident, init, j);
    PieceFits(b, mtu, ident, j);
    if init == [] {
    } else {
      PiecesOk(b, mtu, ident, init);
    }
    hide PartsOk, Invalid;
    ExtendOk(Pieces(b, mtu, ident, init), Piece(b, mtu, ident, j));
  }

  ghost predicate Whole(b: Bytes, mtu: nat, ident: nat, s: seq<nat>) {
    Selection(b, mtu, ident, s) && |s| == Number(b, mtu)
  }

  lemma BlockOf(p: nat, n: nat, step: nat) returns (j: nat)
    requires step > 0 && p < n
    ensures j < Count(n, step) && j * step <= p < (j + 1) * step
  {
    j := p / step;
    assert p == j * step + p % step;
    assert (j + 1) * step == j * step + step;
    CountBounds(n, step);
    if j >= Count(n, step) { MulBelow(Count(n, step), j, step); }
  }

  /** Some piece holds every position of the payload. */
  lemma PieceAt(b: Bytes, mtu: nat, ident: nat, p: nat) returns (j: nat)
    requires Oversized(b, mtu, ident) && p < PayloadLength(b)
    ensures j < Number(b, mtu) && Checked(b) && j * Step(mtu) <= PayloadLength(b) && Covers(Piece(b, mtu, ident, j), p)
  {
    hide Step, Count, PutBe16, Be16;
    StepBounds(mtu);
    j := BlockOf(p, PayloadLength(b), Step(mtu));
    PieceBounds(b, mtu, ident, j);
  }

  lemma WholeIsComplete(b: Bytes, mtu: nat, ident: nat, s: seq<nat>)
    requires Whole(b, mtu, ident, s)
    ensures Total(Pieces(b, mtu, ident, s)) == Some(PayloadLength(b)) && Complete(Pieces(b, mtu, ident, s))
  {
    var parts, n := Pieces(b, mtu, ident, s), PayloadLength(b);
    WholeTotal(b, mtu, ident, s);
    hide Total, Covered, Pieces, Number;
    forall p {:trigger Covered(parts, p)} | 0 <= p < n ensures Covered(parts, p) {
      var j := PieceAt(b, mtu, ident, p);
      NoneMissing(s, Number(b, mtu), j);
      CoveredByOwn(b, mtu, ident, s, j, p);
    }
  }

  lemma WholeTotal(b: Bytes, mtu: nat, ident: nat, s: seq<nat>)
    requires Whole(b, mtu, ident, s)
    ensures Total(Pieces(b, mtu, ident, s)) == Some(PayloadLength(b))
  {
    var parts, c := Pieces(b, mtu, ident, s), Number(b, mtu);
    StepBounds(mtu);
    CountBounds(PayloadLength(b), Step(mtu));
    NoneMissing(s, c, c - 1);
    var last :| 0 <= last < |s| && s[last] == c - 1;
    PieceBounds(b, mtu, ident, c - 1);
    assert !parts[last].more;
    TotalIsFinal(parts);
    hide Total, Number;
    var i :| 0 <= i < |parts| && !parts[i].more && Total(parts) == Some(parts[i].End());
    PieceBounds(b, mtu, ident, s[i]);
  }

  /** Putting the header back: the fragment protocol and length undone. */
  lemma HeaderRestored(b: Bytes, length: nat)
    requires |b| >= HEADER
    ensures PutBe16(PutBe16(b[..HEADER][6 := FRAGMENT], 4, length)[6 := b[6]], 4, PayloadLength(b)) == b[..HEADER]
  {
    var h := PutBe16(PutBe16(b[..HEADER][6 := FRAGMENT], 4, length)[6 := b[6]], 4, PayloadLength(b));
    forall i | 0 <= i < HEADER ensures h[i] == b[i] {}
  }

  lemma PieceByte(b: Bytes, mtu: nat, ident: nat, j: nat, p: nat)
    requires Oversized(b, mtu, ident) && j < Number(b, mtu)
    ensures Checked(b) && j * Step(mtu) <= PayloadLength(b)
    ensures var f := Piece(b, mtu, ident, j);
      Covers(f, p) ==> p < PayloadLength(b) && f.payload[p - f.start] == Payload(b)[p]
  {
    PieceBounds(b, mtu, ident, j);
  }

  /** A byte of the body is the byte of the piece that covers it. */
  lemma BodyByte(parts: seq<Fragment>, body: Bytes, p: nat) returns (i: nat)
    requires PayloadsIn(parts, body) && p < |body|
    ensures i < |parts| && Covers(parts[i], p) && body[p] == parts[i].payload[p - parts[i].start]
  {
    assert Covered(parts, p);
    i :| 0 <= i < |parts| && Covers(parts[i], p);
    var f := parts[i];
    assert body[f.start..f.End()][p - f.start] == body[p];
  }

  lemma BodyRestored(b: Bytes, mtu: nat, ident: nat, s: seq<nat>, body: Bytes)
    requires Whole(b, mtu, ident, s) && Checked(b) && PayloadsIn(Pieces(b, mtu, ident, s), body)
    requires |body| == PayloadLength(b)
    ensures body == Payload(b)
  {
    hide Number, Oversized, Step, PayloadsIn, Piece, PayloadLength;
    var parts := Pieces(b, mtu, ident, s);
    forall p | 0 <= p < |body| ensures body[p] == Payload(b)[p] {
      var i := BodyByte(parts, body, p);
      PieceByte(b, mtu, ident, s[i], p);
    }
  }

  lemma WholeNonEmpty(b: Bytes, mtu: nat, ident: nat, s: seq<nat>)
    requires Whole(b, mtu, ident, s)
    ensures s != [] && Checked(b)
  {
    StepBounds(mtu);
    CountBounds(PayloadLength(b), Step(mtu));
  }

  /** The header of the assembled packet, from the piece at offset zero. */
  lemma WholeHeader(b: Bytes, mtu: nat, ident: nat, s: seq<nat>)
    requires Whole(b, mtu, ident, s) && s != []
    ensures var parts := Pieces(b, mtu, ident, s);
      && PartsOk(parts) && |Prefix(parts)| == |parts[0].prefix| == HEADER
      && parts[0].previous == 6 && parts[0].next == b[6]
      && PutBe16(Prefix(parts)[6 := b[6]], 4, PayloadLength(b)) == b[..HEADER]
  {
    var parts := Pieces(b, mtu, ident, s);
    PiecesOk(b, mtu, ident, s);
    WholeIsComplete(b, mtu, ident, s);
    hide PutBe16, Prefix, Complete, PartsOk, Chunk, Step, Number, Total;
    var z := HeadOfComplete(parts);
    PieceHeader(b, mtu, ident, s[0]);
    PieceHeader(b, mtu, ident, s[z]);
    HeaderRestored(b, 8 + |parts[z].payload|);
  }

  /** All pieces together assemble to the packet they were cut from. */
  lemma WholeIsPacket(b: Bytes, mtu: nat, ident: nat, s: seq<nat>)
    requires Whole(b, mtu, ident, s)
    ensures var parts := Pieces(b, mtu, ident, s);
      && PartsOk(parts) && |Prefix(parts)| == |parts[0].prefix|
      && Assembled(parts, PayloadLength(b)) == b
  {
    WholeNonEmpty(b, mtu, ident, s);
    var parts, n := Pieces(b, mtu, ident, s), PayloadLength(b);
    assert b == b[..HEADER] + Payload(b);
    hide Unfragmented, PutBe16, Contents, Prefix, Complete, PartsOk, Payload, Pieces, Number, Total, Selection;
    WholeHeader(b, mtu, ident, s);
    WholeIsComplete(b, mtu, ident, s);
    AssembledIsDelivery(parts);
    ContentsLength(parts, n);
    UnfragmentedShape(Prefix(parts), 6, b[6], Contents(parts, n));
    var packet := Assembled(parts, n);
    BodyRestored(b, mtu, ident, s, packet[HEADER..]);
    assert packet == packet[..HEADER] + packet[HEADER..];
  }

  lemma ContentsLength(parts: seq<Fragment>, n: nat)
    ensures |Contents(parts, n)| == n
  {}

  lemma PieceHeader(b: Bytes, mtu: nat, ident: nat, j: nat)
    requires Oversized(b, mtu, ident) && j < Number(b, mtu)
    ensures Checked(b) && j * Step(mtu) <= PayloadLength(b)
    ensures var f := Piece(b, mtu, ident, j);
      f.prefix == PutBe16(b[..HEADER][6 := FRAGMENT], 4, 8 + |f.payload|) && |f.prefix| == HEADER
      && f.previous == 6 && f.next == b[6]
  {
    PieceBounds(b, mtu, ident, j);
  }

  // ----- offering the frames

  function KeyOf(b: Bytes, ident: nat): Key
    requires |b| >= HEADER
  {
    Key(b[8..24], b[24..40], ident)
  }

  /** Frame `order[i]` of the packet arrives at `times[i]`. */
  ghost predicate Carries(b: Bytes, mtu: nat, ident: nat, order: seq<nat>, times: seq<nat>, events: seq<Event>) {
    && Whole(b, mtu, ident, order) && |times| == |order| == |events|
    && Checked(b) && Step(mtu) > 0
    && var frames := Frames(b, Step(mtu), ident, 0);
    && forall i :: 0 <= i < |events| ==>
         order[i] < |frames| && events[i] == Event(frames[order[i]], times[i])
  }

  /** The queue is free for this datagram, and every frame comes within its lifetime. */
  ghost predicate Undisturbed(t: Table, b: Bytes, ident: nat, times: seq<nat>) {
    && |b| >= HEADER && times != []
    && KeyOf(b, ident) !in Expire(t, times[0]) && |Expire(t, times[0])| < MAX_PACKETS
    && forall i :: 0 <= i < |times| ==> Elapsed(times[i], times[0]) < LIFETIME
  }

  lemma EventIsPiece(b: Bytes, mtu: nat, ident: nat, order: seq<nat>, times: seq<nat>, events: seq<Event>, i: nat)
    requires Carries(b, mtu, ident, order, times, events) && i < |events|
    ensures order[i] < Number(b, mtu) && Checked(b) && order[i] * Step(mtu) <= PayloadLength(b)
    ensures Classify(events[i].packet) == Part(Piece(b, mtu, ident, order[i])) && events[i].now == times[i]
    ensures |events[i].packet| <= mtu
  {
    StepBounds(mtu);
    FrameList(b, Step(mtu), ident, 0, order[i]);
    assert 0 * Step(mtu) == 0;
    FrameIsPiece(b, mtu, ident, order[i]);
    hide Classify, Piece, Frame, Step;
  }

  /** The queue of the datagram after its first `n` frames. */
  ghost function Expected(b: Bytes, mtu: nat, ident: nat, order: seq<nat>, times: seq<nat>, n: nat): Queue
    requires Whole(b, mtu, ident, order) && |times| == |order| && n <= |order| && times != []
  {
    PrefixSelection(b, mtu, ident, order, n);
    Collecting(times[0], Pieces(b, mtu, ident, order[..n]), times[..n])
  }

  lemma PrefixSelection(b: Bytes, mtu: nat, ident: nat, order: seq<nat>, n: nat)
    requires Selection(b, mtu, ident, order) && n <= |order|
    ensures Selection(b, mtu, ident, order[..n])
  {}

  /** What one more frame does to the expected queue. */
  lemma OfferNext(b: Bytes, mtu: nat, ident: nat, order: seq<nat>, times: seq<nat>, maxRuns: nat, n: nat)
    requires Whole(b, mtu, ident, order) && |times| == |order| && n < |order| && times != []
    ensures order[n] < Number(b, mtu) && Checked(b) && order[n] * Step(mtu) <= PayloadLength(b)
    ensures var q, f := Expected(b, mtu, ident, order, times, n), Piece(b, mtu, ident, order[n]);
      && f.WellFormed() && f.key == KeyOf(b, ident)
      && (q.parts != [] ==> PartsOk(q.parts) && f.key == q.parts[0].key)
      && Offer(q, f, times[n], maxRuns) ==
         if |Heads(order[..n + 1])| > maxRuns then Keep(Rejected(times[0]))
         else if n + 1 < |order| then Keep(Expected(b, mtu, ident, order, times, n + 1))
         else Deliver(b)
  {
    var s, j := order[..n], order[n];
    var longer := order[..n + 1];
    assert longer == s + [j] && times[..n + 1] == times[..n] + [times[n]];
    PrefixSelection(b, mtu, ident, order, n);
    PrefixSelection(b, mtu, ident, order, n + 1);
    NextIsValid(b, mtu, ident, s, j);
    PieceFits(b, mtu, ident, j);
    RunsAreHeads(b, mtu, ident, longer);
    if n > 0 { PiecesOk(b, mtu, ident, s); }
    var parts := Pieces(b, mtu, ident, longer);
    if n + 1 == |order| {
      assert longer == order;
      WholeIsComplete(b, mtu, ident, order);
      WholeIsPacket(b, mtu, ident, order);
    } else {
      var missing := order[n + 1];
      assert missing !in longer;
      MissingIsIncomplete(b, mtu, ident, longer, missing);
    }
    hide Selection, Oversized, Pieces, PartsOk, Invalid, RunStarts, Heads, Complete, Total, Assembled;
    hide Step, Number, PayloadLength;
  }

  /** The state of the datagram before frame `n`: not yet known, or as expected. */
  ghost predicate Ready(t: Table, now: nat, b: Bytes, mtu: nat, ident: nat, order: seq<nat>, times: seq<nat>, n: nat)
    requires Whole(b, mtu, ident, order) && |times| == |order| && n < |order| && times != []
  {
    var key, live := KeyOf(b, ident), Expire(t, now);
    if n == 0 then key !in live && |live| < MAX_PACKETS && now == times[0]
    else key in live && live[key] == Expected(b, mtu, ident, order, times, n)
  }

  /** One frame from a ready table: nothing yet, the packet, or the datagram given up. */
  lemma FrameOutcome(t: Table, maxRuns: nat, b: Bytes, mtu: nat, ident: nat, order: seq<nat>, times: seq<nat>,
                     events: seq<Event>, n: nat)
    requires TableOk(t) && Carries(b, mtu, ident, order, times, events) && n < |order|
    requires Ready(t, times[n], b, mtu, ident, order, times, n)
    ensures var key := KeyOf(b, ident);
      var r := Accept(t, events[n].packet, events[n].now, maxRuns);
      if |Heads(order[..n + 1])| > maxRuns then r.1 == None && key in r.0 && r.0[key] == Rejected(times[0])
      else if n + 1 < |order| then
        r.1 == None && key in r.0 && r.0[key] == Expected(b, mtu, ident, order, times, n + 1)
      else r.1 == Some(b)
  {
    hide Classify, Offer, Piece, Expected, TableOk, Heads, Expire, Carries, Whole, Step, Number;
    CarriesFacts(b, mtu, ident, order, times, events);
    EventIsPiece(b, mtu, ident, order, times, events, n);
    OfferNext(b, mtu, ident, order, times, maxRuns, n);
    if n == 0 { ExpectedNone(b, mtu, ident, order, times); }
  }

  lemma ExpectedNone(b: Bytes, mtu: nat, ident: nat, order: seq<nat>, times: seq<nat>)
    requires Whole(b, mtu, ident, order) && |times| == |order| && times != []
    ensures Expected(b, mtu, ident, order, times, 0) == Collecting(times[0], [], [])
  {
    assert order[..0] == [] && times[..0] == [];
  }

  ghost predicate WithinRuns(order: seq<nat>, maxRuns: nat, n: nat)
    requires n <= |order|
  {
    forall m :: 0 <= m <= n ==> |Heads(order[..m])| <= maxRuns
  }

  lemma WithinStep(order: seq<nat>, maxRuns: nat, n: nat)
    requires n < |order|
    ensures WithinRuns(order, maxRuns, n + 1) <==>
            WithinRuns(order, maxRuns, n) && |Heads(order[..n + 1])| <= maxRuns
  {
    hide Heads;
  }

  lemma WithinMonotone(order: seq<nat>, maxRuns: nat, n: nat)
    requires n <= |order|
    ensures WithinRuns(order, maxRuns, |order|) ==> WithinRuns(order, maxRuns, n)
  {
    hide Heads;
  }

  /** As long as the runs stay within the limit, the table stays ready for the next frame. */
  lemma {:induction false} StaysReady(t: Table, maxRuns: nat, b: Bytes, mtu: nat, ident: nat, order: seq<nat>,
                                      times: seq<nat>, events: seq<Event>, n: nat)
    requires TableOk(t) && Carries(b, mtu, ident, order, times, events) && Undisturbed(t, b, ident, times)
    requires n < |order| && WithinRuns(order, maxRuns, n)
    ensures Ready(TableFrom(t, maxRuns, events[..n]), times[n], b, mtu, ident, order, times, n)
    decreases n
  {
    hide Accept, Heads, Carries, TableOk, Whole, Expected, WithinRuns, TableFrom;
    CarriesFacts(b, mtu, ident, order, times, events);
    if n == 0 {
      assert events[..0] == [];
      TableFromNone(t, maxRuns);
    } else {
      WithinStep(order, maxRuns, n - 1);
      StaysReady(t, maxRuns, b, mtu, ident, order, times, events, n - 1);
      FrameOutcome(TableFrom(t, maxRuns, events[..n - 1]), maxRuns, b, mtu, ident, order, times, events, n - 1);
      TableFromNext(t, maxRuns, events, n - 1);
      ExpectedCreated(b, mtu, ident, order, times, n);
    }
  }

  lemma TableFromNone(t: Table, maxRuns: nat)
    requires TableOk(t)
    ensures TableFrom(t, maxRuns, []) == t
  {}

  lemma TableFromNext(t: Table, maxRuns: nat, events: seq<Event>, n: nat)
    requires TableOk(t) && n < |events|
    ensures TableFrom(t, maxRuns, events[..n + 1]) ==
            Accept(TableFrom(t, maxRuns, events[..n]), events[n].packet, events[n].now, maxRuns).0
  {
    hide Accept, TableOk;
    assert events[..n + 1][..n] == events[..n] && events[..n + 1][n] == events[n];
  }

  lemma ExpectedCreated(b: Bytes, mtu: nat, ident: nat, order: seq<nat>, times: seq<nat>, n: nat)
    requires Whole(b, mtu, ident, order) && |times| == |order| && n <= |order| && times != []
    ensures Expected(b, mtu, ident, order, times, n).created == times[0]
  {}

  lemma CarriesFacts(b: Bytes, mtu: nat, ident: nat, order: seq<nat>, times: seq<nat>, events: seq<Event>)
    requires Carries(b, mtu, ident, order, times, events)
    ensures |b| >= HEADER && Whole(b, mtu, ident, order) && |times| == |order| == |events|
    ensures forall i :: 0 <= i < |events| ==> events[i].now == times[i]
  {}

  /** Too many runs at some frame up to `n`: nothing is given back from there on. */
  lemma ExcessIsSilent(t: Table, maxRuns: nat, b: Bytes, mtu: nat, ident: nat, order: seq<nat>, times: seq<nat>,
                       events: seq<Event>, n: nat)
    requires TableOk(t) && Carries(b, mtu, ident, order, times, events) && Undisturbed(t, b, ident, times)
    requires n < |order| && !WithinRuns(order, maxRuns, n)
    ensures Output(t, maxRuns, events, n) == None
  {
    CarriesFacts(b, mtu, ident, order, times, events);
    var m := FirstExcess(order, maxRuns, n);
    hide Accept, Heads, Carries, Whole, Classify, Piece, Expire, WithinRuns, Expected, Ready;
    hide TableOk, TableFrom, Output;
    ExcessRejects(t, maxRuns, b, mtu, ident, order, times, events, m);
    EventIsPiece(b, mtu, ident, order, times, events, n);
    PieceKey(b, mtu, ident, order, n);
    GivenUpIsSilent(t, maxRuns, events, times, m, n, KeyOf(b, ident));
  }

  lemma ExcessRejects(t: Table, maxRuns: nat, b: Bytes, mtu: nat, ident: nat, order: seq<nat>, times: seq<nat>,
                      events: seq<Event>, m: nat)
    requires TableOk(t) && Carries(b, mtu, ident, order, times, events) && Undisturbed(t, b, ident, times)
    requires 1 <= m <= |order| && |Heads(order[..m])| > maxRuns && WithinRuns(order, maxRuns, m - 1)
    ensures var u, key := TableFrom(t, maxRuns, events[..m]), KeyOf(b, ident);
      key in u && u[key] == Rejected(times[0])
  {
    hide Accept, Heads, Carries, Ready, Expected, TableOk, WithinRuns, Whole;
    CarriesFacts(b, mtu, ident, order, times, events);
    StaysReady(t, maxRuns, b, mtu, ident, order, times, events, m - 1);
    FrameOutcome(TableFrom(t, maxRuns, events[..m - 1]), maxRuns, b, mtu, ident, order, times, events, m - 1);
    assert order[..m - 1 + 1] == order[..m];
    assert events[..m][..m - 1] == events[..m - 1] && events[..m][m - 1] == events[m - 1];
  }

  /**
  The round trip: the frames of a packet, offered once each in any order to a free queue and
  within its lifetime, give nothing back until the last one and then exactly the packet, if
  and only if after every frame the received frames form at most `maxRuns` runs; otherwise
  none of them gives anything back.
  */
  lemma RoundTrip(t: Table, maxRuns: nat, b: Bytes, mtu: nat, ident: nat, order: seq<nat>, times: seq<nat>,
                  events: seq<Event>, n: nat)
    requires TableOk(t) && Carries(b, mtu, ident, order, times, events) && Undisturbed(t, b, ident, times)
    requires n < |order|
    ensures Output(t, maxRuns, events, n) ==
            if n + 1 == |order| && WithinRuns(order, maxRuns, |order|) then Some(b) else None
  {
    CarriesFacts(b, mtu, ident, order, times, events);
    WithinMonotone(order, maxRuns, n);
    hide Accept, Heads, Carries, TableOk, Undisturbed, Ready, Expected, Whole, WithinRuns, TableFrom;
    if WithinRuns(order, maxRuns, n) {
      StaysReady(t, maxRuns, b, mtu, ident, order, times, events, n);
      FrameOutcome(TableFrom(t, maxRuns, events[..n]), maxRuns, b, mtu, ident, order, times, events, n);
      WithinStep(order, maxRuns, n);
    } else {
      ExcessIsSilent(t, maxRuns, b, mtu, ident, order, times, events, n);
    }
  }

  lemma PieceKey(b: Bytes, mtu: nat, ident: nat, order: seq<nat>, n: nat)
    requires Whole(b, mtu, ident, order) && n < |order|
    requires Checked(b) && order[n] * Step(mtu) <= PayloadLength(b)
    ensures Piece(b, mtu, ident, order[n]).key == KeyOf(b, ident)
  {}

  lemma FirstExcess(order: seq<nat>, maxRuns: nat, n: nat) returns (m: nat)
    requires n <= |order| && !WithinRuns(order, maxRuns, n)
    ensures 1 <= m <= n && |Heads(order[..m])| > maxRuns && WithinRuns(order, maxRuns, m - 1)
  {
    m := 0;
    assert Heads(order[..0]) == {};
    while |Heads(order[..m])| <= maxRuns
      invariant m <= n && forall k :: 0 <= k < m ==> |Heads(order[..k])| <= maxRuns
      decreases n - m
    {
      m := m + 1;
    }
  }

  lemma GivenUpIsSilent(t: Table, maxRuns: nat, events: seq<Event>, times: seq<nat>, m: nat, n: nat, key: Key)
    requires TableOk(t) && m <= n < |events| == |times| && About(events[n], key)
    requires var u := TableFrom(t, maxRuns, events[..m]); key in u && u[key] == Rejected(times[0])
    requires forall i :: 0 <= i < |events| ==> events[i].now == times[i] && Elapsed(times[i], times[0]) < LIFETIME
    ensures Output(t, maxRuns, events, n) == None
  {
    hide Accept, IsPart, PartOf, TableOk;
    var rest := events[m..n];
    assert forall i :: 0 <= i < |rest| ==> rest[i] == events[m + i];
    RejectedStays(TableFrom(t, maxRuns, events[..m]), maxRuns, rest, key, times[0]);
    assert events[..n] == events[..m] + rest;
    TableFromSplit(t, maxRuns, events[..m], rest);
    RejectedStep(TableFrom(t, maxRuns, events[..n]), maxRuns, events[n], key, times[0]);
  }

  // ----- frames among other traffic

  lemma {:induction false} OnlyPrefix(events: seq<Event>, k: Key, n: nat)
    requires n < |events| && About(events[n], k)
    ensures var own, m := Only(events, k), |Only(events[..n], k)|;
      m < |own| && own[..m] == Only(events[..n], k) && own[m] == events[n]
    decreases |events|
  {
    var last := |events| - 1;
    var init := events[..last];
    if n == last {
      assert Only(events, k) == Only(init, k) + [events[n]];
    } else {
      OnlyPrefix(init, k, n);
      assert init[..n] == events[..n];
      assert Only(init, k) <= Only(events, k);
    }
  }

  /**
  The round trip among arbitrary other traffic: packets, atomic fragments and fragments of other
  datagrams may arrive in between, and the key may have carried datagrams before that are done
  with or expired by then, as long as the clock does not go back and the table has room whenever
  a fragment with the key opens a queue.
  */
  lemma InterleavedRoundTrip(maxRuns: nat, b: Bytes, mtu: nat, ident: nat, order: seq<nat>, times: seq<nat>,
                             earlier: seq<Event>, own: seq<Event>, events: seq<Event>, n: nat)
    requires |b| >= HEADER && Only(events, KeyOf(b, ident)) == earlier + own
    requires Carries(b, mtu, ident, order, times, own)
    requires Undisturbed(TableFrom(map[], maxRuns, earlier), b, ident, times)
    requires Monotone(events) && RoomFor(maxRuns, events, KeyOf(b, ident))
    requires n < |events| && About(events[n], KeyOf(b, ident))
    requires |Only(events[..n], KeyOf(b, ident))| >= |earlier|
    ensures Output(map[], maxRuns, events, n) ==
            if |Only(events[..n], KeyOf(b, ident))| + 1 == |earlier| + |order| && WithinRuns(order, maxRuns, |order|)
            then Some(b) else None
  {
    hide Carries, Undisturbed, Monotone, RoomFor, WithinRuns, Only, TableFrom, Output, About;
    NonePending();
    hide TableOk;
    var m := OwnOutcome(maxRuns, KeyOf(b, ident), earlier, own, events, n);
    CarriesFacts(b, mtu, ident, order, times, own);
    RoundTrip(TableFrom(map[], maxRuns, earlier), maxRuns, b, mtu, ident, order, times, own, m);
  }

  /** Among other traffic, a fragment gives back what it would after the earlier fragments of its key alone. */
  lemma OwnOutcome(maxRuns: nat, k: Key, earlier: seq<Event>, own: seq<Event>, events: seq<Event>, n: nat)
    returns (m: nat)
    requires Only(events, k) == earlier + own && Monotone(events) && RoomFor(maxRuns, events, k)
    requires n < |events| && About(events[n], k) && |Only(events[..n], k)| >= |earlier|
    ensures m == |Only(events[..n], k)| - |earlier| && m < |own|
    ensures Output(map[], maxRuns, events, n) == Output(TableFrom(map[], maxRuns, earlier), maxRuns, own, m)
  {
    hide Accept, Monotone, RoomFor, Only, TableFrom;
    NonePending();
    hide TableOk;
    m := |Only(events[..n], k)| - |earlier|;
    OnlyPrefix(events, k, n);
    assert (earlier + own)[..|earlier| + m] == earlier + own[..m] && (earlier + own)[|earlier| + m] == own[m];
    IsolatedOutcome(maxRuns, events, n);
    TableFromSplit(map[], maxRuns, earlier, own[..m]);
  }

  // ----- which orders work

  /** In order, the frames of any packet are delivered by any assembler that can hold one run. */
  lemma InOrderWorks(c: nat, maxRuns: nat)
    requires maxRuns >= 1
    ensures WithinRuns(seq(c, i => i), maxRuns, c)
  {
    var order := seq(c, i => i);
    forall m | 0 <= m <= c ensures |Heads(order[..m])| <= maxRuns {
      var s := order[..m];
      assert forall i :: 0 <= i < m ==> s[i] == i;
      forall j: nat | 0 < j < m ensures j !in Heads(s) {
        assert s[j - 1] == j - 1;
      }
      SubsetSize(Heads(s), {0});
    }
  }

  /** The even-numbered frames of `c`, then the odd ones. */
  function EvensFirst(c: nat): (order: seq<nat>)
    ensures |order| == c
  {
    seq(c, i requires 0 <= i < c => if 2 * i < c then 2 * i else 2 * (i - (c + 1) / 2) + 1)
  }

  lemma EvensFirstOnce(c: nat)
    ensures Distinct(EvensFirst(c)) && forall i :: 0 <= i < c ==> EvensFirst(c)[i] < c
  {
    var s := EvensFirst(c);
    forall i, j | 0 <= i < j < c ensures s[i] != s[j] {
      assert 2 * j < c ==> s[i] == 2 * i && s[j] == 2 * j;
      assert 2 * i < c <= 2 * j ==> s[i] % 2 == 0 && s[j] % 2 == 1;
    }
  }

  lemma EvensFirstIsWhole(b: Bytes, mtu: nat, ident: nat)
    requires Oversized(b, mtu, ident)
    ensures Whole(b, mtu, ident, EvensFirst(Number(b, mtu)))
  {
    hide Number, EvensFirst;
    EvensFirstOnce(Number(b, mtu));
  }

  lemma EvenHead(s: seq<nat>, j: nat)
    requires forall i :: 0 <= i < |s| ==> s[i] == 2 * i
    ensures j in Heads(s) <==> j in Scaled(UpTo(|s|), 2)
  {
    if j in Heads(s) {
      var i :| 0 <= i < |s| && s[i] == j;
      assert i in UpTo(|s|) && Multiple(i, 2) == j;
    }
    if i :| i in UpTo(|s|) && Multiple(i, 2) == j {
      assert s[i] == j;
    }
  }

  lemma EvenHeads(order: seq<nat>, m: nat)
    requires m <= |order| && forall i :: 0 <= i < m ==> order[i] == 2 * i
    ensures |Heads(order[..m])| == m
  {
    var s := order[..m];
    forall j: nat ensures j in Heads(s) <==> j in Scaled(UpTo(m), 2) {
      EvenHead(s, j);
    }
    hide Heads, Scaled, UpTo;
    assert Heads(s) == Scaled(UpTo(m), 2);
    ScaledSize(UpTo(m), 2);
  }

  /**
  Not every order works, whatever the number of runs the assembler can hold: a packet of more
  than twice as many frames, offered even-numbered frames first, is never given back.
  */
  lemma EvensFirstFails(t: Table, maxRuns: nat, b: Bytes, mtu: nat, ident: nat, times: seq<nat>, events: seq<Event>,
                        n: nat)
    requires TableOk(t) && Oversized(b, mtu, ident) && Number(b, mtu) >= 2 * maxRuns + 1
    requires var order := EvensFirst(Number(b, mtu));
      Carries(b, mtu, ident, order, times, events) && n < |order|
    requires Undisturbed(t, b, ident, times)
    ensures Output(t, maxRuns, events, n) == None
  {
    var order := EvensFirst(Number(b, mtu));
    hide Carries, Undisturbed, TableOk, Output, Heads, Oversized, Number;
    EvenHeads(order, maxRuns + 1);
    assert !WithinRuns(order, maxRuns, |order|);
    RoundTrip(t, maxRuns, b, mtu, ident, order, times, events, n);
  }
}
