/** The law of fragmenting over every packet and MTU: what is refused, and that the rest comes back whole. */
module FragmentLaw {
  import opened Common
  import opened Ipv6Packet
  import opened ReassemblySpec
  import opened ReassemblyRuns
  import opened Fragmenter
  import opened FragmentRoundTrip
  import opened FragmentDelivery
  import opened HeaderChain

  /** IPv6, and longer than the MTU. */
  predicate TooLong(b: Bytes, mtu: nat) { |b| > mtu && b != [] && b[0] / 16 == 6 }

  /** Refused exactly: a too long packet with a small MTU, over the size limit, cut short, or of another protocol. */
  lemma RefusedExactly(b: Bytes, mtu: nat, ident: nat)
    ensures Split(b, mtu, ident) == None <==>
      && TooLong(b, mtu)
      && (mtu < 1280 || |b| > 65535 || |b| < 40 || |b| < 40 + Be16(b, 4) || b[6] !in {6, 17, 58})
  {
    hide Frames, Be16;
  }

  /** Frames are the packet alone when it is not too long, and otherwise all fit the MTU. */
  lemma FramesFit(b: Bytes, mtu: nat, ident: nat)
    requires Split(b, mtu, ident).Some?
    ensures !TooLong(b, mtu) ==> Split(b, mtu, ident) == Some([b])
    ensures TooLong(b, mtu) ==>
      forall i :: 0 <= i < |Split(b, mtu, ident).value| ==> |Split(b, mtu, ident).value[i]| <= mtu
  {
    hide Frames, Frame;
    if TooLong(b, mtu) {
      StepBounds(mtu);
      AllFit(b, Step(mtu), ident, 0, mtu);
      assert Split(b, mtu, ident).value == Frames(b, Step(mtu), ident, 0);
    }
  }

  lemma {:induction false} AllFit(b: Bytes, step: nat, ident: nat, at: nat, mtu: nat)
    requires Checked(b) && 0 < step <= mtu - OVERHEAD
    ensures var frames := Frames(b, step, ident, at); forall i :: 0 <= i < |frames| ==> |frames[i]| <= mtu
    decreases PayloadLength(b) - at
  {
    hide Frame, Frames;
    if at >= PayloadLength(b) {
    } else {
      AllFit(b, step, ident, at + step, mtu);
      FramesStep(b, step, ident, at);
      FrameSize(b, step, ident, at);
    }
  }

  lemma FrameSize(b: Bytes, step: nat, ident: nat, at: nat)
    requires Checked(b) && at <= PayloadLength(b)
    ensures |Frame(b, step, ident, at)| <= OVERHEAD + step
  {}

  // ----- bytes past the announced length do not matter

  lemma AnnouncedFrame(b: Bytes, step: nat, ident: nat, at: nat)
    requires b != [] && b[0] / 16 == 6 && Checked(b) && at <= PayloadLength(b)
    ensures Checked(Announced(b)) && PayloadLength(Announced(b)) == PayloadLength(b)
    ensures Frame(Announced(b), step, ident, at) == Frame(b, step, ident, at)
  {
    var a := Announced(b);
    assert a[..HEADER] == b[..HEADER] && Be16(a, 4) == Be16(b, 4);
    assert Payload(a) == Payload(b);
  }

  lemma {:induction false} AnnouncedFrames(b: Bytes, step: nat, ident: nat, at: nat)
    requires b != [] && b[0] / 16 == 6 && Checked(b) && step > 0
    ensures Checked(Announced(b)) && PayloadLength(Announced(b)) == PayloadLength(b)
    ensures Frames(Announced(b), step, ident, at) == Frames(b, step, ident, at)
    decreases PayloadLength(b) - at
  {
    hide Frame;
    AnnouncedFrame(b, step, ident, 0);
    if at >= PayloadLength(b) {
    } else {
      AnnouncedFrame(b, step, ident, at);
      AnnouncedFrames(b, step, ident, at + step);
    }
  }

  // ----- one frame

  /** A payload that fits one frame goes out as an atomic fragment, which unwraps to the packet. */
  lemma SingleFrame(t: Table, b: Bytes, step: nat, ident: nat, now: nat, maxRuns: nat)
    requires TableOk(t) && |b| >= HEADER && b[0] / 16 == 6 && |b| == HEADER + PayloadLength(b) <= MAX_PACKET
    requires 0 < PayloadLength(b) <= step && PayloadLength(b) + 8 < 65536 && b[6] != FRAGMENT && ident < 0x1_0000_0000
    ensures Frames(b, step, ident, 0) == [Frame(b, step, ident, 0)]
    ensures Accept(t, Frame(b, step, ident, 0), now, maxRuns) == (t, Some(b))
  {
    var frame := Frame(b, step, ident, 0);
    SingleShape(b, step, ident);
    SingleChain(frame);
    hide Frame, Frames, PutBe16, Be16, Chain, Accept;
    AtomicUnwraps(t, frame, [HEADER], now, maxRuns);
    var r := Accept(t, frame, now, maxRuns).1.value;
    HeaderRestored(b, 8 + PayloadLength(b));
    assert r == r[..HEADER] + r[HEADER..] && b == b[..HEADER] + b[HEADER..];
  }

  lemma SingleShape(b: Bytes, step: nat, ident: nat)
    requires |b| >= HEADER && b[0] / 16 == 6 && |b| == HEADER + PayloadLength(b)
    requires 0 < PayloadLength(b) <= step && PayloadLength(b) + 8 < 65536 && ident < 0x1_0000_0000
    ensures Frames(b, step, ident, 0) == [Frame(b, step, ident, 0)]
    ensures var frame := Frame(b, step, ident, 0);
      && |frame| == |b| + 8 && frame[0] == b[0] && frame[6] == FRAGMENT && Be16(frame, 4) == 8 + PayloadLength(b)
      && frame[HEADER] == b[6] && Be16(frame, HEADER + 2) / 8 == 0 && frame[HEADER + 3] % 2 == 0
      && frame[HEADER + 8..] == b[HEADER..]
      && frame[..HEADER] == PutBe16(b[..HEADER][6 := FRAGMENT], 4, 8 + PayloadLength(b))
  {
    var h, p := FragmentHeader(b[6], 0, false, ident), PutBe16(b[..HEADER][6 := FRAGMENT], 4, 8 + PayloadLength(b));
    var frame := Frame(b, step, ident, 0);
    assert Chunk(Payload(b), step, 0) == b[HEADER..];
    HeaderFields(b[6], 0, false, ident);
    PrefixFields(b, 8 + PayloadLength(b));
    hide PutBe16, FragmentHeader;
    assert frame == p + h + b[HEADER..];
    assert frame[..HEADER] == p && frame[HEADER..HEADER + 8] == h;
    assert Be16(frame, 4) == Be16(p, 4) && Be16(frame, HEADER + 2) == Be16(h, 2) && frame[HEADER + 3] == h[3];
  }

  lemma SingleChain(frame: Bytes)
    requires |frame| >= HEADER && frame[0] / 16 == 6 && frame[6] == FRAGMENT && |frame| == HEADER + Be16(frame, 4)
    ensures Checked(frame) && Announced(frame) == frame && Chain(frame, [HEADER])
  {
    hide Be16;
    assert frame[..|frame|] == frame;
  }

  // ----- the law

  /** A packet that is no fragment: of another version, or whole and with a chain to something else. */
  ghost predicate NoFragment(b: Bytes) {
    b != [] && (b[0] / 16 == 6 ==>
      Checked(b) && exists os :: Chain(Announced(b), os) && Announced(b)[AnnouncerOf(os)] != FRAGMENT)
  }

  ghost predicate Arrivals(events: seq<Event>, frames: seq<Bytes>, times: seq<nat>) {
    |events| == |frames| == |times| && forall i :: 0 <= i < |frames| ==> events[i] == Event(frames[i], times[i])
  }

  lemma WholeInOrder(t: Table, maxRuns: nat, b: Bytes, mtu: nat, ident: nat, times: seq<nat>, events: seq<Event>,
                     n: nat)
    requires TableOk(t) && maxRuns >= 1 && Oversized(b, mtu, ident) && Undisturbed(t, b, ident, times)
    requires Checked(b) && Step(mtu) > 0 && Arrivals(events, Frames(b, Step(mtu), ident, 0), times) && n < |events|
    ensures Output(t, maxRuns, events, n) == if n + 1 == |events| then Some(b) else None
  {
    var order := seq(Number(b, mtu), i => i);
    StepBounds(mtu);
    FrameList(b, Step(mtu), ident, 0, 0);
    assert 0 * Step(mtu) == 0;
    assert Carries(b, mtu, ident, order, times, events);
    InOrderWorks(Number(b, mtu), maxRuns);
    hide Carries, Undisturbed, TableOk, Output, Frames, Number, Oversized;
    RoundTrip(t, maxRuns, b, mtu, ident, order, times, events, n);
  }

  /**
  Every packet that is no fragment, handed over frame by frame in order to a table with room,
  gives nothing until the last frame and then exactly its announced bytes, whether it fits the
  MTU or had to be cut.
  */
  lemma EveryPacketArrives(t: Table, maxRuns: nat, b: Bytes, mtu: nat, ident: nat, times: seq<nat>,
                           events: seq<Event>, n: nat)
    requires TableOk(t) && maxRuns >= 1 && NoFragment(b) && ident < 0x1_0000_0000
    requires TooLong(b, mtu) ==> Undisturbed(t, b, ident, times)
    requires Split(b, mtu, ident).Some? && Arrivals(events, Split(b, mtu, ident).value, times) && n < |events|
    ensures Output(t, maxRuns, events, n) == if n + 1 == |events| then Some(Announced(b)) else None
  {
    if !TooLong(b, mtu) {
      FramesFit(b, mtu, ident);
      FirstOutput(t, maxRuns, events);
      hide Split, Output;
      if b[0] / 16 != 6 {
        OtherVersionPasses(t, b, times[0], maxRuns);
      } else {
        var os :| Chain(Announced(b), os) && Announced(b)[AnnouncerOf(os)] != FRAGMENT;
        PlainPasses(t, b, os, times[0], maxRuns);
      }
    } else {
      CutArrives(t, maxRuns, b, mtu, ident, times, events, n);
    }
  }

  lemma FirstOutput(t: Table, maxRuns: nat, events: seq<Event>)
    requires TableOk(t) && events != []
    ensures Output(t, maxRuns, events, 0) == Accept(t, events[0].packet, events[0].now, maxRuns).1
  {
    hide Accept, TableOk;
    assert events[..0] == [];
  }

  lemma CutArrives(t: Table, maxRuns: nat, b: Bytes, mtu: nat, ident: nat, times: seq<nat>, events: seq<Event>, n: nat)
    requires TableOk(t) && maxRuns >= 1 && ident < 0x1_0000_0000 && TooLong(b, mtu) && Undisturbed(t, b, ident, times)
    requires Split(b, mtu, ident).Some? && Arrivals(events, Split(b, mtu, ident).value, times) && n < |events|
    ensures Checked(b) && Output(t, maxRuns, events, n) == if n + 1 == |events| then Some(Announced(b)) else None
  {
    hide Output, Frames, TableOk;
    StepBounds(mtu);
    var a, step := Announced(b), Step(mtu);
    AnnouncedFrames(b, step, ident, 0);
    SameKey(t, b, ident, times);
    if PayloadLength(b) > step {
      WholeInOrder(t, maxRuns, a, mtu, ident, times, events, n);
    } else {
      NoPayload(b, step, ident);
      SingleFrame(t, a, step, ident, times[0], maxRuns);
      FirstOutput(t, maxRuns, events);
    }
  }

  lemma NoPayload(b: Bytes, step: nat, ident: nat)
    requires Checked(b) && step > 0
    ensures Frames(b, step, ident, 0) == [] <==> PayloadLength(b) == 0
  {
    hide Frame;
  }

  lemma SameKey(t: Table, b: Bytes, ident: nat, times: seq<nat>)
    requires b != [] && b[0] / 16 == 6 && Checked(b) && Undisturbed(t, b, ident, times)
    ensures Undisturbed(t, Announced(b), ident, times)
  {
    hide Expire;
    var a := Announced(b);
    assert a[8..24] == b[8..24] && a[24..40] == b[24..40];
  }

  /** The one gap: a packet longer than the MTU whose length field is zero yields no frame at all. */
  lemma NoFrameExactly(b: Bytes, mtu: nat, ident: nat)
    requires Split(b, mtu, ident).Some?
    ensures Split(b, mtu, ident) == Some([]) <==> TooLong(b, mtu) && Be16(b, 4) == 0
  {
    if TooLong(b, mtu) {
      StepBounds(mtu);
      NoPayload(b, Step(mtu), ident);
    }
    hide Frames, Be16;
  }
}
