/** Splitting an oversized IPv6 packet into fragment frames. */
module Fragmenter {
  import opened Common
  import opened Ipv6Packet

  const MIN_MTU: nat := 1280
  /** The fixed header and the fragment header in front of each chunk. */
  const OVERHEAD: nat := 48

  function Step(mtu: nat): nat
    requires mtu >= OVERHEAD
  {
    (mtu - OVERHEAD) / 8 * 8
  }

  lemma StepBounds(mtu: nat)
    requires mtu >= MIN_MTU
    ensures 0 < Step(mtu) <= mtu - OVERHEAD && Step(mtu) % 8 == 0
  {}

  function Payload(b: Bytes): Bytes
    requires Checked(b)
  {
    b[HEADER..HEADER + PayloadLength(b)]
  }

  function Chunk(payload: Bytes, step: nat, at: nat): Bytes
    requires at <= |payload|
  {
    payload[at..Min(at + step, |payload|)]
  }

  /** The fragment header: next protocol, offset in units of 8 with the more-fragments bit, identification. */
  function FragmentHeader(next: byte, offset: nat, more: bool, ident: nat): Bytes {
    var field := offset / 8 % 8192 * 8 + if more then 1 else 0;
    [next, 0, field / 256 % 256, field % 256,
     ident / 0x100_0000 % 256, ident / 0x1_0000 % 256, ident / 256 % 256, ident % 256]
  }

  /** The frame that carries the chunk at `at`. */
  function Frame(b: Bytes, step: nat, ident: nat, at: nat): Bytes
    requires Checked(b) && at <= PayloadLength(b)
  {
    var payload := Payload(b);
    var chunk := Chunk(payload, step, at);
    PutBe16(b[..HEADER][6 := FRAGMENT], 4, 8 + |chunk|)
    + FragmentHeader(b[6], at, at + |chunk| < |payload|, ident)
    + chunk
  }

  /** The frames from offset `at` to the end. */
  function Frames(b: Bytes, step: nat, ident: nat, at: nat): (r: seq<Bytes>)
    requires Checked(b) && step > 0
    ensures at >= PayloadLength(b) ==> r == []
    decreases PayloadLength(b) - at
  {
    if at >= PayloadLength(b) then [] else [Frame(b, step, ident, at)] + Frames(b, step, ident, at + step)
  }

  predicate Splittable(b: Bytes, mtu: nat) {
    mtu >= MIN_MTU && |b| <= MAX_PACKET && Checked(b) && b[6] in {UDP, TCP, ICMPV6}
  }

  /** None is the refusal of a packet or MTU outside the limits. */
  function Split(b: Bytes, mtu: nat, ident: nat): Option<seq<Bytes>> {
    if |b| <= mtu || b == [] || b[0] / 16 != 6 then Some([b])
    else if !Splittable(b, mtu) then None
    else Some(Frames(b, Step(mtu), ident, 0))
  }

  method FragmentPacket(b: Bytes, mtu: nat, ident: nat) returns (r: Option<seq<Bytes>>)
    ensures r == Split(b, mtu, ident)
  {
    hide Frame, Step;
    if |b| <= mtu || b == [] || b[0] / 16 != 6 {
      return Some([b]);
    }
    if mtu < MIN_MTU || |b| > MAX_PACKET {
      return None;
    }
    if !Checked(b) {
      return None;
    }
    if b[6] !in {UDP, TCP, ICMPV6} {
      return None;
    }
    StepBounds(mtu);
    var step, at := Step(mtu), 0;
    var frames: seq<Bytes> := [];
    while at < PayloadLength(b)
      invariant frames + Frames(b, step, ident, at) == Frames(b, step, ident, 0)
      decreases PayloadLength(b) - at
    {
      assert frames + Frames(b, step, ident, at)
          == frames + [Frame(b, step, ident, at)] + Frames(b, step, ident, at + step);
      frames := frames + [Frame(b, step, ident, at)];
      at := at + step;
    }
    assert frames + [] == frames;
    r := Some(frames);
  }

  /** The number of chunks. */
  function Count(n: nat, step: nat): nat
    requires step > 0
  {
    (n + step - 1) / step
  }

  lemma CountBounds(n: nat, step: nat)
    requires step > 0 && n > 0
    ensures Count(n, step) >= 1 && (Count(n, step) - 1) * step < n <= Count(n, step) * step
  {
    var q := Count(n, step);
    assert n + step - 1 == q * step + (n + step - 1) % step;
    assert (q - 1) * step == q * step - step;
  }

  lemma FramesStep(b: Bytes, step: nat, ident: nat, at: nat)
    requires Checked(b) && step > 0 && at < PayloadLength(b)
    ensures Frames(b, step, ident, at) == [Frame(b, step, ident, at)] + Frames(b, step, ident, at + step)
  {}

  lemma {:induction false} FrameList(b: Bytes, step: nat, ident: nat, j: nat, k: nat)
    requires Checked(b) && step > 0
    requires j + k <= Count(PayloadLength(b), step) && PayloadLength(b) > 0
    ensures |Frames(b, step, ident, j * step)| == Count(PayloadLength(b), step) - j
    ensures k < Count(PayloadLength(b), step) - j ==>
      (j + k) * step <= PayloadLength(b) && k < |Frames(b, step, ident, j * step)|
      && Frames(b, step, ident, j * step)[k] == Frame(b, step, ident, (j + k) * step)
    decreases Count(PayloadLength(b), step) - j
  {
    hide Frame, Count;
    var n, c := PayloadLength(b), Count(PayloadLength(b), step);
    CountBounds(n, step);
    if j >= c {
    } else {
      MulBelow(j, c - 1, step);
      assert (j + 1) * step == j * step + step;
      FrameList(b, step, ident, j + 1, if k == 0 then 0 else k - 1);
      FramesStep(b, step, ident, j * step);
      if k < c - j { MulBelow(j + k, c - 1, step); }
    }
  }

  lemma MulBelow(a: nat, b: nat, step: nat)
    requires a <= b
    ensures a * step <= b * step
    ensures a < b ==> a * step + step <= b * step
  {
    if a < b { assert (a + 1) * step <= b * step; }
  }
}
