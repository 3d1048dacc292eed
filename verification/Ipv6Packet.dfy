/** IPv6 packets as bytes: the header walk and what an arriving packet is to the reassembler. */
module Ipv6Packet {
  import opened Common

  type byte = x: int | 0 <= x < 256
  type Bytes = seq<byte>

  const HEADER: nat := 40
  const MAX_PACKET: nat := 65535
  const MAX_EXTENSIONS: nat := 8
  const HOP_BY_HOP: byte := 0
  const TCP: byte := 6
  const UDP: byte := 17
  const ROUTE: byte := 43
  const FRAGMENT: byte := 44
  const ICMPV6: byte := 58
  const OPTIONS: byte := 60

  /** Big-endian 16-bit field at `i`. */
  function Be16(b: Bytes, i: nat): (r: nat)
    requires i + 2 <= |b|
    ensures r < 65536
  {
    (b[i] as int) * 256 + b[i + 1] as int
  }

  function Be32(b: Bytes, i: nat): nat
    requires i + 4 <= |b|
  {
    Be16(b, i) * 65536 + Be16(b, i + 2)
  }

  function PutBe16(b: Bytes, i: nat, v: nat): Bytes
    requires i + 2 <= |b|
  {
    b[i := v / 256 % 256][i + 1 := v % 256]
  }

  /** The payload length field rewritten to the length of what follows the fixed header, as a u16. */
  function WithLength(b: Bytes): Bytes
    requires |b| >= HEADER
  {
    PutBe16(b, 4, (|b| - HEADER) % 65536)
  }

  function PayloadLength(b: Bytes): nat
    requires |b| >= HEADER
  {
    Be16(b, 4)
  }

  /** What the packet parser accepts: a whole header and as much payload as it announces. */
  predicate Checked(b: Bytes) { |b| >= HEADER && |b| >= HEADER + PayloadLength(b) }

  predicate IsExtension(protocol: byte) { protocol in {HOP_BY_HOP, OPTIONS, ROUTE} }

  // ----- the header walk

  /** Protocol and offset after the extension headers, and where the last next-header byte is. */
  datatype Place = Place(protocol: byte, offset: nat, previous: nat)

  /** Length of the extension header at `offset`, from its length byte. */
  function ExtensionLength(b: Bytes, offset: nat): (n: nat)
    requires offset + 2 <= |b|
    ensures 8 <= n <= 2048
  {
    8 + 8 * (b[offset + 1] as int)
  }

  /** Skips up to `fuel` extension headers; None when one does not fit the packet. */
  function Walk(b: Bytes, at: Place, fuel: nat): (r: Option<Place>)
    requires HEADER <= at.offset <= |b| && at.previous < at.offset
    ensures r.Some? ==> at.offset <= r.value.offset <= |b| && r.value.previous < r.value.offset
    ensures r.Some? ==> r.value.offset <= at.offset + 2048 * fuel
    decreases fuel
  {
    if fuel == 0 || !IsExtension(at.protocol) then Some(at)
    else if |b| - at.offset < 8 || |b| - at.offset < ExtensionLength(b, at.offset) then None
    else Walk(b, Place(b[at.offset], at.offset + ExtensionLength(b, at.offset), at.offset), fuel - 1)
  }

  method WalkHeaders(b: Bytes) returns (r: Option<Place>)
    requires |b| >= HEADER
    ensures r == Walk(b, Place(b[6], HEADER, 6), MAX_EXTENSIONS)
  {
    var at := Place(b[6], HEADER, 6);
    var n := 0;
    while n < MAX_EXTENSIONS && IsExtension(at.protocol)
      invariant 0 <= n <= MAX_EXTENSIONS
      invariant HEADER <= at.offset <= |b| && at.previous < at.offset
      invariant Walk(b, at, MAX_EXTENSIONS - n) == Walk(b, Place(b[6], HEADER, 6), MAX_EXTENSIONS)
      decreases MAX_EXTENSIONS - n
    {
      if |b| - at.offset < 8 || |b| - at.offset < ExtensionLength(b, at.offset) {
        return None;
      }
      at := Place(b[at.offset], at.offset + ExtensionLength(b, at.offset), at.offset);
      n := n + 1;
    }
    r := Some(at);
  }

  // ----- fragments

  /** Source, destination and identification. */
  datatype Key = Key(src: Bytes, dst: Bytes, ident: nat)

  /** `prefix` is everything before the fragment header, `previous` the byte that announces it. */
  datatype Fragment = Fragment(key: Key, prefix: Bytes, previous: nat, next: byte,
                               start: nat, more: bool, payload: Bytes)
  {
    function End(): nat { start + |payload| }

    ghost predicate WellFormed() {
      && HEADER <= |prefix| <= HEADER + 2048 * MAX_EXTENSIONS
      && previous < |prefix|
      && start % 8 == 0 && start < 65536
      && !(start == 0 && !more)
    }
  }

  datatype Arrival =
    | Pass(packet: Bytes)
    | Drop
    | Atomic(packet: Bytes)
    | Part(fragment: Fragment)

  /** A packet without its fragment header: the header before it now announces `next`. */
  function Unfragmented(prefix: Bytes, previous: nat, next: byte, payload: Bytes): Bytes
    requires |prefix| >= HEADER && previous < |prefix|
  {
    WithLength(prefix[previous := next] + payload)
  }

  /** What becomes of a packet whose extension headers end at `place`: passed on, dropped or read as a fragment. */
  function ReadAt(b: Bytes, place: Option<Place>): (r: Arrival)
    requires |b| >= HEADER
    requires place.Some? ==> HEADER <= place.value.offset <= |b| && place.value.previous < place.value.offset
    ensures r.Part? ==> place.Some? && r.fragment.prefix == b[..place.value.offset]
  {
    if place.None? then Drop
    else if place.value.protocol != FRAGMENT then Pass(b)
    else
      var o := place.value.offset;
      if |b| < o + 8 || b[o] == FRAGMENT then Drop
      else
        var start, more := Be16(b, o + 2) / 8 * 8, b[o + 3] % 2 == 1;
        if !more && start == 0 then
          Atomic(Unfragmented(b[..o], place.value.previous, b[o], b[o + 8..]))
        else
          Part(Fragment(Key(b[8..24], b[24..40], Be32(b, o + 4)), b[..o], place.value.previous, b[o],
                        start, more, b[o + 8..]))
  }

  /** What an arriving packet is before any queue is looked at. */
  function Classify(packet: Bytes): (r: Arrival)
    ensures r.Part? ==> r.fragment.WellFormed()
  {
    if packet == [] then Drop
    else if packet[0] / 16 != 6 then Pass(packet)
    else if !Checked(packet) then Drop
    else
      var b := packet[..HEADER + PayloadLength(packet)];
      ReadAt(b, Walk(b, Place(b[6], HEADER, 6), MAX_EXTENSIONS))
  }

  // ----- what is read

  /** The byte a walk ends up remembering is the one that announces the protocol it found. */
  lemma {:induction false} WalkAnnounced(b: Bytes, at: Place, fuel: nat)
    requires HEADER <= at.offset <= |b| && at.previous < at.offset && b[at.previous] == at.protocol
    ensures var r := Walk(b, at, fuel); r.Some? ==> b[r.value.previous] == r.value.protocol
    decreases fuel
  {
    if fuel == 0 || !IsExtension(at.protocol) {
    } else if |b| - at.offset >= 8 && |b| - at.offset >= ExtensionLength(b, at.offset) {
      WalkAnnounced(b, Place(b[at.offset], at.offset + ExtensionLength(b, at.offset), at.offset), fuel - 1);
    }
  }

  /** `h` is a fragment header with the fields of `f`. */
  predicate HeaderOf(f: Fragment, h: Bytes) {
    && |h| == 8 && h[0] == f.next && f.next != FRAGMENT
    && Be16(h, 2) / 8 * 8 == f.start && (h[3] % 2 == 1 <==> f.more) && Be32(h, 4) == f.key.ident
  }

  /**
  A fragment is read whole: what the packet announces is the headers of the fragment, which
  announce a fragment header, then a fragment header with its fields, then its payload, and
  nothing else.
  */
  lemma PartIsWhole(packet: Bytes) returns (h: Bytes)
    requires Classify(packet).Part?
    ensures var f := Classify(packet).fragment;
      && Checked(packet) && packet[..HEADER + PayloadLength(packet)] == f.prefix + h + f.payload
      && HeaderOf(f, h) && f.previous < |f.prefix| && f.prefix[f.previous] == FRAGMENT
      && f.key.src == f.prefix[8..24] && f.key.dst == f.prefix[24..40]
  {
    hide Walk, Unfragmented, Be16, Be32;
    var b := packet[..HEADER + PayloadLength(packet)];
    WalkAnnounced(b, Place(b[6], HEADER, 6), MAX_EXTENSIONS);
    var f := Classify(packet).fragment;
    var o := |f.prefix|;
    h := b[o..o + 8];
    SliceFields(b, o);
    assert b == b[..o] + b[o..o + 8] + b[o + 8..];
  }

  lemma SliceFields(b: Bytes, o: nat)
    requires o + 8 <= |b|
    ensures var h := b[o..o + 8]; Be16(h, 2) == Be16(b, o + 2) && Be32(h, 4) == Be32(b, o + 4)
  {}
}
