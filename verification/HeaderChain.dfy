/** Which packets reassembly passes on, drops, unwraps or collects, by their chain of extension headers. */
module HeaderChain {
  import opened Common
  import opened Ipv6Packet
  import opened ReassemblySpec

  /** The bytes a packet announces: all of it, or for IPv6 as many as its length field says. */
  function Announced(packet: Bytes): Bytes
    requires packet != [] && (packet[0] / 16 == 6 ==> Checked(packet))
  {
    if packet[0] / 16 == 6 then packet[..HEADER + PayloadLength(packet)] else packet
  }

  /** The byte that announces the header at `os[i]`: in the fixed header, or the first of the header before. */
  function AnnouncedBy(os: seq<nat>, i: nat): nat
    requires i < |os|
  {
    if i == 0 then 6 else os[i - 1]
  }

  /** `os[i]` is an extension header that fits and is followed by `os[i + 1]`. */
  predicate LinkedAt(b: Bytes, os: seq<nat>, i: nat)
    requires i + 1 < |os|
  {
    && AnnouncedBy(os, i) < |b| && IsExtension(b[AnnouncedBy(os, i)])
    && os[i] + 8 <= |b| && os[i + 1] == os[i] + 8 * (1 + b[os[i] + 1] as int) <= |b|
  }

  /**
  The offsets of the headers after the fixed one: extension headers, each followed by the next,
  then one that is no extension header or comes after eight of them.
  */
  ghost predicate Chain(b: Bytes, os: seq<nat>) {
    && |b| >= HEADER && 1 <= |os| <= MAX_EXTENSIONS + 1 && os[0] == HEADER
    && (forall i :: 0 <= i < |os| - 1 ==> LinkedAt(b, os, i))
    && AnnouncedBy(os, |os| - 1) < |b|
    && (IsExtension(b[AnnouncedBy(os, |os| - 1)]) ==> |os| == MAX_EXTENSIONS + 1)
  }

  /** Where a chain ends, and what it ends in. */
  function EndOf(os: seq<nat>): nat
    requires os != []
  {
    os[|os| - 1]
  }

  function AnnouncerOf(os: seq<nat>): nat
    requires os != []
  {
    AnnouncedBy(os, |os| - 1)
  }

  // ----- the walk finds the chain

  /** A walk along the first `n` headers of a chain with the rest still to go. */
  lemma {:induction false} WalkAlong(b: Bytes, os: seq<nat>, n: nat)
    requires Chain(b, os) && n < |os|
    requires HEADER <= os[n] <= |b| && AnnouncedBy(os, n) < os[n]
    ensures AnnouncerOf(os) < EndOf(os) <= |b|
    ensures Walk(b, Place(b[AnnouncedBy(os, n)], os[n], AnnouncedBy(os, n)), MAX_EXTENSIONS - n) ==
            Some(Place(b[AnnouncerOf(os)], EndOf(os), AnnouncerOf(os)))
    decreases |os| - n
  {
    if n == |os| - 1 {
    } else {
      assert LinkedAt(b, os, n);
      WalkAlong(b, os, n + 1);
    }
  }

  lemma ChainIsWalked(b: Bytes, os: seq<nat>)
    requires Chain(b, os)
    ensures AnnouncerOf(os) < EndOf(os) <= |b| && HEADER <= EndOf(os)
    ensures Walk(b, Place(b[6], HEADER, 6), MAX_EXTENSIONS) ==
            Some(Place(b[AnnouncerOf(os)], EndOf(os), AnnouncerOf(os)))
  {
    WalkAlong(b, os, 0);
    WalkGrows(b, Place(b[6], HEADER, 6), MAX_EXTENSIONS);
  }

  lemma WalkGrows(b: Bytes, at: Place, fuel: nat)
    requires HEADER <= at.offset <= |b| && at.previous < at.offset
    ensures var r := Walk(b, at, fuel); r.Some? ==> HEADER <= r.value.offset
  {}

  /** The headers a successful walk from the `n`th one on goes through. */
  lemma {:induction false} WalkedIsChain(b: Bytes, init: seq<nat>) returns (os: seq<nat>)
    requires |b| >= HEADER && 1 <= |init| <= MAX_EXTENSIONS + 1 && init[0] == HEADER
    requires forall i :: 0 <= i < |init| - 1 ==> LinkedAt(b, init, i)
    requires HEADER <= EndOf(init) <= |b| && AnnouncerOf(init) < EndOf(init)
    requires Walk(b, Place(b[AnnouncerOf(init)], EndOf(init), AnnouncerOf(init)), MAX_EXTENSIONS + 1 - |init|).Some?
    ensures Chain(b, os)
    decreases MAX_EXTENSIONS + 1 - |init|
  {
    var at, announcer := EndOf(init), AnnouncerOf(init);
    if |init| == MAX_EXTENSIONS + 1 || !IsExtension(b[announcer]) {
      os := init;
    } else {
      var longer := init + [at + ExtensionLength(b, at)];
      forall i | 0 <= i < |longer| - 1 ensures LinkedAt(b, longer, i) {
        if i < |init| - 1 {
          assert LinkedAt(b, init, i);
          assert longer[i] == init[i] && longer[i + 1] == init[i + 1] && AnnouncedBy(longer, i) == AnnouncedBy(init, i);
        } else {
          assert longer[i] == at && AnnouncedBy(longer, i) == announcer;
        }
      }
      os := WalkedIsChain(b, longer);
    }
  }

  /** A packet has a chain exactly when its headers fit, and then only one place it leads to. */
  lemma WalkIsChain(b: Bytes)
    requires |b| >= HEADER
    ensures Walk(b, Place(b[6], HEADER, 6), MAX_EXTENSIONS).Some? <==> exists os :: Chain(b, os)
  {
    if Walk(b, Place(b[6], HEADER, 6), MAX_EXTENSIONS).Some? {
      var os := WalkedIsChain(b, [HEADER]);
    }
    if os :| Chain(b, os) { ChainIsWalked(b, os); }
  }

  // ----- what becomes of a packet

  /** A packet of another version comes back as it is, and an empty one gives nothing. */
  lemma OtherVersionPasses(t: Table, packet: Bytes, now: nat, maxRuns: nat)
    requires TableOk(t) && (packet == [] || packet[0] / 16 != 6)
    ensures Accept(t, packet, now, maxRuns) == (t, if packet == [] then None else Some(packet))
  {}

  /** A packet whose chain does not lead to a fragment header comes back as its announced bytes. */
  lemma PlainPasses(t: Table, packet: Bytes, os: seq<nat>, now: nat, maxRuns: nat)
    requires TableOk(t) && packet != [] && packet[0] / 16 == 6 && Checked(packet)
    requires Chain(Announced(packet), os) && Announced(packet)[AnnouncerOf(os)] != FRAGMENT
    ensures Accept(t, packet, now, maxRuns) == (t, Some(Announced(packet)))
  {
    hide Walk, Chain;
    ChainIsWalked(Announced(packet), os);
  }

  /** The packets that are dropped unseen: cut short, with headers that do not fit, or with a bad fragment header. */
  ghost predicate Unreadable(packet: Bytes)
    requires packet != [] && packet[0] / 16 == 6
  {
    || |packet| < HEADER || |packet| < HEADER + PayloadLength(packet)
    || (forall os :: !Chain(Announced(packet), os))
    || (exists os :: Chain(Announced(packet), os) && Announced(packet)[AnnouncerOf(os)] == FRAGMENT
                     && (|Announced(packet)| < EndOf(os) + 8 || Announced(packet)[EndOf(os)] == FRAGMENT))
  }

  lemma UnreadableDropped(t: Table, packet: Bytes, now: nat, maxRuns: nat)
    requires TableOk(t) && packet != [] && packet[0] / 16 == 6 && Unreadable(packet)
    ensures Accept(t, packet, now, maxRuns) == (t, None)
  {
    if Checked(packet) {
      var b := Announced(packet);
      WalkIsChain(b);
      if os :| Chain(b, os) && b[AnnouncerOf(os)] == FRAGMENT && (|b| < EndOf(os) + 8 || b[EndOf(os)] == FRAGMENT) {
        ChainIsWalked(b, os);
      }
      hide Walk, Chain;
    }
  }

  /** The fields of a readable fragment header at `o`. */
  predicate FragmentAt(b: Bytes, o: nat) { o + 8 <= |b| && b[o] != FRAGMENT }

  lemma AtomicRead(packet: Bytes, os: seq<nat>)
    requires packet != [] && packet[0] / 16 == 6 && Checked(packet)
    requires Chain(Announced(packet), os) && Announced(packet)[AnnouncerOf(os)] == FRAGMENT
    requires var b, o := Announced(packet), EndOf(os);
      FragmentAt(b, o) && Be16(b, o + 2) / 8 == 0 && b[o + 3] % 2 == 0
    ensures AnnouncerOf(os) < EndOf(os) && HEADER <= EndOf(os)
    ensures var b, o := Announced(packet), EndOf(os);
      Classify(packet) == Atomic(Unfragmented(b[..o], AnnouncerOf(os), b[o], b[o + 8..]))
  {
    hide Walk, PutBe16, Be16, Unfragmented;
    ChainIsWalked(Announced(packet), os);
  }

  /**
  A fragment with offset zero and no more to come is unwrapped: the fragment header goes, the
  header that announced it announces what it announced, and the length field is that of the rest.
  */
  lemma AtomicUnwraps(t: Table, packet: Bytes, os: seq<nat>, now: nat, maxRuns: nat)
    requires TableOk(t) && packet != [] && packet[0] / 16 == 6 && Checked(packet)
    requires Chain(Announced(packet), os) && Announced(packet)[AnnouncerOf(os)] == FRAGMENT
    requires var b, o := Announced(packet), EndOf(os);
      FragmentAt(b, o) && Be16(b, o + 2) / 8 == 0 && b[o + 3] % 2 == 0
    ensures AnnouncerOf(os) < EndOf(os) && HEADER <= EndOf(os)
    ensures var r := Accept(t, packet, now, maxRuns); var b, o := Announced(packet), EndOf(os);
      && r.0 == t && r.1.Some? && |r.1.value| == |b| - 8 && r.1.value[o..] == b[o + 8..]
      && r.1.value[..o] == PutBe16(b[..o][AnnouncerOf(os) := b[o]], 4, |b| - 8 - HEADER)
  {
    hide Classify, PutBe16, Be16, Unfragmented;
    var b, o := Announced(packet), EndOf(os);
    AtomicRead(packet, os);
    UnfragmentedShape(b[..o], AnnouncerOf(os), b[o], b[o + 8..]);
  }

  /** Any other readable fragment is offered to its datagram, with the fields of its headers. */
  lemma OtherFragmentOffered(t: Table, packet: Bytes, os: seq<nat>, now: nat, maxRuns: nat)
    requires TableOk(t) && packet != [] && packet[0] / 16 == 6 && Checked(packet)
    requires Chain(Announced(packet), os) && Announced(packet)[AnnouncerOf(os)] == FRAGMENT
    requires var b, o := Announced(packet), EndOf(os);
      FragmentAt(b, o) && !(Be16(b, o + 2) / 8 == 0 && b[o + 3] % 2 == 0)
    ensures var b, o := Announced(packet), EndOf(os);
      var f := Fragment(Key(b[8..24], b[24..40], Be32(b, o + 4)), b[..o], AnnouncerOf(os), b[o],
                        Be16(b, o + 2) / 8 * 8, b[o + 3] % 2 == 1, b[o + 8..]);
      f.WellFormed() && Accept(t, packet, now, maxRuns) == AcceptPart(t, f, now, maxRuns)
  {
    hide Walk, Chain, Be16, Be32, AcceptPart, Unfragmented;
    ChainIsWalked(Announced(packet), os);
    assert Classify(packet).Part?;
  }
}
