/** A fragmented packet comes back: the frames of one packet, offered once each in any order. */
module FragmentRoundTrip {
  import opened Common
  import opened Ipv6Packet
  import opened ReassemblySpec
  import opened ReassemblyRuns
  import opened Fragmenter

  /** A packet cut into several frames: IPv6, its length field exact, more payload than one frame takes. */
  ghost predicate Oversized(b: Bytes, mtu: nat, ident: nat) {
    && |b| >= HEADER && b[0] / 16 == 6 && |b| == HEADER + PayloadLength(b)
    && MIN_MTU <= mtu && |b| <= MAX_PACKET && b[6] in {UDP, TCP, ICMPV6}
    && PayloadLength(b) > Step(mtu) && ident < 0x1_0000_0000
  }

  function Number(b: Bytes, mtu: nat): nat
    requires |b| >= HEADER && mtu >= MIN_MTU
  {
    StepBounds(mtu);
    Count(PayloadLength(b), Step(mtu))
  }

  /** The fragment the `j`th frame carries. */
  function Piece(b: Bytes, mtu: nat, ident: nat, j: nat): Fragment
    requires Checked(b) && mtu >= MIN_MTU && j * Step(mtu) <= PayloadLength(b)
  {
    var at, chunk := j * Step(mtu), Chunk(Payload(b), Step(mtu), j * Step(mtu));
    Fragment(Key(b[8..24], b[24..40], ident), PutBe16(b[..HEADER][6 := FRAGMENT], 4, 8 + |chunk|), 6, b[6],
             at, at + |chunk| < PayloadLength(b), chunk)
  }

  /** Where the pieces are: in order, abutting, all but the last of full size. */
  lemma PieceBounds(b: Bytes, mtu: nat, ident: nat, j: nat)
    requires Oversized(b, mtu, ident) && j < Number(b, mtu)
    ensures Checked(b) && j * Step(mtu) <= PayloadLength(b)
    ensures var f, n := Piece(b, mtu, ident, j), PayloadLength(b);
      && f.start < f.End() <= n
      && (j + 1 < Number(b, mtu) ==> f.more && |f.payload| == Step(mtu) && f.End() == (j + 1) * Step(mtu) < n)
      && (j + 1 == Number(b, mtu) ==> !f.more && f.End() == n)
    ensures Number(b, mtu) >= 2
  {
    StepBounds(mtu);
    var step, n, c := Step(mtu), PayloadLength(b), Number(b, mtu);
    CountBounds(n, step);
    MulBelow(j, c - 1, step);
    assert (j + 1) * step == j * step + step;
    if j + 1 < c { MulBelow(j + 1, c - 1, step); }
    var whole: int := c * step;
    assert c == 1 ==> whole == step;
  }

  lemma HeaderFields(next: byte, offset: nat, more: bool, ident: nat)
    requires offset % 8 == 0 && offset < 65536 && ident < 0x1_0000_0000
    ensures var h := FragmentHeader(next, offset, more, ident);
      && |h| == 8 && h[0] == next && Be16(h, 2) / 8 * 8 == offset && (h[3] % 2 == 1 <==> more) && Be32(h, 4) == ident
  {
    IdentBytes(ident);
    OffsetBytes(offset, if more then 1 else 0);
  }

  lemma OffsetBytes(offset: nat, bit: nat)
    requires offset % 8 == 0 && offset < 65536 && bit < 2
    ensures var field := offset / 8 % 8192 * 8 + bit;
      && (field / 256 % 256 * 256 + field % 256) / 8 * 8 == offset && field % 256 % 2 == bit
  {
    assert offset / 8 * 8 == offset;
  }

  lemma IdentBytes(v: nat)
    requires v < 0x1_0000_0000
    ensures ((v / 0x100_0000 % 256) * 256 + v / 0x1_0000 % 256) * 65536 + (v / 256 % 256) * 256 + v % 256 == v
  {}

  /** Every frame fits the MTU, its offset fits 13 bits, and the reassembler reads back the piece put in. */
  lemma FrameIsPiece(b: Bytes, mtu: nat, ident: nat, j: nat)
    requires Oversized(b, mtu, ident) && j < Number(b, mtu)
    ensures Checked(b) && j * Step(mtu) <= PayloadLength(b)
    ensures var frame := Frame(b, Step(mtu), ident, j * Step(mtu));
      && |frame| <= mtu
      && j * Step(mtu) / 8 < 8192
      && Classify(frame) == Part(Piece(b, mtu, ident, j))
  {
    PieceBounds(b, mtu, ident, j);
    StepBounds(mtu);
    var step := Step(mtu);
    var at := j * step;
    var f := Piece(b, mtu, ident, j);
    OffsetMultiple(j, step);
    HeaderFields(b[6], at, f.more, ident);
    PrefixFields(b, 8 + |f.payload|);
    var h := FragmentHeader(b[6], at, f.more, ident);
    assert Frame(b, step, ident, at) == f.prefix + h + f.payload;
    hide FragmentHeader, Be16, Be32, PutBe16, Frame, Classify, Step, Chunk, Payload;
    FrameReads(f, h);
  }

  lemma PrefixFields(b: Bytes, length: nat)
    requires |b| >= HEADER && length < 65536
    ensures var p := PutBe16(b[..HEADER][6 := FRAGMENT], 4, length);
      && |p| == HEADER && p[0] == b[0] && p[6] == FRAGMENT && Be16(p, 4) == length
      && p[8..24] == b[8..24] && p[24..40] == b[24..40]
  {}

  lemma OffsetMultiple(j: nat, step: nat)
    requires step % 8 == 0
    ensures j * step % 8 == 0
  {
    assert step == 8 * (step / 8);
    assert j * step == 8 * (j * (step / 8));
  }

  /** A frame made of a fixed header, a fragment header and a payload reads as the fragment they describe. */
  lemma FrameReads(f: Fragment, h: Bytes)
    requires |f.prefix| == HEADER && f.previous == 6 && !(f.start == 0 && !f.more) && HeaderOf(f, h)
    requires f.prefix[0] / 16 == 6 && f.prefix[6] == FRAGMENT && Be16(f.prefix, 4) == 8 + |f.payload|
    requires f.key.src == f.prefix[8..24] && f.key.dst == f.prefix[24..40]
    ensures Classify(f.prefix + h + f.payload) == Part(f)
  {
    var p := f.prefix + h + f.payload;
    assert p[..HEADER] == f.prefix && p[HEADER..HEADER + 8] == h && p[HEADER + 8..] == f.payload;
    assert p[8..24] == f.prefix[8..24] && p[24..40] == f.prefix[24..40];
    assert Be16(p, 4) == Be16(f.prefix, 4);
    assert p[HEADER] == h[0] && p[HEADER + 3] == h[3] && Be16(p, HEADER + 2) == Be16(h, 2);
    assert Be32(p, HEADER + 4) == Be32(h, 4);
    assert p[..HEADER + PayloadLength(p)] == p;
    assert Walk(p, Place(p[6], HEADER, 6), MAX_EXTENSIONS) == Some(Place(FRAGMENT, HEADER, 6));
  }

  // ----- the pieces of one packet among each other

  /** The numbering of some of the frames, each at most once. */
  ghost predicate Selection(b: Bytes, mtu: nat, ident: nat, s: seq<nat>) {
    Oversized(b, mtu, ident) && Distinct(s) && forall i :: 0 <= i < |s| ==> s[i] < Number(b, mtu)
  }

  ghost function Pieces(b: Bytes, mtu: nat, ident: nat, s: seq<nat>): (r: seq<Fragment>)
    requires Selection(b, mtu, ident, s)
  {
    seq(|s|, i requires 0 <= i < |s| => PieceBounds(b, mtu, ident, s[i]); Piece(b, mtu, ident, s[i]))
  }

  ghost predicate Fits(f: Fragment, b: Bytes) {
    && |b| >= HEADER && f.WellFormed() && |f.prefix| == HEADER && f.previous == 6 && f.next == b[6]
    && f.payload != [] && (f.more ==> |f.payload| % 8 == 0) && f.End() <= MAX_PACKET - HEADER
  }

  lemma PieceFits(b: Bytes, mtu: nat, ident: nat, j: nat)
    requires Oversized(b, mtu, ident) && j < Number(b, mtu)
    ensures Checked(b) && j * Step(mtu) <= PayloadLength(b)
    ensures Fits(Piece(b, mtu, ident, j), b)
  {
    PieceBounds(b, mtu, ident, j);
    StepBounds(mtu);
    OffsetMultiple(j, Step(mtu));
    if j == 0 { assert j * Step(mtu) == 0; }
  }

  ghost predicate Apart(f: Fragment, g: Fragment) {
    && !Overlap(f, g) && f.key == g.key
    && (!f.more ==> g.more && g.End() < f.End())
    && (!g.more ==> f.more && f.End() < g.End())
  }

  lemma PiecesApart(b: Bytes, mtu: nat, ident: nat, j: nat, k: nat)
    requires Oversized(b, mtu, ident) && j < Number(b, mtu) && k < Number(b, mtu) && j != k
    ensures Checked(b) && j * Step(mtu) <= PayloadLength(b) && k * Step(mtu) <= PayloadLength(b)
    ensures Apart(Piece(b, mtu, ident, j), Piece(b, mtu, ident, k))
  {
    PieceBounds(b, mtu, ident, j);
    PieceBounds(b, mtu, ident, k);
    var step := Step(mtu);
    if j < k { MulBelow(j + 1, k, step); } else { MulBelow(k + 1, j, step); }
    hide Step, Chunk, Payload, PutBe16, PayloadLength, Number;
  }

  /** A further piece of the same packet contradicts nothing. */
  lemma NextIsValid(b: Bytes, mtu: nat, ident: nat, s: seq<nat>, j: nat)
    requires Selection(b, mtu, ident, s + [j])
    ensures Selection(b, mtu, ident, s) && j < Number(b, mtu)
    ensures Checked(b) && j * Step(mtu) <= PayloadLength(b)
    ensures !Invalid(Pieces(b, mtu, ident, s), Piece(b, mtu, ident, j))
    ensures Pieces(b, mtu, ident, s + [j]) == Pieces(b, mtu, ident, s) + [Piece(b, mtu, ident, j)]
  {
    SelectionInit(b, mtu, ident, s, j);
    PieceFits(b, mtu, ident, j);
    var parts, f := Pieces(b, mtu, ident, s), Piece(b, mtu, ident, j);
    forall i | 0 <= i < |s| ensures Fits(parts[i], b) && Apart(parts[i], f) {
      PieceFits(b, mtu, ident, s[i]);
      PiecesApart(b, mtu, ident, s[i], j);
    }
    hide Piece, Oversized, Number, Selection;
    assert Pieces(b, mtu, ident, s + [j]) == parts + [f];
  }

  lemma SelectionInit(b: Bytes, mtu: nat, ident: nat, s: seq<nat>, j: nat)
    requires Selection(b, mtu, ident, s + [j])
    ensures Selection(b, mtu, ident, s) && j < Number(b, mtu) && j !in s
  {
    var all := s + [j];
    assert all[|s|] == j;
    assert forall i :: 0 <= i < |s| ==> all[i] == s[i];
  }

  // ----- which positions are covered

  /** A position inside piece `j` is covered exactly when frame `j` is among those selected. */
  lemma CoveredByOwn(b: Bytes, mtu: nat, ident: nat, s: seq<nat>, j: nat, p: int)
    requires Selection(b, mtu, ident, s) && j < Number(b, mtu)
    requires Checked(b) && j * Step(mtu) <= PayloadLength(b) && Covers(Piece(b, mtu, ident, j), p)
    ensures Covered(Pieces(b, mtu, ident, s), p) <==> j in s
  {
    var parts := Pieces(b, mtu, ident, s);
    if i :| 0 <= i < |s| && s[i] == j { assert Covers(parts[i], p); }
    if Covered(parts, p) {
      var i :| 0 <= i < |parts| && Covers(parts[i], p);
      if s[i] != j {
        PiecesApart(b, mtu, ident, s[i], j);
        assert false;
      }
    }
  }

  /** The frames whose predecessor is not selected: each starts a run. */
  ghost function Heads(s: seq<nat>): set<nat> { set j | j in s && StartsRun(s, j) }

  ghost predicate StartsRun(s: seq<nat>, j: nat) { j == 0 || j - 1 !in s }

  lemma RunsAreHeads(b: Bytes, mtu: nat, ident: nat, s: seq<nat>)
    requires Selection(b, mtu, ident, s)
    ensures |RunStarts(Pieces(b, mtu, ident, s))| == |Heads(s)|
  {
    var parts, step := Pieces(b, mtu, ident, s), Step(mtu);
    forall i | 0 <= i < |s| ensures Covered(parts, parts[i].start - 1) <==> s[i] !in Heads(s) {
      StartOfRun(b, mtu, ident, s, i);
    }
    assert RunStarts(parts) == Scaled(Heads(s), step) by {
      forall i | 0 <= i < |s| ensures parts[i].start == Multiple(s[i], step) {}
      forall j | j in Heads(s) ensures Multiple(j, step) in RunStarts(parts) {
        var i :| 0 <= i < |s| && s[i] == j;
        assert parts[i].start == Multiple(j, step);
      }
    }
    StepBounds(mtu);
    ScaledSize(Heads(s), step);
  }

  lemma StartOfRun(b: Bytes, mtu: nat, ident: nat, s: seq<nat>, i: nat)
    requires Selection(b, mtu, ident, s) && i < |s|
    ensures var parts := Pieces(b, mtu, ident, s); Covered(parts, parts[i].start - 1) <==> s[i] !in Heads(s)
  {
    var parts, j, step := Pieces(b, mtu, ident, s), s[i], Step(mtu);
    if j == 0 {
      assert parts[i].start == 0;
    } else {
      PieceBounds(b, mtu, ident, j - 1);
      assert Piece(b, mtu, ident, j - 1).End() == parts[i].start;
      CoveredByOwn(b, mtu, ident, s, j - 1, parts[i].start - 1);
    }
  }

  ghost function Scaled(h: set<nat>, step: nat): set<int> { set j | j in h :: Multiple(j, step) }

  ghost function Multiple(j: nat, step: nat): int { j * step }

  lemma {:induction false} ScaledSize(h: set<nat>, step: nat)
    requires step > 0
    ensures |Scaled(h, step)| == |h|
  {
    if h == {} {
    } else {
      var j :| j in h;
      var rest := h - {j};
      ScaledSize(rest, step);
      forall k | k in rest ensures Multiple(k, step) != Multiple(j, step) {
        if k < j { MulBelow(k, j, step); } else { MulBelow(j, k, step); }
      }
      hide Multiple;
      assert Scaled(h, step) == Scaled(rest, step) + {Multiple(j, step)};
    }
  }

  /** With a frame missing the datagram is not complete. */
  lemma MissingIsIncomplete(b: Bytes, mtu: nat, ident: nat, s: seq<nat>, j: nat)
    requires Selection(b, mtu, ident, s) && j < Number(b, mtu) && j !in s
    ensures !Complete(Pieces(b, mtu, ident, s))
  {
    var parts := Pieces(b, mtu, ident, s);
    PieceBounds(b, mtu, ident, j);
    var p := Piece(b, mtu, ident, j).start;
    CoveredByOwn(b, mtu, ident, s, j, p);
    TotalIsFinal(parts);
    if Total(parts).Some? {
      var i :| 0 <= i < |parts| && !parts[i].more && Total(parts) == Some(parts[i].End());
      PieceBounds(b, mtu, ident, s[i]);
      assert p < Total(parts).value && !Covered(parts, p);
    }
  }
}
