/** IP addresses and CIDR networks of both families. */
module Addresses {
  import opened Common

  /** `bits` is the address read as one big-endian number. */
  datatype IpAddr = V4(bits: nat) | V6(bits: nat) {
    predicate Fits() { bits < Pow2(Width(V6?)) }
  }

  function Width(v6: bool): nat { if v6 then 128 else 32 }

  function Ip(v6: bool, bits: nat): IpAddr { if v6 then V6(bits) else V4(bits) }

  /** The multiple of `size` at or below `x`. */
  function Floor(x: nat, size: nat): (r: nat)
    requires size > 0
    ensures r <= x < r + size
  {
    x - x % size
  }

  /** A network as `ipnet` holds it: any address of the network and a prefix length. */
  datatype Network = Network(v6: bool, addr: nat, prefix: nat) {
    ghost predicate Valid() {
      prefix <= Width(v6) && addr < Pow2(Width(v6))
    }

    function Size(): nat
      requires prefix <= Width(v6)
    {
      Pow2(Width(v6) - prefix)
    }

    /** The network address: `addr` with the host bits cleared. */
    function Base(): nat
      requires prefix <= Width(v6)
    {
      Floor(addr, Size())
    }

    function Broadcast(): nat
      requires prefix <= Width(v6)
    {
      Base() + Size() - 1
    }

    /** Same family and the same leading `prefix` bits. */
    predicate Contains(ip: IpAddr)
      requires prefix <= Width(v6)
    {
      ip.V6? == v6 && Floor(ip.bits, Size()) == Base()
    }
  }

  lemma FloorIsMultiple(x: nat, size: nat)
    requires size > 0
    ensures Floor(x, size) == x / size * size
  {}

  lemma Scale(a: nat, b: nat, size: nat)
    requires a <= b
    ensures a * size <= b * size
  {}

  /** `Floor` names the block of `size` numbers that holds `x`. */
  lemma FloorUnique(x: nat, y: nat, size: nat)
    requires size > 0
    ensures Floor(x, size) == Floor(y, size) <==> Floor(y, size) <= x < Floor(y, size) + size
  {
    FloorIsMultiple(x, size);
    FloorIsMultiple(y, size);
    var p, q := x / size, y / size;
    assert p < q ==> (p + 1) * size <= q * size by { if p < q { Scale(p + 1, q, size); } }
    assert q < p ==> (q + 1) * size <= p * size by { if q < p { Scale(q + 1, p, size); } }
    assert (p + 1) * size == p * size + size;
    assert (q + 1) * size == q * size + size;
  }

  lemma BlockFits(x: nat, size: nat, blocks: nat, offset: nat)
    requires size > 0 && x < blocks * size && offset < size
    ensures Floor(x, size) + offset < blocks * size
  {
    FloorIsMultiple(x, size);
    var q := x / size;
    assert q >= blocks ==> q * size >= blocks * size by { if q >= blocks { Scale(blocks, q, size); } }
    Scale(q + 1, blocks, size);
    assert (q + 1) * size == q * size + size;
  }

  /** Containment is the interval test from the network to the broadcast address. */
  lemma ContainsIsInterval(net: Network, ip: IpAddr)
    requires net.prefix <= Width(net.v6)
    ensures net.Contains(ip) <==> ip.V6? == net.v6 && net.Base() <= ip.bits <= net.Broadcast()
  {
    FloorUnique(ip.bits, net.addr, net.Size());
  }

  /** Every offset below the size gives an address of the family: no carry out of the top bit. */
  lemma OffsetFits(net: Network, offset: nat)
    requires net.Valid() && offset < net.Size()
    ensures Ip(net.v6, net.Base() + offset).Fits()
    ensures net.Contains(Ip(net.v6, net.Base() + offset))
  {
    var w := Width(net.v6);
    Pow2Sum(net.prefix, w - net.prefix);
    BlockFits(net.addr, Pow2(w - net.prefix), Pow2(net.prefix), offset);
    ContainsIsInterval(net, Ip(net.v6, net.Base() + offset));
  }
}
