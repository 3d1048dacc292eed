/**
The fake-IP table as a plain recency list: the reference that `FakeIp` (hash maps, use
stamps and a lazily cleaned queue) is proved to refine, and over which whole runs are
stated.
*/
module FakeIpSpec {
  import opened Common
  import opened Addresses
  import opened CursorWalk

  const FAKE_CAPACITY: nat := 32768

  datatype Mapping = Mapping(name: string, ip: IpAddr)

  /** The resolver settings the table depends on; `validName` stands for the wire-name parser. */
  datatype Config = Config(net4: Network, net6: Network, validName: string -> bool) {
    /** A v6 range with prefix 0 is outside the model: its last offset is the largest u128. */
    ghost predicate Valid() {
      && net4.Valid() && !net4.v6
      && net6.Valid() && net6.v6 && net6.prefix >= 1
    }

    function Net(v6: bool): Network { if v6 then net6 else net4 }
  }

  /** Mappings from least to most recently queried, one cursor per family. */
  datatype Fake = Fake(recency: seq<Mapping>, next4: nat, next6: nat, capacity: nat, generation: nat) {
    function Next(v6: bool): nat { if v6 then next6 else next4 }

    function WithNext(v6: bool, next: nat): Fake {
      if v6 then this.(next6 := next) else this.(next4 := next)
    }
  }

  function Empty(capacity: nat): Fake { Fake([], FIRST_OFFSET, FIRST_OFFSET, capacity, 0) }

  // ----- the pool of one family

  /** Last usable offset: v4 leaves out the broadcast address, v6 does not. */
  function LastOffset(net: Network): nat
    requires net.prefix <= Width(net.v6)
  {
    if net.v6 then net.Size() - 1 else if net.Size() < 2 then 0 else net.Size() - 2
  }

  function Address(net: Network, offset: nat): IpAddr
    requires net.prefix <= Width(net.v6)
  {
    Ip(net.v6, net.Base() + offset)
  }

  ghost predicate Usable(net: Network, offset: nat)
    requires net.prefix <= Width(net.v6)
  {
    FIRST_OFFSET <= offset <= LastOffset(net)
  }

  /** `ip` is one of the addresses the pool of its family may hand out. */
  ghost predicate InPool(cfg: Config, ip: IpAddr)
    requires cfg.Valid()
  {
    exists offset: nat :: Usable(cfg.Net(ip.V6?), offset) && ip == Address(cfg.Net(ip.V6?), offset)
  }

  function Ips(recency: seq<Mapping>): set<IpAddr> { set m | m in recency :: m.ip }

  /** At most one mapping per (name, family) and per address. */
  ghost predicate OneToOne(recency: seq<Mapping>) {
    forall i, j :: 0 <= i < j < |recency| ==>
      && recency[i].ip != recency[j].ip
      && (recency[i].name != recency[j].name || recency[i].ip.V6? != recency[j].ip.V6?)
  }

  ghost predicate Sound(cfg: Config, st: Fake)
    requires cfg.Valid()
  {
    && OneToOne(st.recency)
    && (forall i :: 0 <= i < |st.recency| ==> InPool(cfg, st.recency[i].ip))
    && (forall v6: bool :: CursorOk(cfg.Net(v6), st.Next(v6)))
  }

  ghost predicate Coherent(cfg: Config, st: Fake)
    requires cfg.Valid()
  {
    Sound(cfg, st) && 1 <= st.capacity && |st.recency| <= st.capacity
  }

  /** Cursors stay at or one past the usable offsets, so they never leave their integer type. */
  ghost predicate CursorOk(net: Network, next: nat)
    requires net.prefix <= Width(net.v6)
  {
    FIRST_OFFSET <= next <= Max(LastOffset(net), 1) + 1
  }

  /** The cursor of a pool always fits the integer that holds it, unless the pool is the whole v6 address space. */
  lemma CursorFits(net: Network)
    requires net.prefix <= Width(net.v6)
    ensures (forall next: nat :: CursorOk(net, next) ==> next < Pow2(if net.v6 then 128 else 64)) <==>
            !net.v6 || net.prefix >= 1
  {
    hide Pow2;
    WordSizes();
    forall next: nat | CursorOk(net, next) ensures next <= Max(net.Size(), 2) {}
    if net.v6 {
      Pow2Grows(128 - net.prefix, 128);
      assert net.prefix == 0 ==> CursorOk(net, Pow2(128));
    } else {
      Pow2Grows(32 - net.prefix, 32);
    }
  }

  lemma WordSizes()
    ensures 2 < Pow2(32) < Pow2(64) < Pow2(128)
  {
    assert Pow2(2) == 4;
    hide Pow2;
    Pow2Grows(2, 32);
    Pow2Grows(32, 64);
    Pow2Grows(64, 128);
  }

  // ----- recency operations

  /** Position of the mapping of (host, family), or the length when there is none. */
  function IndexOf(recency: seq<Mapping>, host: string, v6: bool): (i: nat)
    ensures i <= |recency|
    ensures i < |recency| ==> recency[i].name == host && recency[i].ip.V6? == v6
    ensures forall j :: 0 <= j < i ==> !(recency[j].name == host && recency[j].ip.V6? == v6)
  {
    if recency == [] then 0
    else if recency[0].name == host && recency[0].ip.V6? == v6 then 0
    else 1 + IndexOf(recency[1..], host, v6)
  }

  function Touch<T>(s: seq<T>, i: nat): seq<T>
    requires i < |s|
  {
    s[..i] + s[i + 1..] + [s[i]]
  }

  function Evict(st: Fake): Fake {
    if st.recency == [] then st
    else st.(recency := st.recency[1..], generation := st.generation + 1)
  }

  function Insert(st: Fake, m: Mapping): Fake {
    st.(recency := st.recency + [m], generation := st.generation + 1)
  }

  /** Drops the least recent mappings past the capacity. */
  function Trim(st: Fake): Fake
    decreases |st.recency|
  {
    if |st.recency| > st.capacity then Trim(Evict(st)) else st
  }

  lemma {:induction false} TrimKeepsMostRecent(st: Fake)
    ensures |st.recency| <= st.capacity ==> Trim(st) == st
    ensures |st.recency| > st.capacity ==>
      var drop := |st.recency| - st.capacity;
      Trim(st) == st.(recency := st.recency[drop..], generation := st.generation + drop)
    decreases |st.recency|
  {
    TrimStep(st);
    if |st.recency| <= st.capacity {
    } else {
      var drop := |st.recency| - st.capacity;
      var rest := Evict(st);
      TailOfTail(st.recency, drop);
      TrimKeepsMostRecent(rest);
      hide Trim, Evict;
      if drop == 1 {
        assert Trim(rest) == rest;
      } else {
        assert Trim(rest) == rest.(recency := rest.recency[drop - 1..], generation := rest.generation + (drop - 1));
      }
    }
  }

  lemma TailOfTail<T>(s: seq<T>, n: nat)
    requires 1 <= n <= |s|
    ensures s[1..][n - 1..] == s[n..]
  {}

  lemma TrimStep(st: Fake)
    ensures Trim(st) == if |st.recency| > st.capacity then Trim(Evict(st)) else st
  {}

  // ----- allocation

  /** The offsets a search looked at, where the cursor ends up, and whether the last one is free. */
  datatype Search = Search(visits: seq<nat>, next: nat, found: bool)

  function Scan(used: set<IpAddr>, net: Network, next: nat, tries: nat): (w: Search)
    requires net.prefix <= Width(net.v6)
    ensures w.found ==> w.visits != []
    decreases tries
  {
    if tries == 0 then Search([], next, false)
    else
      var offset := Probe(next, LastOffset(net));
      if Address(net, offset) !in used then Search([offset], offset + 1, true)
      else
        var w := Scan(used, net, offset + 1, tries - 1);
        Search([offset] + w.visits, w.next, w.found)
  }

  lemma ScanStep(used: set<IpAddr>, net: Network, next: nat, tries: nat)
    requires net.prefix <= Width(net.v6) && tries > 0
    ensures var offset := Probe(next, LastOffset(net));
      var w := Scan(used, net, offset + 1, tries - 1);
      Scan(used, net, next, tries) ==
        if Address(net, offset) !in used then Search([offset], offset + 1, true)
        else Search([offset] + w.visits, w.next, w.found)
  {}

  /** What one query did: the new table, the answer, and the offsets its family's cursor visited. */
  datatype Outcome = Outcome(st: Fake, answer: Option<IpAddr>, visits: seq<nat>)

  function Allocate(cfg: Config, st: Fake, v6: bool): Outcome
    requires cfg.net4.prefix <= Width(cfg.net4.v6) && cfg.net6.prefix <= Width(cfg.net6.v6)
  {
    var net := cfg.Net(v6);
    if LastOffset(net) < FIRST_OFFSET then Outcome(st, None, [])
    else
      var w := Scan(Ips(st.recency), net, st.Next(v6), |st.recency| + 1);
      Outcome(st.WithNext(v6, w.next),
              if w.found then Some(Address(net, w.visits[|w.visits| - 1])) else None,
              w.visits)
  }

  /** The table after making room for a new name. */
  function Room(st: Fake): Fake { if |st.recency| >= st.capacity then Evict(st) else st }

  function Query(cfg: Config, st: Fake, host: string, v6: bool): Outcome
    requires cfg.net4.prefix <= Width(cfg.net4.v6) && cfg.net6.prefix <= Width(cfg.net6.v6)
  {
    if !cfg.validName(host) then Outcome(st, None, [])
    else
      var i := IndexOf(st.recency, host, v6);
      if i < |st.recency| then
        Outcome(st.(recency := Touch(st.recency, i)), Some(st.recency[i].ip), [])
      else
        var out := Allocate(cfg, Room(st), v6);
        if out.answer.None? then out
        else Outcome(Insert(out.st, Mapping(host, out.answer.value)), out.answer, out.visits)
  }

  function SetCapacity(st: Fake, capacity: nat): Fake {
    Trim(st.(capacity := Max(capacity, 1)))
  }

  // ----- the search is exact

  /** All visits but a successful last one found their address mapped. */
  ghost predicate SearchOk(used: set<IpAddr>, net: Network, next: nat, w: Search)
    requires net.prefix <= Width(net.v6)
  {
    && StepOk(next, w.visits, w.next, LastOffset(net))
    && CursorOk(net, w.next)
    && (w.visits == [] ==> !w.found)
    && (w.visits != [] ==> (w.found <==> Address(net, w.visits[|w.visits| - 1]) !in used))
    && (forall i :: 0 <= i < |w.visits| - 1 ==> Address(net, w.visits[i]) in used)
  }

  lemma {:induction false} ScanWalk(used: set<IpAddr>, net: Network, next: nat, tries: nat)
    requires net.prefix <= Width(net.v6) && LastOffset(net) >= FIRST_OFFSET && CursorOk(net, next)
    ensures var w := Scan(used, net, next, tries);
      SearchOk(used, net, next, w) && |w.visits| <= tries && (!w.found ==> |w.visits| == tries)
    decreases tries
  {
    hide SearchOk, Scan, LastOffset, Address;
    if tries == 0 {
      EmptySearch(used, net, next);
    } else {
      var offset := Probe(next, LastOffset(net));
      ScanStep(used, net, next, tries);
      if Address(net, offset) in used {
        ScanWalk(used, net, offset + 1, tries - 1);
        MissThenSearch(used, net, next, Scan(used, net, offset + 1, tries - 1));
      } else {
        FoundAtOnce(used, net, next);
      }
    }
  }

  lemma EmptySearch(used: set<IpAddr>, net: Network, next: nat)
    requires net.prefix <= Width(net.v6) && CursorOk(net, next)
    ensures Scan(used, net, next, 0) == Search([], next, false)
    ensures SearchOk(used, net, next, Search([], next, false))
  {}

  lemma FoundAtOnce(used: set<IpAddr>, net: Network, next: nat)
    requires net.prefix <= Width(net.v6) && LastOffset(net) >= FIRST_OFFSET && CursorOk(net, next)
    requires Address(net, Probe(next, LastOffset(net))) !in used
    ensures var offset := Probe(next, LastOffset(net)); SearchOk(used, net, next, Search([offset], offset + 1, true))
  {
    hide LastOffset, Address;
  }

  /** A search from just past a mapped address, with the visit of that address put before it. */
  lemma MissThenSearch(used: set<IpAddr>, net: Network, next: nat, w: Search)
    requires net.prefix <= Width(net.v6) && LastOffset(net) >= FIRST_OFFSET && CursorOk(net, next)
    requires var offset := Probe(next, LastOffset(net));
      Address(net, offset) in used && SearchOk(used, net, offset + 1, w)
    ensures SearchOk(used, net, next, Search([Probe(next, LastOffset(net))] + w.visits, w.next, w.found))
  {
    hide LastOffset, Address;
    var offset := Probe(next, LastOffset(net));
    var v := [offset] + w.visits;
    CyclicAppend([offset], w.visits, LastOffset(net));
    hide Cyclic;
    if w.visits != [] { assert v[|v| - 1] == w.visits[|w.visits| - 1]; }
    forall i | 0 <= i < |v| - 1 ensures Address(net, v[i]) in used {
      if i > 0 { assert v[i] == w.visits[i - 1]; }
    }
  }

  /** The pigeonhole step: `|used| + 1` probes cannot all miss while a usable offset is free. */
  lemma ScanExact(used: set<IpAddr>, net: Network, next: nat, tries: nat)
    requires net.prefix <= Width(net.v6) && LastOffset(net) >= FIRST_OFFSET && CursorOk(net, next)
    requires tries > |used|
    ensures Scan(used, net, next, tries).found <==>
            exists offset: nat :: Usable(net, offset) && Address(net, offset) !in used
  {
    ScanWalk(used, net, next, tries);
    var w := Scan(used, net, next, tries);
    var last := LastOffset(net);
    if w.found {
      var offset := w.visits[|w.visits| - 1];
      assert Usable(net, offset) && Address(net, offset) !in used;
    } else {
      forall offset: nat | Usable(net, offset)
        ensures Address(net, offset) in used
      {
        if tries < (last - 1) {
          Crowded(used, net, w.visits);
        } else {
          var k := if offset >= w.visits[0] then offset - w.visits[0] else offset - w.visits[0] + (last - 1);
          CyclicStep(w.visits, last, 0, k);
        }
      }
    }
  }

  /** Fewer probes than the pool are pairwise different, so they need as many used addresses. */
  lemma Crowded(used: set<IpAddr>, net: Network, v: seq<nat>)
    requires net.prefix <= Width(net.v6) && LastOffset(net) >= FIRST_OFFSET
    requires Cyclic(v, LastOffset(net)) && |v| < LastOffset(net) - 1
    requires forall i :: 0 <= i < |v| ==> Address(net, v[i]) in used
    ensures |v| <= |used|
  {
    var ips := seq(|v|, i requires 0 <= i < |v| => Address(net, v[i]));
    forall i, j | 0 <= i < j < |ips| ensures ips[i] != ips[j] {
      CyclicStep(v, LastOffset(net), i, j - i);
    }
    DistinctSize(ips);
    SubsetSize((set x | x in ips), used);
  }

  lemma {:induction false} IpsSize(recency: seq<Mapping>)
    requires OneToOne(recency)
    ensures |Ips(recency)| == |recency|
  {
    var ips := seq(|recency|, i requires 0 <= i < |recency| => recency[i].ip);
    DistinctSize(ips);
    assert (set x | x in ips) == Ips(recency) by {
      forall m | m in recency ensures m.ip in ips {
        var i :| 0 <= i < |recency| && recency[i] == m;
        assert ips[i] == m.ip;
      }
    }
  }

  /**
  Allocation succeeds exactly when the pool of the asked family has a free usable address,
  although the probe count is the number of mappings of both families plus one. The address
  it returns is free, in the network and outside the reserved offsets, and fits its family.
  */
  lemma AllocateExact(cfg: Config, st: Fake, v6: bool)
    requires cfg.Valid() && OneToOne(st.recency) && CursorOk(cfg.Net(v6), st.Next(v6))
    ensures var net := cfg.Net(v6); var out := Allocate(cfg, st, v6);
      && (out.answer.Some? <==> exists offset: nat :: Usable(net, offset) && Address(net, offset) !in Ips(st.recency))
      && CursorOk(net, out.st.Next(v6))
      && out.st == st.WithNext(v6, out.st.Next(v6))
      && (out.answer.Some? ==>
            && out.answer.value !in Ips(st.recency)
            && out.answer.value.V6? == v6
            && InPool(cfg, out.answer.value)
            && net.Contains(out.answer.value)
            && out.answer.value.Fits())
  {
    hide Pow2, OneToOne, Scan;
    var net := cfg.Net(v6);
    IpsSize(st.recency);
    if LastOffset(net) >= FIRST_OFFSET {
      var tries := |st.recency| + 1;
      ScanExact(Ips(st.recency), net, st.Next(v6), tries);
      ScanWalk(Ips(st.recency), net, st.Next(v6), tries);
      var w := Scan(Ips(st.recency), net, st.Next(v6), tries);
      if w.found {
        var offset := w.visits[|w.visits| - 1];
        assert Usable(net, offset);
        OffsetFits(net, offset);
      }
    }
  }
}
