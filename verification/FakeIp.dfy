/**
The fake-IP allocator: hash maps in both directions, a queue of use stamps cleaned lazily,
and one cursor per family. Every method is proved to do to the recency list what `FakeIpSpec`
says.
*/
module FakeIp {
  import opened Common
  import opened Addresses
  import opened CursorWalk
  import opened FakeIpSpec
  import opened FakeIpTables
  import opened FakeIpImport
  import FakeIpAnswers
  import FakeIpRuns

  const COMPACT_FLOOR: nat := 64

  class FakeMap {
    var byName: map<Key, (IpAddr, nat)>
    var byIp: map<IpAddr, string>
    var order: seq<(IpAddr, nat)>
    var stamp: nat
    var next4: nat
    var next6: nat
    var capacity: nat
    var generation: nat

    /** The mapped names with their latest stamps, least recently queried first. */
    ghost var live: seq<Entry>
    /** The largest capacity this map ever had. */
    ghost var peak: nat

    ghost predicate Valid()
      reads this
    {
      && Inv(byName, byIp, order, live, stamp)
      && capacity <= peak
      && |order| <= 2 * Max(peak, COMPACT_FLOOR) + |live|
    }

    /** The recency list this map stands for. */
    ghost function Abs(): Fake
      reads this
    {
      Fake(Recency(live), next4, next6, capacity, generation)
    }

    constructor (capacity: nat)
      ensures Valid() && Abs() == Empty(capacity) && peak == capacity && order == []
    {
      byName, byIp, order := map[], map[], [];
      stamp, next4, next6 := 0, FIRST_OFFSET, FIRST_OFFSET;
      this.capacity, generation := capacity, 0;
      live, peak := [], capacity;
    }

    method Get(name: string, v6: bool) returns (r: Option<IpAddr>)
      requires Valid()
      modifies this
      ensures Valid() && peak == old(peak)
      ensures var i := IndexOf(old(Abs()).recency, name, v6);
        if i < |old(Abs()).recency| then
          && r == Some(old(Abs()).recency[i].ip)
          && Abs() == old(Abs()).(recency := Touch(old(Abs()).recency, i))
          && |order| <= Max(2 * Max(capacity, COMPACT_FLOOR), |live|)
        else r == None && Abs() == old(Abs()) && order == old(order)
    {
      hide Inv;
      if (name, v6) !in byName {
        InvLookup(byName, byIp, order, live, stamp, (name, v6));
        return None;
      }
      var ip := byName[(name, v6)].0;
      ghost var i := TouchInv(byName, byIp, order, live, stamp, (name, v6));
      live := TouchLive(live, i, stamp + 1);
      stamp := stamp + 1;
      byName := byName[(name, v6) := (ip, stamp)];
      order := order + [(ip, stamp)];
      if |order| > 2 * Max(capacity, COMPACT_FLOOR) {
        Compact();
      }
      r := Some(ip);
    }

    /** Callers insert an unmapped address under a name without one in that family. */
    method Insert(name: string, ip: IpAddr)
      requires Valid() && (name, ip.V6?) !in byName && ip !in byIp
      modifies this
      ensures Valid() && peak == old(peak)
      ensures Abs() == FakeIpSpec.Insert(old(Abs()), Mapping(name, ip))
    {
      hide Inv;
      InsertInv(byName, byIp, order, live, stamp, name, ip);
      live := live + [Entry(name, ip, stamp + 1)];
      stamp := stamp + 1;
      generation := generation + 1;
      order := order + [(ip, stamp)];
      byIp := byIp[ip := name];
      byName := byName[(name, ip.V6?) := (ip, stamp)];
    }

    /** Takes the head off the recency list: pops the queue until an entry is not stale. */
    method Evict()
      requires Valid()
      modifies this
      ensures Valid() && peak == old(peak)
      ensures Abs() == FakeIpSpec.Evict(old(Abs()))
      ensures |order| <= |old(order)| && (old(live) != [] ==> |order| < |old(order)|)
    {
      hide Inv;
      while order != []
        invariant Valid() && Abs() == old(Abs()) && live == old(live) && peak == old(peak)
        invariant |order| <= |old(order)|
        decreases |order|
      {
        var use := order[0];
        PopInv(byName, byIp, order, live, stamp);
        order := order[1..];
        if Current(byName, byIp, use) {
          byName := byName - {(byIp[use.0], use.0.V6?)};
          byIp := byIp - {use.0};
          generation := generation + 1;
          live := live[1..];
          return;
        }
      }
      DrainedIsEmpty(byName, byIp, order, live, stamp);
    }

    /** Replaces the queue by the live entries in stamp order. */
    method Compact()
      requires Inv(byName, byIp, order, live, stamp)
      modifies this`order
      ensures Inv(byName, byIp, order, live, stamp) && |order| == |live|
    {
      hide Inv;
      var sorted := SortedEntries();
      var uses := seq(|sorted|, i requires 0 <= i < |sorted| => (sorted[i].ip, sorted[i].stamp));
      CompactInv(byName, byIp, order, live, stamp, uses);
      order := uses;
    }

    /** Every mapping, sorted by its stamp; the hash map lists them in any order. */
    method SortedEntries() returns (sorted: seq<Entry>)
      requires Inv(byName, byIp, order, live, stamp)
      ensures sorted == live
    {
      hide Inv, Tables, ByStamp, KeyOf;
      sorted := [];
      var keys := byName.Keys;
      StartSorting(byName, byIp, order, live, stamp);
      while keys != {}
        invariant keys <= byName.Keys
        invariant ByStamp(sorted)
        invariant forall e :: e in sorted <==> e in live && KeyOf(e) !in keys
        decreases |keys|
      {
        var k :| k in keys;
        var e := Entry(k.0, byName[k].0, byName[k].1);
        SortStep(byName, byIp, live, sorted, keys, k);
        sorted := InsertSorted(sorted, e);
        keys := keys - {k};
      }
      SortedIsUnique(sorted, live);
    }

    /** The recency list, read off the hash map by sorting its stamps. */
    method Export() returns (r: seq<Mapping>)
      requires Valid()
      ensures r == Abs().recency
    {
      hide Inv;
      var sorted := SortedEntries();
      r := seq(|sorted|, i requires 0 <= i < |sorted| => Mapping(sorted[i].name, sorted[i].ip));
    }

    /** Evicts until the mappings fit the capacity. */
    method Shrink()
      requires Valid()
      modifies this
      ensures Valid() && peak == old(peak)
      ensures Abs() == Trim(old(Abs()))
    {
      hide Inv;
      InvSizes(byName, byIp, order, live, stamp);
      while |byName| > capacity
        invariant Valid() && peak == old(peak) && Trim(Abs()) == Trim(old(Abs()))
        invariant |byName| == |live|
        decreases |live|
      {
        Evict();
        InvSizes(byName, byIp, order, live, stamp);
      }
    }

    /** One probe: the address at the cursor, which moves on; None when the pool has no usable offset. */
    method Advance(net4: Network, net6: Network, v6: bool, ghost cfg: Config) returns (r: Option<IpAddr>)
      requires cfg.Valid() && net4 == cfg.net4 && net6 == cfg.net6
      requires CursorOk(cfg.Net(v6), Abs().Next(v6))
      modifies this`next4, this`next6
      ensures var net, last := cfg.Net(v6), LastOffset(cfg.Net(v6));
        var offset := Probe(old(Abs()).Next(v6), last);
        if last < FIRST_OFFSET then r == None && Abs() == old(Abs())
        else
          && r == Some(Address(net, offset)) && r.value.Fits()
          && Abs() == old(Abs()).WithNext(v6, offset + 1) && CursorOk(net, offset + 1)
    {
      hide Inv, Scan;
      if v6 {
        // The first two offsets are never handed out; the last one of a v6 range is.
        var last := Pow2(128 - net6.prefix) - 1;
        if last < FIRST_OFFSET {
          return None;
        }
        if next6 > last {
          next6 := FIRST_OFFSET;
        }
        OffsetFits(net6, next6);
        r := Some(V6(net6.Base() + next6));
        next6 := next6 + 1;
      } else {
        // A v4 pool ends one offset earlier, before the broadcast address.
        var size := Pow2(32 - net4.prefix);
        var last := if size < 2 then 0 else size - 2;
        if last < FIRST_OFFSET {
          return None;
        }
        if next4 > last {
          next4 := FIRST_OFFSET;
        }
        // The narrowing of the sum to 32 bits cannot fail.
        OffsetFits(net4, next4);
        r := Some(V4(net4.Base() + next4));
        next4 := next4 + 1;
      }
    }

    /** Probes from the cursor on, one time more than there are mappings, and answers the first free address. */
    method Allocate(net4: Network, net6: Network, v6: bool, ghost cfg: Config) returns (r: Option<IpAddr>)
      requires Valid() && cfg.Valid() && net4 == cfg.net4 && net6 == cfg.net6
      requires CursorOk(cfg.Net(v6), Abs().Next(v6))
      modifies this`next4, this`next6
      ensures Valid()
      ensures var out := FakeIpSpec.Allocate(cfg, old(Abs()), v6); Abs() == out.st && r == out.answer
    {
      hide Inv, Pow2, LastOffset, Address, Ips, Recency, Pending, CursorOk, FakeIpSpec.Allocate, Probe;
      ghost var start, net := Abs(), cfg.Net(v6);
      ghost var next: nat := start.Next(v6);
      ghost var goal := Scan(Ips(start.recency), net, next, |start.recency| + 1);
      ghost var seen: seq<nat> := [];
      InvSizes(byName, byIp, order, live, stamp);
      AllocateIsScan(cfg, start, v6, goal);
      var tries := |byIp| + 1;
      PendingStart(Ips(start.recency), net, next, tries);
      while tries > 0
        modifies this`next4, this`next6
        invariant 0 <= tries <= |byIp| + 1 && (tries < |byIp| + 1 ==> LastOffset(net) >= FIRST_OFFSET)
        invariant CursorOk(net, next) && Abs() == start.WithNext(v6, next)
        invariant tries == |byIp| + 1 ==> next == start.Next(v6)
        invariant Pending(goal, seen, Ips(start.recency), net, next, tries)
        decreases tries
      {
        PendingStep(goal, seen, Ips(start.recency), net, next, tries);
        r := Advance(net4, net6, v6, cfg);
        if r.None? {
          return;
        }
        seen, next := seen + [Probe(next, LastOffset(net))], Probe(next, LastOffset(net)) + 1;
        if r.value !in byIp {
          return;
        }
        tries := tries - 1;
      }
      PendingEnd(goal, seen, Ips(start.recency), net, next);
      r := None;
    }
  }

  lemma AllocateIsScan(cfg: Config, st: Fake, v6: bool, w: Search)
    requires cfg.Valid() && w == Scan(Ips(st.recency), cfg.Net(v6), st.Next(v6), |st.recency| + 1)
    ensures FakeIpSpec.Allocate(cfg, st, v6) ==
      if LastOffset(cfg.Net(v6)) < FIRST_OFFSET then Outcome(st, None, [])
      else Outcome(st.WithNext(v6, w.next),
                   if w.found then Some(Address(cfg.Net(v6), w.visits[|w.visits| - 1])) else None, w.visits)
  {
    hide Scan, Ips;
  }

  /** A search that has seen `seen` and still has `tries` probes from `next` on ends as `goal` says. */
  ghost predicate Pending(goal: Search, seen: seq<nat>, used: set<IpAddr>, net: Network, next: nat, tries: nat)
    requires net.prefix <= Width(net.v6)
  {
    var w := Scan(used, net, next, tries);
    goal == Search(seen + w.visits, w.next, w.found)
  }

  lemma PendingStart(used: set<IpAddr>, net: Network, next: nat, tries: nat)
    requires net.prefix <= Width(net.v6)
    ensures Pending(Scan(used, net, next, tries), [], used, net, next, tries)
  {
    hide Scan;
  }

  lemma PendingStep(goal: Search, seen: seq<nat>, used: set<IpAddr>, net: Network, next: nat, tries: nat)
    requires net.prefix <= Width(net.v6) && tries > 0 && Pending(goal, seen, used, net, next, tries)
    ensures var offset := Probe(next, LastOffset(net));
      if Address(net, offset) in used then Pending(goal, seen + [offset], used, net, offset + 1, tries - 1)
      else goal == Search(seen + [offset], offset + 1, true)
  {
    hide Scan, LastOffset, Address;
    ScanStep(used, net, next, tries);
    var offset := Probe(next, LastOffset(net));
    var w := Scan(used, net, offset + 1, tries - 1);
    assert seen + ([offset] + w.visits) == seen + [offset] + w.visits;
  }

  lemma PendingEnd(goal: Search, seen: seq<nat>, used: set<IpAddr>, net: Network, next: nat)
    requires net.prefix <= Width(net.v6) && Pending(goal, seen, used, net, next, 0)
    ensures goal == Search(seen, next, false)
  {}

  lemma StartSorting(byName: map<Key, (IpAddr, nat)>, byIp: map<IpAddr, string>, order: seq<(IpAddr, nat)>,
                     live: seq<Entry>, stamp: nat)
    requires Inv(byName, byIp, order, live, stamp)
    ensures Tables(byName, byIp, live) && ByStamp(live) && ByStamp([])
    ensures forall e :: e in live ==> KeyOf(e) in byName
  {
    forall e | e in live ensures KeyOf(e) in byName {
      var i :| 0 <= i < |live| && live[i] == e;
      assert KeyOf(live[i]) in byName;
    }
  }

  /** The entry of one more key: live, of a new stamp, and the only live one of its key. */
  lemma SortStep(byName: map<Key, (IpAddr, nat)>, byIp: map<IpAddr, string>, live: seq<Entry>,
                 sorted: seq<Entry>, keys: set<Key>, k: Key)
    requires Tables(byName, byIp, live) && k in keys && keys <= byName.Keys
    requires forall f :: f in sorted <==> f in live && KeyOf(f) !in keys
    ensures var e := Entry(k.0, byName[k].0, byName[k].1);
      && e in live && KeyOf(e) == k && (forall f :: f in live && KeyOf(f) == k ==> f == e)
      && (forall i :: 0 <= i < |sorted| ==> sorted[i].stamp != e.stamp)
  {
    var e := Entry(k.0, byName[k].0, byName[k].1);
    SameKey(byName, byIp, live, e);
    StampsDiffer(byName, byIp, live, sorted, keys, e);
  }

  lemma SameKey(byName: map<Key, (IpAddr, nat)>, byIp: map<IpAddr, string>, live: seq<Entry>, e: Entry)
    requires Tables(byName, byIp, live) && e in live
    ensures forall f :: f in live && KeyOf(f) == KeyOf(e) ==> f == e
  {
    forall f | f in live && KeyOf(f) == KeyOf(e) ensures f == e {
      var i :| 0 <= i < |live| && live[i] == e;
      var j :| 0 <= j < |live| && live[j] == f;
    }
  }

  lemma StampsDiffer(byName: map<Key, (IpAddr, nat)>, byIp: map<IpAddr, string>, live: seq<Entry>,
                     sorted: seq<Entry>, keys: set<Key>, e: Entry)
    requires Tables(byName, byIp, live) && e in live && KeyOf(e) in keys
    requires forall f :: f in sorted <==> f in live && KeyOf(f) !in keys
    ensures forall i :: 0 <= i < |sorted| ==> sorted[i].stamp != e.stamp
  {
    forall i | 0 <= i < |sorted| ensures sorted[i].stamp != e.stamp {
      assert sorted[i] in live;
      var a :| 0 <= a < |live| && live[a] == e;
      var b :| 0 <= b < |live| && live[b] == sorted[i];
      assert a != b;
    }
  }

  method InsertSorted(s: seq<Entry>, e: Entry) returns (r: seq<Entry>)
    requires ByStamp(s) && forall i :: 0 <= i < |s| ==> s[i].stamp != e.stamp
    ensures ByStamp(r) && forall f :: f in r <==> f in s || f == e
  {
    var i := 0;
    while i < |s| && s[i].stamp < e.stamp
      invariant 0 <= i <= |s|
      invariant forall j :: 0 <= j < i ==> s[j].stamp < e.stamp
    {
      i := i + 1;
    }
    r := s[..i] + [e] + s[i..];
    hide ByStamp;
    InsertedSorted(s, i, e);
    InsertedMembers(s, i, e);
  }

  lemma InsertedSorted(s: seq<Entry>, i: nat, e: Entry)
    requires ByStamp(s) && i <= |s| && (forall j :: 0 <= j < i ==> s[j].stamp < e.stamp)
    requires i < |s| ==> e.stamp < s[i].stamp
    ensures ByStamp(s[..i] + [e] + s[i..])
  {}

  lemma LiveFits(cfg: Config, st: Fake, live: seq<Entry>)
    requires cfg.Valid() && Coherent(cfg, st) && st.recency == Recency(live)
    ensures |live| <= st.capacity
  {}

  /** What an allocation from a coherent table leaves and answers. */
  lemma AllocateFacts(cfg: Config, room: Fake, v6: bool)
    requires cfg.Valid() && Coherent(cfg, room)
    ensures CursorOk(cfg.Net(v6), room.Next(v6))
    ensures var out := FakeIpSpec.Allocate(cfg, room, v6);
      && out.st.recency == room.recency
      && (out.answer.Some? ==> out.answer.value !in Ips(room.recency) && out.answer.value.V6? == v6)
  {
    hide OneToOne, InPool, FakeIpSpec.Allocate, LastOffset;
    AllocateExact(cfg, room, v6);
  }

  lemma RoomHasNone(st: Fake, host: string, v6: bool)
    requires IndexOf(st.recency, host, v6) == |st.recency|
    ensures IndexOf(Room(st).recency, host, v6) == |Room(st).recency|
  {}

  /** The resolver's use of the map. Each method is what happens under one hold of its lock. */
  class Resolver {
    const cfg: Config
    var fake: FakeMap

    ghost predicate Valid()
      reads this, fake
    {
      cfg.Valid() && fake.Valid() && Coherent(cfg, fake.Abs())
    }

    constructor (cfg: Config)
      requires cfg.Valid()
      ensures Valid() && this.cfg == cfg && fresh(fake) && fake.Abs() == Empty(FAKE_CAPACITY)
      ensures fake.peak == FAKE_CAPACITY && fake.order == []
    {
      this.cfg := cfg;
      fake := new FakeMap(FAKE_CAPACITY);
      new;
      assert forall v6: bool :: fake.Abs().Next(v6) == FIRST_OFFSET;
    }

    method FakeAddress(host: string, v6: bool) returns (r: Option<IpAddr>)
      requires Valid()
      modifies fake
      ensures Valid() && fake.peak == old(fake.peak)
      ensures var out := Query(cfg, old(fake.Abs()), host, v6); fake.Abs() == out.st && r == out.answer
      ensures r.Some? ==> r.value.V6? == v6 && Mapping(host, r.value) in fake.Abs().recency
      ensures forall ip: IpAddr ::
        cfg.validName(host) && ip.V6? == v6 && Mapping(host, ip) in old(fake.Abs()).recency ==>
        r == Some(ip)
      ensures |fake.order| <= 2 * Max(fake.peak, COMPACT_FLOOR) + fake.capacity
    {
      hide Inv, Coherent, FakeIpSpec.Allocate, FakeIpSpec.Insert, Touch, Recency, Ips;
      ghost var before := fake.Abs();
      FakeIpRuns.QueryKeeps(cfg, before, host, v6);
      FakeIpAnswers.QueryAnswers(cfg, before, host, v6);
      if !cfg.validName(host) {
        r := None;
      } else {
        r := fake.Get(host, v6);
        if r.None? {
          MakeRoom();
          AllocateFacts(cfg, fake.Abs(), v6);
          r := fake.Allocate(cfg.net4, cfg.net6, v6, cfg);
          if r.Some? {
            InvLookup(fake.byName, fake.byIp, fake.order, fake.live, fake.stamp, (host, v6));
            InvSizes(fake.byName, fake.byIp, fake.order, fake.live, fake.stamp);
            RoomHasNone(before, host, v6);
            fake.Insert(host, r.value);
          }
        }
      }
      LiveFits(cfg, fake.Abs(), fake.live);
    }

    /** Evicts one mapping if the table is full. */
    method MakeRoom()
      requires Valid()
      modifies fake
      ensures Valid() && fake.peak == old(fake.peak) && fake.Abs() == Room(old(fake.Abs()))
      ensures |fake.Abs().recency| < fake.capacity
    {
      hide Inv, Coherent;
      FakeIpRuns.RoomKeeps(cfg, fake.Abs());
      InvSizes(fake.byName, fake.byIp, fake.order, fake.live, fake.stamp);
      if |fake.byName| >= fake.capacity {
        fake.Evict();
      }
    }

    /** Trims the recency list to a new capacity, which is never below one. */
    method SetFakeCapacity(capacity: nat)
      requires Valid()
      modifies fake
      ensures Valid() && fake.Abs() == SetCapacity(old(fake.Abs()), capacity)
      ensures fake.peak == Max(old(fake.peak), fake.capacity) && fake.capacity == Max(capacity, 1)
    {
      hide Inv;
      FakeIpAnswers.ResizeExact(fake.Abs(), capacity);
      FakeIpRuns.ResizeKeeps(cfg, fake.Abs(), capacity);
      fake.capacity := Max(capacity, 1);
      fake.peak := Max(fake.peak, fake.capacity);
      fake.Shrink();
    }

    method ExportFake() returns (r: seq<Mapping>)
      requires Valid()
      ensures r == fake.Abs().recency
    {
      r := fake.Export();
    }

    /** What an import reads first. */
    method Capacity() returns (r: nat)
      requires Valid()
      ensures r == fake.Abs().capacity && r >= 1
    {
      r := fake.capacity;
    }

    /** The name behind a fake address. */
    method Original(ip: IpAddr) returns (r: Option<string>)
      requires Valid()
      ensures r == None <==> ip !in Ips(fake.Abs().recency)
      ensures r.Some? ==> Mapping(r.value, ip) in fake.Abs().recency
    {
      hide Inv;
      InvSizes(fake.byName, fake.byIp, fake.order, fake.live, fake.stamp);
      if ip in fake.byIp {
        r := Some(fake.byIp[ip]);
        InvNameOf(fake.byName, fake.byIp, fake.order, fake.live, fake.stamp, ip);
      } else {
        r := None;
      }
    }

    /**
    Replaces the map by the saved entries; a refused import leaves it alone. `capacity` was read
    under an earlier hold of the lock, and whatever happened to the map since then is replaced.
    */
    method ImportFake(capacity: nat, entries: seq<Mapping>) returns (ok: bool)
      requires Valid() && capacity >= 1
      modifies this
      ensures Valid() && ok == Import(cfg, capacity, entries).Some?
      ensures ok ==> fresh(fake) && fake.peak == capacity && Some(fake.Abs()) == Import(cfg, capacity, entries)
      ensures !ok ==> fake == old(fake)
    {
      hide Inv, Coherent, ImportAll, Trim, Recency;
      if |entries| > FAKE_CAPACITY {
        return false;
      }
      ImportExact(cfg, capacity, entries);
      var loaded := Load(cfg, capacity, entries);
      if loaded == null {
        return false;
      }
      loaded.Shrink();
      loaded.generation := 0;
      fake := loaded;
      ok := true;
    }
  }

  /** A new map with the saved entries, or null when one of them refuses the import. */
  method Load(cfg: Config, capacity: nat, entries: seq<Mapping>) returns (m: FakeMap?)
    requires cfg.Valid()
    ensures m == null <==> ImportAll(cfg, capacity, entries) == None
    ensures m != null ==>
      fresh(m) && m.Valid() && m.peak == capacity && Some(m.Abs()) == ImportAll(cfg, capacity, entries)
  {
    hide Inv;
    var loaded := new FakeMap(capacity);
    for n := 0 to |entries|
      invariant fresh(loaded) && loaded.Valid() && loaded.peak == capacity
      invariant ImportAll(cfg, capacity, entries[..n]) == Some(loaded.Abs())
    {
      assert entries[..n + 1][..n] == entries[..n];
      var ok := LoadEntry(cfg, loaded, entries[n]);
      if !ok {
        RefusedStays(cfg, capacity, entries, n + 1);
        return null;
      }
    }
    assert entries[..|entries|] == entries;
    m := loaded;
  }

  lemma {:induction false} RefusedStays(cfg: Config, capacity: nat, entries: seq<Mapping>, n: nat)
    requires cfg.Valid() && n <= |entries| && ImportAll(cfg, capacity, entries[..n]) == None
    ensures ImportAll(cfg, capacity, entries) == None
    decreases |entries|
  {
    if n == |entries| {
      assert entries[..n] == entries;
    } else {
      var init := entries[..|entries| - 1];
      assert init[..n] == entries[..n];
      RefusedStays(cfg, capacity, init, n);
    }
  }

  method LoadEntry(cfg: Config, m: FakeMap, e: Mapping) returns (ok: bool)
    requires cfg.Valid() && m.Valid()
    modifies m
    ensures ok == ImportEntry(cfg, old(m.Abs()), e).Some? && m.peak == old(m.peak)
    ensures ok ==> m.Valid() && Some(m.Abs()) == ImportEntry(cfg, old(m.Abs()), e)
  {
    hide Inv, InRange, OffsetOf, Normalize, InPool, Usable, Recency, Ips, Pow2;
    var name := Normalize(e.name);
    if !InRange(cfg, e.ip) {
      return true;
    }
    InRangeIsUsable(cfg, e.ip);
    var n := OffsetOf(cfg, e.ip);
    if n < FIRST_OFFSET {
      return false;
    }
    InvLookup(m.byName, m.byIp, m.order, m.live, m.stamp, (name, e.ip.V6?));
    InvSizes(m.byName, m.byIp, m.order, m.live, m.stamp);
    if e.ip.V6? {
      m.next6 := Max(m.next6, n + 1);
    } else {
      m.next4 := Max(m.next4, n + 1);
    }
    if !cfg.validName(name) {
      return true;
    }
    if e.ip in m.byIp || (name, e.ip.V6?) in m.byName {
      return false;
    }
    m.Insert(name, e.ip);
    ok := true;
  }
}
