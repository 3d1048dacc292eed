/** Restoring saved fake-IP mappings: what an import keeps, refuses and never hands out early. */
module FakeIpImport {
  import opened Common
  import Text
  import opened Addresses
  import opened CursorWalk
  import opened FakeIpSpec
  import opened FakeIpRuns

  /** Saved names lose trailing dots and upper case before they are looked at. */
  function Normalize(name: string): string { Text.Lower(Text.TrimEnd(name, '.')) }

  /** The name without the dots at its end, each letter in lower case and all else as it was. */
  ghost predicate IsNormal(r: string, name: string) {
    && |r| <= |name| && (forall i :: |r| <= i < |name| ==> name[i] == '.') && (r != [] ==> r[|r| - 1] != '.')
    && (forall i :: 0 <= i < |r| && 'A' <= name[i] <= 'Z' ==> r[i] as int == name[i] as int + 32)
    && (forall i :: 0 <= i < |r| && !('A' <= name[i] <= 'Z') ==> r[i] == name[i])
  }

  lemma NormalizedExactly(name: string, r: string)
    ensures r == Normalize(name) <==> IsNormal(r, name)
  {
    var n := Text.TrimEnd(name, '.');
    hide Text.TrimEnd;
    assert forall i :: 0 <= i < |n| ==> n[i] == name[i];
    if IsNormal(r, name) {
      assert |r| == |n|;
    }
  }

  /** Inside the configured range of its family, and not the v4 broadcast address. */
  predicate InRange(cfg: Config, ip: IpAddr)
    requires cfg.net4.prefix <= Width(cfg.net4.v6) && cfg.net6.prefix <= Width(cfg.net6.v6)
  {
    var net := cfg.Net(ip.V6?);
    net.Contains(ip) && (ip.V4? ==> ip.bits != net.Broadcast())
  }

  function OffsetOf(cfg: Config, ip: IpAddr): int
    requires cfg.net4.prefix <= Width(cfg.net4.v6) && cfg.net6.prefix <= Width(cfg.net6.v6)
  {
    ip.bits - cfg.Net(ip.V6?).Base()
  }

  /** One saved entry: None refuses the whole import. */
  function ImportEntry(cfg: Config, st: Fake, e: Mapping): Option<Fake>
    requires cfg.net4.prefix <= Width(cfg.net4.v6) && cfg.net6.prefix <= Width(cfg.net6.v6)
  {
    if !InRange(cfg, e.ip) then Some(st)
    else if OffsetOf(cfg, e.ip) < FIRST_OFFSET then None
    else
      var v6, name := e.ip.V6?, Normalize(e.name);
      var advanced := st.WithNext(v6, Max(st.Next(v6), OffsetOf(cfg, e.ip) + 1));
      if !cfg.validName(name) then Some(advanced)
      else if e.ip in Ips(st.recency) || IndexOf(st.recency, name, v6) < |st.recency| then None
      else Some(Insert(advanced, Mapping(name, e.ip)))
  }

  function ImportAll(cfg: Config, capacity: nat, entries: seq<Mapping>): Option<Fake>
    requires cfg.net4.prefix <= Width(cfg.net4.v6) && cfg.net6.prefix <= Width(cfg.net6.v6)
  {
    if entries == [] then Some(Empty(capacity))
    else
      var n := |entries| - 1;
      var st := ImportAll(cfg, capacity, entries[..n]);
      if st.None? then None else ImportEntry(cfg, st.value, entries[n])
  }

  function Import(cfg: Config, capacity: nat, entries: seq<Mapping>): Option<Fake>
    requires cfg.net4.prefix <= Width(cfg.net4.v6) && cfg.net6.prefix <= Width(cfg.net6.v6)
  {
    if |entries| > FAKE_CAPACITY then None
    else
      var st := ImportAll(cfg, capacity, entries);
      if st.None? then None else Some(Trim(st.value).(generation := 0))
  }

  // ----- what an import keeps

  /** The entries that become mappings: in range and with a usable name, names normalised. */
  function Kept(cfg: Config, entries: seq<Mapping>): seq<Mapping>
    requires cfg.net4.prefix <= Width(cfg.net4.v6) && cfg.net6.prefix <= Width(cfg.net6.v6)
  {
    if entries == [] then []
    else
      var e := entries[|entries| - 1];
      var name := Normalize(e.name);
      Kept(cfg, entries[..|entries| - 1])
      + if InRange(cfg, e.ip) && cfg.validName(name) then [Mapping(name, e.ip)] else []
  }

  ghost predicate NoReserved(cfg: Config, entries: seq<Mapping>)
    requires cfg.Valid()
  {
    forall i :: 0 <= i < |entries| && InRange(cfg, entries[i].ip) ==>
      OffsetOf(cfg, entries[i].ip) >= FIRST_OFFSET
  }

  lemma InRangeIsUsable(cfg: Config, ip: IpAddr)
    requires cfg.Valid() && InRange(cfg, ip)
    ensures OffsetOf(cfg, ip) >= 0
    ensures OffsetOf(cfg, ip) >= FIRST_OFFSET ==>
      var offset: nat := OffsetOf(cfg, ip);
      var net := cfg.Net(ip.V6?);
      Usable(net, offset) && ip == Address(net, offset) && InPool(cfg, ip)
  {
    ContainsIsInterval(cfg.Net(ip.V6?), ip);
    if OffsetOf(cfg, ip) >= FIRST_OFFSET {
      var offset: nat, net := OffsetOf(cfg, ip), cfg.Net(ip.V6?);
      assert Usable(net, offset) && ip == Address(net, offset);
    }
  }

  lemma DuplicateBreaksOneToOne(r: seq<Mapping>, m: Mapping)
    requires OneToOne(r)
    ensures OneToOne(r + [m]) <==> m.ip !in Ips(r) && IndexOf(r, m.name, m.ip.V6?) == |r|
  {
    var s, i := r + [m], IndexOf(r, m.name, m.ip.V6?);
    if m.ip in Ips(r) {
      var k :| 0 <= k < |r| && r[k].ip == m.ip;
      assert s[k].ip == s[|r|].ip;
    } else if i < |r| {
      assert s[i].name == s[|r|].name && s[i].ip.V6? == s[|r|].ip.V6?;
    } else {
      InsertKeeps(r, m.name, m.ip);
    }
  }

  /** One entry: refused exactly when reserved or a duplicate; otherwise it extends the kept list. */
  lemma ImportEntryExact(cfg: Config, st: Fake, e: Mapping)
    requires cfg.Valid() && Sound(cfg, st)
    ensures var name := Normalize(e.name);
      var keep := InRange(cfg, e.ip) && cfg.validName(name);
      var r := ImportEntry(cfg, st, e);
      && (r.Some? <==> && (InRange(cfg, e.ip) ==> OffsetOf(cfg, e.ip) >= FIRST_OFFSET)
                       && (keep ==> OneToOne(st.recency + [Mapping(name, e.ip)])))
      && (r.Some? ==>
            && Sound(cfg, r.value) && r.value.capacity == st.capacity
            && r.value.recency == st.recency + (if keep then [Mapping(name, e.ip)] else [])
            && (forall v6: bool :: st.Next(v6) <= r.value.Next(v6))
            && (InRange(cfg, e.ip) ==> OffsetOf(cfg, e.ip) < r.value.Next(e.ip.V6?)))
  {
    hide Sound, OneToOne, InPool, Usable, InRange, OffsetOf, Normalize, Ips, Address;
    var name, v6 := Normalize(e.name), e.ip.V6?;
    SoundIsOneToOne(cfg, st);
    DuplicateBreaksOneToOne(st.recency, Mapping(name, e.ip));
    if InRange(cfg, e.ip) {
      InRangeIsUsable(cfg, e.ip);
      if OffsetOf(cfg, e.ip) >= FIRST_OFFSET {
        AdvanceKeeps(cfg, st, v6, OffsetOf(cfg, e.ip));
        var advanced := st.WithNext(v6, Max(st.Next(v6), OffsetOf(cfg, e.ip) + 1));
        if OneToOne(st.recency + [Mapping(name, e.ip)]) { AppendKeeps(cfg, advanced, Mapping(name, e.ip)); }
      }
    }
  }

  lemma SoundIsOneToOne(cfg: Config, st: Fake)
    requires cfg.Valid() && Sound(cfg, st)
    ensures OneToOne(st.recency)
  {}

  /** Moving a cursor past a usable offset keeps the table sound and lowers no cursor. */
  lemma AdvanceKeeps(cfg: Config, st: Fake, v6: bool, offset: nat)
    requires cfg.Valid() && Sound(cfg, st) && Usable(cfg.Net(v6), offset)
    ensures var after := st.WithNext(v6, Max(st.Next(v6), offset + 1));
      Sound(cfg, after) && offset < after.Next(v6) && forall f: bool :: st.Next(f) <= after.Next(f)
  {
    hide OneToOne, InPool, LastOffset;
    var after := st.WithNext(v6, Max(st.Next(v6), offset + 1));
    forall f: bool ensures CursorOk(cfg.Net(f), after.Next(f)) && st.Next(f) <= after.Next(f) {
      assert CursorOk(cfg.Net(f), st.Next(f));
    }
  }

  lemma AppendKeeps(cfg: Config, st: Fake, m: Mapping)
    requires cfg.Valid() && Sound(cfg, st) && InPool(cfg, m.ip) && OneToOne(st.recency + [m])
    ensures var after := Insert(st, m); Sound(cfg, after) && forall f: bool :: after.Next(f) == st.Next(f)
  {
    hide OneToOne, InPool, CursorOk;
    assert forall f: bool :: Insert(st, m).Next(f) == st.Next(f);
  }

  /** Acceptable up to the last entry, and the last one neither reserved nor a duplicate. */
  lemma AcceptableStep(cfg: Config, entries: seq<Mapping>)
    requires cfg.Valid() && entries != []
    ensures var init, e := entries[..|entries| - 1], entries[|entries| - 1];
      && (NoReserved(cfg, entries) <==>
            NoReserved(cfg, init) && (InRange(cfg, e.ip) ==> OffsetOf(cfg, e.ip) >= FIRST_OFFSET))
      && Kept(cfg, init) <= Kept(cfg, entries)
      && (OneToOne(Kept(cfg, entries)) ==> OneToOne(Kept(cfg, init)))
  {
    var init := entries[..|entries| - 1];
    assert forall i :: 0 <= i < |init| ==> entries[i] == init[i];
  }

  ghost predicate PastAll(cfg: Config, st: Fake, entries: seq<Mapping>)
    requires cfg.Valid()
  {
    forall i :: 0 <= i < |entries| && InRange(cfg, entries[i].ip) ==>
      OffsetOf(cfg, entries[i].ip) < st.Next(entries[i].ip.V6?)
  }

  /** `st` is what the accepted entries `entries` leave behind. */
  ghost predicate Holds(cfg: Config, capacity: nat, st: Fake, entries: seq<Mapping>)
    requires cfg.Valid()
  {
    && Sound(cfg, st) && st.capacity == capacity
    && st.recency == Kept(cfg, entries)
    && PastAll(cfg, st, entries)
  }

  lemma PastAllStep(cfg: Config, st: Fake, after: Fake, entries: seq<Mapping>)
    requires cfg.Valid() && entries != [] && PastAll(cfg, st, entries[..|entries| - 1])
    requires forall v6: bool :: st.Next(v6) <= after.Next(v6)
    requires var ip := entries[|entries| - 1].ip; InRange(cfg, ip) ==> OffsetOf(cfg, ip) < after.Next(ip.V6?)
    ensures PastAll(cfg, after, entries)
  {
    var init := entries[..|entries| - 1];
    forall i | 0 <= i < |entries| && InRange(cfg, entries[i].ip)
      ensures OffsetOf(cfg, entries[i].ip) < after.Next(entries[i].ip.V6?)
    {
      if i < |init| { assert init[i] == entries[i]; }
    }
  }

  lemma ImportStep(cfg: Config, capacity: nat, st: Fake, entries: seq<Mapping>)
    requires cfg.Valid() && entries != [] && Holds(cfg, capacity, st, entries[..|entries| - 1])
    requires NoReserved(cfg, entries[..|entries| - 1])
    ensures var r := ImportEntry(cfg, st, entries[|entries| - 1]);
      && (r.Some? <==> NoReserved(cfg, entries) && OneToOne(Kept(cfg, entries)))
      && (r.Some? ==> Holds(cfg, capacity, r.value, entries))
  {
    var e := entries[|entries| - 1];
    AcceptableStep(cfg, entries);
    ImportEntryExact(cfg, st, e);
    var r := ImportEntry(cfg, st, e);
    if r.Some? { PastAllStep(cfg, st, r.value, entries); }
  }

  /**
  The entries are accepted exactly when none is in a reserved offset and the kept ones are
  one-to-one; the table then holds the kept entries in their order, and the cursors are past
  every saved in-range address, kept or not.
  */
  lemma {:induction false} ImportAllExact(cfg: Config, capacity: nat, entries: seq<Mapping>)
    requires cfg.Valid()
    ensures var r := ImportAll(cfg, capacity, entries);
      && (r.Some? <==> NoReserved(cfg, entries) && OneToOne(Kept(cfg, entries)))
      && (r.Some? ==> Holds(cfg, capacity, r.value, entries))
    decreases |entries|
  {
    if entries == [] {
      var st := Empty(capacity);
      assert st.Next(false) == st.Next(true) == FIRST_OFFSET;
    } else {
      var init := entries[..|entries| - 1];
      ImportAllExact(cfg, capacity, init);
      var st := ImportAll(cfg, capacity, init);
      if st.Some? {
        ImportStep(cfg, capacity, st.value, entries);
      } else {
        AcceptableStep(cfg, entries);
      }
    }
  }

  /** The last `n` elements, or all of them. */
  function Suffix<T>(s: seq<T>, n: nat): seq<T> { if |s| > n then s[|s| - n..] else s }

  /** An accepted import holds the most recent kept entries up to the capacity, in saved order. */
  lemma ImportExact(cfg: Config, capacity: nat, entries: seq<Mapping>)
    requires cfg.Valid() && capacity >= 1
    ensures var r := Import(cfg, capacity, entries);
      && (r.Some? <==> |entries| <= FAKE_CAPACITY && NoReserved(cfg, entries) && OneToOne(Kept(cfg, entries)))
      && (r.Some? ==>
            && Coherent(cfg, r.value)
            && r.value.recency == Suffix(Kept(cfg, entries), capacity)
            && r.value.capacity == capacity && r.value.generation == 0
            && PastAll(cfg, r.value, entries))
  {
    hide ImportAll, Kept, NoReserved, Coherent, Sound, OneToOne, Trim, PastAll;
    ImportAllExact(cfg, capacity, entries);
    var all := ImportAll(cfg, capacity, entries);
    if all.Some? { TrimmedExact(cfg, all.value, entries); }
  }

  /** Trimming the accepted entries keeps the most recent ones and leaves the cursors where they are. */
  lemma TrimmedExact(cfg: Config, st: Fake, entries: seq<Mapping>)
    requires cfg.Valid() && Sound(cfg, st) && st.capacity >= 1 && PastAll(cfg, st, entries)
    ensures var r := Trim(st).(generation := 0);
      Coherent(cfg, r) && r.recency == Suffix(st.recency, st.capacity) && PastAll(cfg, r, entries)
      && r.capacity == st.capacity
  {
    hide InPool, CursorOk, InRange, OffsetOf;
    TrimKeepsMostRecent(st);
    var r := Trim(st).(generation := 0);
    assert forall v6: bool :: r.Next(v6) == st.Next(v6);
  }

  // ----- saving and restoring

  ghost predicate Restorable(cfg: Config, m: Mapping)
    requires cfg.Valid()
  {
    InPool(cfg, m.ip) && Normalize(m.name) == m.name && cfg.validName(m.name)
  }

  lemma PoolIsInRange(cfg: Config, ip: IpAddr)
    requires cfg.Valid() && InPool(cfg, ip)
    ensures InRange(cfg, ip) && OffsetOf(cfg, ip) >= FIRST_OFFSET
  {
    var net := cfg.Net(ip.V6?);
    var offset: nat :| Usable(net, offset) && ip == Address(net, offset);
    OffsetFits(net, offset);
  }

  lemma EntryKept(cfg: Config, e: Mapping)
    requires cfg.Valid() && Restorable(cfg, e)
    ensures InRange(cfg, e.ip) && OffsetOf(cfg, e.ip) >= FIRST_OFFSET
    ensures cfg.validName(Normalize(e.name)) && Mapping(Normalize(e.name), e.ip) == e
  {
    PoolIsInRange(cfg, e.ip);
  }

  lemma {:induction false} KeptAll(cfg: Config, entries: seq<Mapping>)
    requires cfg.Valid() && forall i :: 0 <= i < |entries| ==> Restorable(cfg, entries[i])
    ensures Kept(cfg, entries) == entries
    decreases |entries|
  {
    hide Restorable, InRange, Normalize;
    if entries == [] {
    } else {
      var n := |entries| - 1;
      KeptAll(cfg, entries[..n]);
      EntryKept(cfg, entries[n]);
      assert entries == entries[..n] + [entries[n]];
    }
  }

  lemma NoneReserved(cfg: Config, entries: seq<Mapping>)
    requires cfg.Valid() && forall i :: 0 <= i < |entries| ==> Restorable(cfg, entries[i])
    ensures NoReserved(cfg, entries)
  {
    hide Restorable, InRange, OffsetOf, Normalize;
    forall i | 0 <= i < |entries| ensures OffsetOf(cfg, entries[i].ip) >= FIRST_OFFSET {
      EntryKept(cfg, entries[i]);
    }
  }

  /**
  The round trip: importing the export of a coherent table with normalised, valid names into a
  resolver of capacity `c` restores exactly its `c` most recent mappings in the same order.
  */
  lemma RoundTrip(cfg: Config, st: Fake, c: nat)
    requires cfg.Valid() && Coherent(cfg, st) && c >= 1 && |st.recency| <= FAKE_CAPACITY
    requires forall i :: 0 <= i < |st.recency| ==> Restorable(cfg, st.recency[i])
    ensures var r := Import(cfg, c, st.recency);
      r.Some? && Coherent(cfg, r.value) && r.value.recency == Suffix(st.recency, c)
  {
    KeptAll(cfg, st.recency);
    NoneReserved(cfg, st.recency);
    ImportExact(cfg, c, st.recency);
  }

  /**
  After an import, a saved in-range address whose mapping was skipped or dropped is not newly
  assigned before its cursor has visited everything up to the end of the pool.
  */
  lemma SavedAddressWaits(cfg: Config, c: nat, entries: seq<Mapping>, states: seq<Fake>, ops: seq<Op>, s: nat, i: nat)
    requires cfg.Valid() && c >= 1 && Run(cfg, states, ops) && s < |ops| && i < |entries|
    requires Import(cfg, c, entries) == Some(states[0])
    requires InRange(cfg, entries[i].ip) && NewlyAssigned(cfg, states[s], ops[s], entries[i].ip)
    ensures var v6 := entries[i].ip.V6?;
      forall o: nat :: states[0].Next(v6) <= o && Usable(cfg.Net(v6), o) ==>
        VisitedDuring(cfg, states, ops, -1, s, v6, o)
  {
    var ip := entries[i].ip;
    ImportExact(cfg, c, entries);
    InRangeIsUsable(cfg, ip);
    BehindCursorWaits(cfg, states, ops, s, OffsetOf(cfg, ip), ip.V6?);
  }

  // ----- the whole v6 address space as a pool

  /** Importing one address two short of the end of a pool puts its cursor on the last offset. */
  lemma ImportNearEnd(cfg: Config, c: nat, name: string, offset: nat)
    requires cfg.net4.Valid() && cfg.net6.Valid() && cfg.net6.v6 && c >= 1
    requires FIRST_OFFSET <= offset < cfg.net6.Size()
    ensures var st := Import(cfg, c, [Mapping(name, Address(cfg.net6, offset))]);
      && st.Some? && st.value.next6 == offset + 1 && st.value.capacity == c
      && st.value.recency <= [Mapping(Normalize(name), Address(cfg.net6, offset))]
  {
    hide Pow2, Normalize;
    OffsetFits(cfg.net6, offset);
    var e := Mapping(name, Address(cfg.net6, offset));
    assert [e][..0] == [];
    assert ImportAll(cfg, c, [e][..0]) == Some(Empty(c));
    assert ImportAll(cfg, c, [e]) == ImportEntry(cfg, Empty(c), e);
    TrimKeepsMostRecent(ImportEntry(cfg, Empty(c), e).value);
  }

  /**
  With the whole v6 address space as the pool, the cursor does outgrow its 128 bits: an import of
  one address near the end, under any name, and then one answered query leave it at 2^128.
  */
  lemma CursorOverflows(cfg: Config, c: nat, name: string, host: string)
    requires cfg.net4.Valid() && cfg.net6.Valid() && cfg.net6.v6 && cfg.net6.prefix == 0 && c >= 1
    requires cfg.validName(host) && host != Normalize(name)
    ensures Pow2(128) >= FIRST_OFFSET + 2
    ensures var st := Import(cfg, c, [Mapping(name, Address(cfg.net6, Pow2(128) - 2))]);
      && st.Some? && st.value.next6 == Pow2(128) - 1
      && var out := Query(cfg, st.value, host, true);
      && out.answer == Some(Address(cfg.net6, Pow2(128) - 1)) && out.st.next6 == Pow2(128)
  {
    hide Pow2, Normalize, Import;
    WordSizes();
    Pow2Grows(32, 64);
    var size := Pow2(128);
    ImportNearEnd(cfg, c, name, size - 2);
    var st := Import(cfg, c, [Mapping(name, Address(cfg.net6, size - 2))]).value;
    var room := Room(st);
    assert Address(cfg.net6, size - 1) !in Ips(room.recency);
    ScanStep(Ips(room.recency), cfg.net6, size - 1, |room.recency| + 1);
  }
}
