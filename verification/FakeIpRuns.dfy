/**
Whole runs of the fake-IP table: what every run keeps, and how far apart two hand-outs of
one address are.
*/
module FakeIpRuns {
  import opened Common
  import opened Addresses
  import opened CursorWalk
  import opened FakeIpSpec

  /** One client-visible change: a query for a name and family, or a new capacity. */
  datatype Op = Ask(host: string, v6: bool) | Resize(capacity: nat)

  function Apply(cfg: Config, st: Fake, op: Op): Outcome
    requires cfg.net4.prefix <= Width(cfg.net4.v6) && cfg.net6.prefix <= Width(cfg.net6.v6)
  {
    match op
    case Ask(host, v6) => Query(cfg, st, host, v6)
    case Resize(capacity) => Outcome(SetCapacity(st, capacity), None, [])
  }

  /** `states` are the tables before and after each operation of a run. */
  ghost predicate Run(cfg: Config, states: seq<Fake>, ops: seq<Op>)
    requires cfg.Valid()
  {
    && |states| == |ops| + 1
    && Coherent(cfg, states[0])
    && forall i :: 0 <= i < |ops| ==> states[i + 1] == Apply(cfg, states[i], ops[i]).st
  }

  // ----- every operation keeps the table coherent

  lemma TouchKeeps(r: seq<Mapping>, i: nat)
    requires OneToOne(r) && i < |r|
    ensures OneToOne(Touch(r, i))
    ensures multiset(Touch(r, i)) == multiset(r)
  {
    var t := Touch(r, i);
    forall a, b | 0 <= a < b < |t|
      ensures t[a].ip != t[b].ip && (t[a].name != t[b].name || t[a].ip.V6? != t[b].ip.V6?)
    {
      var a' := if a < i then a else if a == |t| - 1 then i else a + 1;
      var b' := if b < i then b else if b == |t| - 1 then i else b + 1;
      assert t[a] == r[a'] && t[b] == r[b'];
    }
    assert r == r[..i] + [r[i]] + r[i + 1..];
  }

  lemma InsertKeeps(r: seq<Mapping>, host: string, ip: IpAddr)
    requires OneToOne(r) && ip !in Ips(r)
    requires forall j :: 0 <= j < |r| ==> !(r[j].name == host && r[j].ip.V6? == ip.V6?)
    ensures OneToOne(r + [Mapping(host, ip)])
  {
    forall j | 0 <= j < |r| ensures r[j].ip != ip {
      assert r[j] in r;
    }
  }

  lemma RoomKeeps(cfg: Config, st: Fake)
    requires cfg.Valid() && Coherent(cfg, st)
    ensures Coherent(cfg, Room(st)) && |Room(st).recency| < Room(st).capacity
  {
    assert forall v6: bool :: Room(st).Next(v6) == st.Next(v6);
  }

  lemma TouchCoherent(cfg: Config, st: Fake, i: nat)
    requires cfg.Valid() && Coherent(cfg, st) && i < |st.recency|
    ensures Coherent(cfg, st.(recency := Touch(st.recency, i)))
  {
    hide OneToOne, InPool, CursorOk;
    TouchKeeps(st.recency, i);
    var after := st.(recency := Touch(st.recency, i));
    forall j | 0 <= j < |after.recency| ensures InPool(cfg, after.recency[j].ip) {
      assert after.recency[j] in multiset(st.recency);
    }
    assert forall f: bool :: after.Next(f) == st.Next(f);
  }

  lemma AllocateCoherent(cfg: Config, room: Fake, v6: bool)
    requires cfg.Valid() && Coherent(cfg, room)
    ensures Coherent(cfg, Allocate(cfg, room, v6).st)
    ensures Allocate(cfg, room, v6).st.recency == room.recency
    ensures Allocate(cfg, room, v6).st.capacity == room.capacity
  {
    hide OneToOne, InPool, Allocate, CursorOk;
    AllocateExact(cfg, room, v6);
    var after := Allocate(cfg, room, v6).st;
    forall f: bool ensures CursorOk(cfg.Net(f), after.Next(f)) {
      assert f != v6 ==> after.Next(f) == room.Next(f);
    }
  }

  lemma InsertCoherent(cfg: Config, st: Fake, host: string, ip: IpAddr)
    requires cfg.Valid() && Coherent(cfg, st) && |st.recency| < st.capacity && ip !in Ips(st.recency) && InPool(cfg, ip)
    requires forall j :: 0 <= j < |st.recency| ==> !(st.recency[j].name == host && st.recency[j].ip.V6? == ip.V6?)
    ensures Coherent(cfg, Insert(st, Mapping(host, ip)))
  {
    hide OneToOne, InPool, CursorOk;
    InsertKeeps(st.recency, host, ip);
    assert forall f: bool :: Insert(st, Mapping(host, ip)).Next(f) == st.Next(f);
  }

  lemma QueryKeeps(cfg: Config, st: Fake, host: string, v6: bool)
    requires cfg.Valid() && Coherent(cfg, st)
    ensures Coherent(cfg, Query(cfg, st, host, v6).st)
  {
    hide Sound, Allocate, Insert, InPool;
    var i := IndexOf(st.recency, host, v6);
    if !cfg.validName(host) {
    } else if i < |st.recency| {
      TouchCoherent(cfg, st, i);
    } else {
      RoomKeeps(cfg, st);
      var room := Room(st);
      SoundParts(cfg, room, v6);
      AllocateExact(cfg, room, v6);
      AllocateCoherent(cfg, room, v6);
      var out := Allocate(cfg, room, v6);
      if out.answer.Some? { InsertCoherent(cfg, out.st, host, out.answer.value); }
    }
  }

  lemma SoundParts(cfg: Config, st: Fake, v6: bool)
    requires cfg.Valid() && Sound(cfg, st)
    ensures OneToOne(st.recency) && CursorOk(cfg.Net(v6), st.Next(v6))
  {}

  lemma ResizeKeeps(cfg: Config, st: Fake, capacity: nat)
    requires cfg.Valid() && Coherent(cfg, st)
    ensures Coherent(cfg, SetCapacity(st, capacity))
  {
    TrimKeepsMostRecent(st.(capacity := Max(capacity, 1)));
    assert forall f: bool :: SetCapacity(st, capacity).Next(f) == st.Next(f);
  }

  /** In every run the table is one-to-one, within its pools and within its capacity throughout. */
  lemma {:induction false} RunCoherent(cfg: Config, states: seq<Fake>, ops: seq<Op>, n: nat)
    requires cfg.Valid() && Run(cfg, states, ops) && n <= |ops|
    ensures Coherent(cfg, states[n])
    decreases n
  {
    if n == 0 {
    } else {
      RunCoherent(cfg, states, ops, n - 1);
      assert states[n] == Apply(cfg, states[n - 1], ops[n - 1]).st;
      match ops[n - 1]
      case Ask(host, v6) => QueryKeeps(cfg, states[n - 1], host, v6);
      case Resize(capacity) => ResizeKeeps(cfg, states[n - 1], capacity);
    }
  }

  /** So no cursor of a run ever leaves the integer that holds it. */
  lemma RunCursorFits(cfg: Config, states: seq<Fake>, ops: seq<Op>, n: nat)
    requires cfg.Valid() && Run(cfg, states, ops) && n <= |ops|
    ensures states[n].next4 < Pow2(64) && states[n].next6 < Pow2(128)
  {
    hide Pow2, LastOffset, OneToOne, InPool;
    RunCoherent(cfg, states, ops, n);
    CursorFits(cfg.net4);
    CursorFits(cfg.net6);
    assert CursorOk(cfg.Net(false), states[n].Next(false)) && CursorOk(cfg.Net(true), states[n].Next(true));
  }

  // ----- what a visit of the cursor means

  function Visits(cfg: Config, st: Fake, op: Op, v6: bool): seq<nat>
    requires cfg.net4.prefix <= Width(cfg.net4.v6) && cfg.net6.prefix <= Width(cfg.net6.v6)
  {
    if op.Ask? && op.v6 == v6 then Query(cfg, st, op.host, v6).visits else []
  }

  /** The query found no mapping for its name and was answered with the new address `ip`. */
  ghost predicate NewlyAssigned(cfg: Config, st: Fake, op: Op, ip: IpAddr)
    requires cfg.Valid()
  {
    && op.Ask? && op.v6 == ip.V6?
    && IndexOf(st.recency, op.host, op.v6) == |st.recency|
    && Query(cfg, st, op.host, op.v6).answer == Some(ip)
  }

  /** Mapped when the visit happened: before the operation, and still after it. */
  ghost predicate FoundMapped(cfg: Config, st: Fake, op: Op, ip: IpAddr)
    requires cfg.Valid()
  {
    ip in Ips(st.recency) && ip in Ips(Apply(cfg, st, op).st.recency)
  }

  ghost predicate Accounted(cfg: Config, st: Fake, op: Op, v6: bool, offset: nat)
    requires cfg.Valid()
  {
    var ip := Address(cfg.Net(v6), offset);
    NewlyAssigned(cfg, st, op, ip) || FoundMapped(cfg, st, op, ip)
  }

  ghost predicate VisitsOk(cfg: Config, st: Fake, op: Op, after: Fake, v6: bool)
    requires cfg.Valid()
  {
    var v, last := Visits(cfg, st, op, v6), LastOffset(cfg.Net(v6));
    && StepOk(st.Next(v6), v, after.Next(v6), last)
    && (forall i :: 0 <= i < |v| ==> Accounted(cfg, st, op, v6, v[i]))
    && (forall ip: IpAddr :: ip.V6? == v6 && NewlyAssigned(cfg, st, op, ip) ==>
          last >= FIRST_OFFSET && v != [] && ip == Address(cfg.Net(v6), v[|v| - 1]))
  }

  /** A query for an unmapped name is one search from the cursor, then one insertion if it succeeds. */
  lemma FreshQueryIsSearch(cfg: Config, st: Fake, host: string, v6: bool) returns (w: Search)
    requires cfg.Valid() && Coherent(cfg, st) && cfg.validName(host)
    requires IndexOf(st.recency, host, v6) == |st.recency|
    requires LastOffset(cfg.Net(v6)) >= FIRST_OFFSET
    ensures var out := Query(cfg, st, host, v6); var net := cfg.Net(v6);
      && out.visits == w.visits
      && out.st.Next(v6) == w.next
      && out.answer == (if w.found then Some(Address(net, w.visits[|w.visits| - 1])) else None)
      && Room(st).recency <= out.st.recency
    ensures SearchOk(Ips(Room(st).recency), cfg.Net(v6), st.Next(v6), w)
  {
    hide OneToOne, InPool, SearchOk, Scan, Pow2, Address;
    var room := Room(st);
    assert room.Next(v6) == st.Next(v6) && CursorOk(cfg.Net(v6), st.Next(v6));
    ScanWalk(Ips(room.recency), cfg.Net(v6), st.Next(v6), |room.recency| + 1);
    w := Scan(Ips(room.recency), cfg.Net(v6), st.Next(v6), |room.recency| + 1);
  }

  lemma VisitAccounted(cfg: Config, st: Fake, host: string, v6: bool, w: Search, i: nat)
    requires cfg.Valid() && Coherent(cfg, st) && IndexOf(st.recency, host, v6) == |st.recency| && i < |w.visits|
    requires var out := Query(cfg, st, host, v6);
      && out.answer == (if w.found then Some(Address(cfg.Net(v6), w.visits[|w.visits| - 1])) else None)
      && Room(st).recency <= out.st.recency
    requires SearchOk(Ips(Room(st).recency), cfg.Net(v6), st.Next(v6), w)
    ensures Accounted(cfg, st, Ask(host, v6), v6, w.visits[i])
  {
    hide Query, StepOk, CursorOk, Coherent, LastOffset;
    var op, used := Ask(host, v6), Ips(Room(st).recency);
    PrefixIps(Room(st).recency, Query(cfg, st, host, v6).st.recency);
    RoomIps(st);
    var ip := Address(cfg.Net(v6), w.visits[i]);
    assert ip in used ==> FoundMapped(cfg, st, op, ip);
    assert ip !in used ==> NewlyAssigned(cfg, st, op, ip);
  }

  lemma RoomIps(st: Fake)
    ensures Ips(Room(st).recency) <= Ips(st.recency)
  {}

  lemma FreshQueryVisits(cfg: Config, st: Fake, host: string, v6: bool)
    requires cfg.Valid() && Coherent(cfg, st) && cfg.validName(host)
    requires IndexOf(st.recency, host, v6) == |st.recency|
    requires LastOffset(cfg.Net(v6)) >= FIRST_OFFSET
    ensures VisitsOk(cfg, st, Ask(host, v6), Query(cfg, st, host, v6).st, v6)
  {
    hide Query, Coherent, Accounted, Room, LastOffset, Ips;
    var w := FreshQueryIsSearch(cfg, st, host, v6);
    forall i | 0 <= i < |w.visits| ensures Accounted(cfg, st, Ask(host, v6), v6, w.visits[i]) {
      VisitAccounted(cfg, st, host, v6, w, i);
    }
  }

  lemma PrefixIps(a: seq<Mapping>, b: seq<Mapping>)
    requires a <= b
    ensures Ips(a) <= Ips(b)
  {
    forall m | m in a ensures m in b {
      var i :| 0 <= i < |a| && a[i] == m;
      assert b[i] == m;
    }
  }

  lemma StepVisits(cfg: Config, st: Fake, op: Op, v6: bool)
    requires cfg.Valid() && Coherent(cfg, st)
    ensures VisitsOk(cfg, st, op, Apply(cfg, st, op).st, v6)
  {
    hide Coherent, Query, SetCapacity, LastOffset, Accounted;
    match op
    case Resize(capacity) =>
      TrimKeepsCursors(st, capacity, v6);
    case Ask(host, asked) =>
      if cfg.validName(host) && IndexOf(st.recency, host, asked) == |st.recency| && asked == v6
         && LastOffset(cfg.Net(v6)) >= FIRST_OFFSET {
        FreshQueryVisits(cfg, st, host, v6);
      } else {
        OtherQueryStays(cfg, st, host, asked, v6);
      }
  }

  lemma TrimKeepsCursors(st: Fake, capacity: nat, v6: bool)
    ensures SetCapacity(st, capacity).Next(v6) == st.Next(v6)
  {
    TrimKeepsMostRecent(st.(capacity := Max(capacity, 1)));
  }

  /** A query for a mapped or unusable name, of the other family, or of an empty pool, leaves the cursor alone. */
  lemma OtherQueryStays(cfg: Config, st: Fake, host: string, asked: bool, v6: bool)
    requires cfg.Valid()
    requires !(cfg.validName(host) && IndexOf(st.recency, host, asked) == |st.recency| && asked == v6
               && LastOffset(cfg.Net(v6)) >= FIRST_OFFSET)
    ensures Query(cfg, st, host, asked).st.Next(v6) == st.Next(v6)
    ensures asked == v6 ==> Query(cfg, st, host, asked).visits == []
    ensures asked == v6 && IndexOf(st.recency, host, asked) == |st.recency| ==>
      Query(cfg, st, host, asked).answer == None
  {
    hide Scan, LastOffset, Address, Ips, Touch;
    assert Room(st).Next(v6) == st.Next(v6);
  }

  // ----- runs

  /** The visits of every operation of a run, as one walk of the cursor. */
  lemma RunWalk(cfg: Config, states: seq<Fake>, ops: seq<Op>, v6: bool)
    returns (nexts: seq<nat>, steps: seq<seq<nat>>)
    requires cfg.Valid() && Run(cfg, states, ops)
    ensures |steps| == |ops| && WalkOk(nexts, steps, LastOffset(cfg.Net(v6)))
    ensures nexts[0] == states[0].Next(v6)
    ensures forall r :: 0 <= r < |ops| ==> steps[r] == Visits(cfg, states[r], ops[r], v6)
  {
    nexts := seq<nat>(|states|, r requires 0 <= r < |states| => states[r].Next(v6));
    steps := seq<seq<nat>>(|ops|, r requires 0 <= r < |ops| => Visits(cfg, states[r], ops[r], v6));
    forall r | 0 <= r < |ops|
      ensures StepOk(nexts[r], steps[r], nexts[r + 1], LastOffset(cfg.Net(v6)))
    {
      RunStep(cfg, states, ops, r, v6);
    }
  }

  lemma RunStep(cfg: Config, states: seq<Fake>, ops: seq<Op>, r: nat, v6: bool)
    requires cfg.Valid() && Run(cfg, states, ops) && r < |ops|
    ensures VisitsOk(cfg, states[r], ops[r], states[r + 1], v6)
  {
    RunCoherent(cfg, states, ops, r);
    StepVisits(cfg, states[r], ops[r], v6);
  }

  /** Some operation after `from` and up to `to` visited `offset`, and handed it out or found it mapped. */
  ghost predicate VisitedDuring(cfg: Config, states: seq<Fake>, ops: seq<Op>, from: int, to: nat, v6: bool, offset: nat)
    requires cfg.Valid() && Run(cfg, states, ops) && to < |ops|
  {
    exists r :: 0 <= r && from < r <= to && offset in Visits(cfg, states[r], ops[r], v6)
                && Accounted(cfg, states[r], ops[r], v6, offset)
  }

  lemma VisitIsAccounted(cfg: Config, states: seq<Fake>, ops: seq<Op>, from: int, to: nat, v6: bool, offset: nat,
                         steps: seq<seq<nat>>)
    requires cfg.Valid() && Run(cfg, states, ops) && from <= to < |ops| == |steps|
    requires forall r :: 0 <= r < |ops| ==> steps[r] == Visits(cfg, states[r], ops[r], v6)
    requires VisitedIn(steps, from, to, offset)
    ensures VisitedDuring(cfg, states, ops, from, to, v6, offset)
  {
    var r :| 0 <= r && from < r <= to && offset in steps[r];
    RunStep(cfg, states, ops, r, v6);
    var v := Visits(cfg, states[r], ops[r], v6);
    var i :| 0 <= i < |v| && v[i] == offset;
    assert Accounted(cfg, states[r], ops[r], v6, v[i]);
  }

  /** A new assignment is the last visit of its operation. */
  lemma AssignmentIsVisit(cfg: Config, states: seq<Fake>, ops: seq<Op>, s: nat, ip: IpAddr)
    requires cfg.Valid() && Run(cfg, states, ops) && s < |ops| && NewlyAssigned(cfg, states[s], ops[s], ip)
    ensures var v, net := Visits(cfg, states[s], ops[s], ip.V6?), cfg.Net(ip.V6?);
      LastOffset(net) >= FIRST_OFFSET && v != [] && ip == Address(net, v[|v| - 1])
  {
    RunStep(cfg, states, ops, s, ip.V6?);
  }

  /**
  Reuse distance: after one hand-out of an address and up to the next hand-out of the same
  address, every usable offset of its pool was visited, and each was handed out or found
  mapped at that moment.
  */
  lemma ReuseDistance(cfg: Config, states: seq<Fake>, ops: seq<Op>, s: nat, t: nat, ip: IpAddr)
    requires cfg.Valid() && Run(cfg, states, ops) && s < t < |ops|
    requires NewlyAssigned(cfg, states[s], ops[s], ip) && NewlyAssigned(cfg, states[t], ops[t], ip)
    ensures forall o: nat :: Usable(cfg.Net(ip.V6?), o) ==>
              VisitedDuring(cfg, states, ops, s, t, ip.V6?, o)
  {
    hide Query, Apply, Scan, Pow2, LastOffset, Visits, VisitedDuring;
    var net := cfg.Net(ip.V6?);
    var nexts, steps := RunWalk(cfg, states, ops, ip.V6?);
    AssignmentIsVisit(cfg, states, ops, s, ip);
    AssignmentIsVisit(cfg, states, ops, t, ip);
    assert steps[s] == Visits(cfg, states[s], ops[s], ip.V6?);
    assert steps[t] == Visits(cfg, states[t], ops[t], ip.V6?);
    ReturnVisitsAll(nexts, steps, LastOffset(net), s, t);
    forall o: nat | Usable(net, o) ensures VisitedDuring(cfg, states, ops, s, t, ip.V6?, o) {
      VisitIsAccounted(cfg, states, ops, s, t, ip.V6?, o, steps);
    }
  }

  // ----- how many addresses are handed out in between

  /** Some operation after `from` and before `to` newly assigned the address. */
  ghost predicate HandedOut(cfg: Config, states: seq<Fake>, ops: seq<Op>, from: nat, to: nat, ip: IpAddr)
    requires cfg.Valid() && Run(cfg, states, ops) && to <= |ops|
  {
    exists q :: from < q < to && NewlyAssigned(cfg, states[q], ops[q], ip)
  }

  /** A mapping enters the table only by a new assignment. */
  lemma StepMappings(cfg: Config, st: Fake, op: Op, ip: IpAddr)
    requires cfg.Valid() && Coherent(cfg, st) && ip in Ips(Apply(cfg, st, op).st.recency)
    ensures ip in Ips(st.recency) || NewlyAssigned(cfg, st, op, ip)
  {
    hide OneToOne, InPool, CursorOk, Scan, LastOffset, Address;
    match op
    case Resize(capacity) => TrimKeepsMostRecent(st.(capacity := Max(capacity, 1)));
    case Ask(host, v6) =>
      var i := IndexOf(st.recency, host, v6);
      if cfg.validName(host) && i < |st.recency| {
        TouchKeeps(st.recency, i);
        forall m | m in Touch(st.recency, i) ensures m in st.recency { assert m in multiset(st.recency); }
      } else if cfg.validName(host) {
        RoomKeeps(cfg, st);
        RoomIps(st);
        SoundParts(cfg, Room(st), v6);
        AllocateExact(cfg, Room(st), v6);
      }
  }

  lemma {:induction false} MappedWasAssigned(cfg: Config, states: seq<Fake>, ops: seq<Op>, from: nat, r: nat,
                                             ip: IpAddr)
    requires cfg.Valid() && Run(cfg, states, ops) && from < r <= |ops| && ip in Ips(states[r].recency)
    ensures ip in Ips(states[from + 1].recency) || HandedOut(cfg, states, ops, from, r, ip)
    decreases r
  {
    if r == from + 1 {
    } else {
      RunCoherent(cfg, states, ops, r - 1);
      StepMappings(cfg, states[r - 1], ops[r - 1], ip);
      hide Coherent, Apply, NewlyAssigned, Ips;
      if ip in Ips(states[r - 1].recency) {
        MappedWasAssigned(cfg, states, ops, from, r - 1, ip);
        if q :| from < q < r - 1 && NewlyAssigned(cfg, states[q], ops[q], ip) {
          assert from < q < r;
        }
      }
    }
  }

  /** Every usable address not mapped right after the first hand-out is itself handed out before the second. */
  lemma UnmappedIsHandedOut(cfg: Config, states: seq<Fake>, ops: seq<Op>, s: nat, t: nat, ip: IpAddr, o: nat)
    requires cfg.Valid() && Run(cfg, states, ops) && s < t < |ops|
    requires NewlyAssigned(cfg, states[s], ops[s], ip) && NewlyAssigned(cfg, states[t], ops[t], ip)
    requires Usable(cfg.Net(ip.V6?), o) && Address(cfg.Net(ip.V6?), o) !in Ips(states[s + 1].recency)
    ensures HandedOut(cfg, states, ops, s, t, Address(cfg.Net(ip.V6?), o))
  {
    hide Query, Apply, Visits, NewlyAssigned, Ips, Coherent, Usable, Address;
    var v6, other := ip.V6?, Address(cfg.Net(ip.V6?), o);
    AssignedIsMapped(cfg, states, ops, s, ip);
    ReuseDistance(cfg, states, ops, s, t, ip);
    assert VisitedDuring(cfg, states, ops, s, t, v6, o);
    var r :| 0 <= r && s < r <= t && o in Visits(cfg, states[r], ops[r], v6)
             && Accounted(cfg, states[r], ops[r], v6, o);
    if NewlyAssigned(cfg, states[r], ops[r], other) {
      OneAssignment(cfg, states[t], ops[t], ip, other);
    } else {
      MappedWasAssigned(cfg, states, ops, s, r, other);
      var q :| s < q < r && NewlyAssigned(cfg, states[q], ops[q], other);
    }
  }

  lemma OneAssignment(cfg: Config, st: Fake, op: Op, a: IpAddr, b: IpAddr)
    requires cfg.Valid() && NewlyAssigned(cfg, st, op, a)
    ensures NewlyAssigned(cfg, st, op, b) ==> a == b
  {
    hide Query;
  }

  lemma AssignedIsMapped(cfg: Config, states: seq<Fake>, ops: seq<Op>, s: nat, ip: IpAddr)
    requires cfg.Valid() && Run(cfg, states, ops) && s < |ops| && NewlyAssigned(cfg, states[s], ops[s], ip)
    ensures ip in Ips(states[s + 1].recency)
  {
    hide Allocate;
    var after := states[s + 1].recency;
    assert after[|after| - 1].ip == ip;
  }

  /**
  The reuse distance in numbers: between two hand-outs of one address, at least as many other
  addresses are handed out as its pool has beyond the mappings left by the first.
  */
  lemma ReuseCount(cfg: Config, states: seq<Fake>, ops: seq<Op>, s: nat, t: nat, ip: IpAddr)
    returns (others: set<IpAddr>)
    requires cfg.Valid() && Run(cfg, states, ops) && s < t < |ops|
    requires NewlyAssigned(cfg, states[s], ops[s], ip) && NewlyAssigned(cfg, states[t], ops[t], ip)
    ensures |others| >= LastOffset(cfg.Net(ip.V6?)) - 1 - |states[s + 1].recency|
    ensures forall x :: x in others ==> x != ip && HandedOut(cfg, states, ops, s, t, x)
  {
    hide Query, Apply, Visits, NewlyAssigned, Ips, LastOffset, HandedOut, InPool, CursorOk, Usable, Address;
    var net, mapped := cfg.Net(ip.V6?), Ips(states[s + 1].recency);
    AssignmentIsVisit(cfg, states, ops, s, ip);
    AssignedIsMapped(cfg, states, ops, s, ip);
    RunCoherent(cfg, states, ops, s + 1);
    IpsSize(states[s + 1].recency);
    var pool := PoolAddresses(net);
    others := pool - mapped;
    SizeWithout(pool, mapped);
    forall x | x in others ensures HandedOut(cfg, states, ops, s, t, x) {
      var o: nat :| Usable(net, o) && x == Address(net, o);
      UnmappedIsHandedOut(cfg, states, ops, s, t, ip, o);
    }
  }

  lemma SizeWithout<T>(a: set<T>, b: set<T>)
    ensures |a - b| >= |a| - |b|
  {
    assert a == (a - b) + (a * b);
    SubsetSize(a * b, b);
  }

  lemma AddressesDiffer(net: Network, a: nat, b: nat)
    requires net.prefix <= Width(net.v6) && a != b
    ensures Address(net, a) != Address(net, b)
  {}

  /** The addresses a pool can hand out: as many as it has usable offsets. */
  lemma PoolAddresses(net: Network) returns (pool: set<IpAddr>)
    requires net.prefix <= Width(net.v6) && LastOffset(net) >= FIRST_OFFSET
    ensures |pool| == LastOffset(net) - 1
    ensures forall x :: x in pool ==> exists o: nat :: Usable(net, o) && x == Address(net, o)
  {
    hide Pow2, LastOffset, Address;
    var ips := seq(LastOffset(net) - 1, i requires 0 <= i < LastOffset(net) - 1 => Address(net, i + FIRST_OFFSET));
    forall i, j | 0 <= i < j < |ips| ensures ips[i] != ips[j] {
      AddressesDiffer(net, i + FIRST_OFFSET, j + FIRST_OFFSET);
    }
    DistinctSize(ips);
    pool := set x | x in ips;
    forall x | x in pool ensures exists o: nat :: Usable(net, o) && x == Address(net, o) {
      var i :| 0 <= i < |ips| && ips[i] == x;
      assert Usable(net, i + FIRST_OFFSET) && x == Address(net, i + FIRST_OFFSET);
    }
  }

  /**
  No address behind the cursor is handed out before the cursor has visited every offset from
  its position to the end of the pool.
  */
  lemma BehindCursorWaits(cfg: Config, states: seq<Fake>, ops: seq<Op>, s: nat, offset: nat, v6: bool)
    requires cfg.Valid() && Run(cfg, states, ops) && s < |ops| && Usable(cfg.Net(v6), offset)
    requires offset < states[0].Next(v6) && NewlyAssigned(cfg, states[s], ops[s], Address(cfg.Net(v6), offset))
    ensures forall o: nat :: states[0].Next(v6) <= o && Usable(cfg.Net(v6), o) ==>
              VisitedDuring(cfg, states, ops, -1, s, v6, o)
  {
    var net := cfg.Net(v6);
    var nexts, steps := RunWalk(cfg, states, ops, v6);
    AssignmentIsVisit(cfg, states, ops, s, Address(net, offset));
    assert steps[s] == Visits(cfg, states[s], ops[s], v6);
    BehindVisitsAhead(nexts, steps, LastOffset(net), s);
    forall o: nat | states[0].Next(v6) <= o && Usable(net, o)
      ensures VisitedDuring(cfg, states, ops, -1, s, v6, o)
    {
      VisitIsAccounted(cfg, states, ops, -1, s, v6, o, steps);
    }
  }

  // ----- recency is the order of the latest queries

  /** The latest operation that asked for the name in that family, or -1. */
  function LastAsk(ops: seq<Op>, name: string, v6: bool): (s: int)
    ensures -1 <= s < |ops|
  {
    if ops == [] then -1
    else if ops[|ops| - 1] == Ask(name, v6) then |ops| - 1
    else LastAsk(ops[..|ops| - 1], name, v6)
  }

  /** When a mapping was last used: its latest query, or else its place in the first table, before all queries. */
  function LastUse(first: seq<Mapping>, ops: seq<Op>, m: Mapping): int {
    var s := LastAsk(ops, m.name, m.ip.V6?);
    if s >= 0 then s else IndexOf(first, m.name, m.ip.V6?) - |first|
  }

  ghost predicate InUseOrder(cfg: Config, first: seq<Mapping>, ops: seq<Op>, r: seq<Mapping>) {
    && (forall i :: 0 <= i < |r| ==>
          cfg.validName(r[i].name) && LastUse(first, ops, r[i]) < |ops|
          && (LastAsk(ops, r[i].name, r[i].ip.V6?) < 0 ==> LastUse(first, ops, r[i]) < 0))
    && (forall i, j :: 0 <= i < j < |r| ==> LastUse(first, ops, r[i]) < LastUse(first, ops, r[j]))
  }

  /** An operation about another name changes no mapping's last use. */
  lemma OtherUse(first: seq<Mapping>, ops: seq<Op>, op: Op, m: Mapping)
    requires op != Ask(m.name, m.ip.V6?)
    ensures LastUse(first, ops + [op], m) == LastUse(first, ops, m)
    ensures LastAsk(ops + [op], m.name, m.ip.V6?) == LastAsk(ops, m.name, m.ip.V6?)
  {
    assert (ops + [op])[..|ops|] == ops && (ops + [op])[|ops|] == op;
  }

  /** Part of a table in use order, none of it asked for by the operation, stays in use order. */
  lemma KeptInOrder(cfg: Config, first: seq<Mapping>, ops: seq<Op>, op: Op, r: seq<Mapping>, drop: nat)
    requires InUseOrder(cfg, first, ops, r) && drop <= |r|
    requires forall i :: drop <= i < |r| ==> op != Ask(r[i].name, r[i].ip.V6?)
    ensures InUseOrder(cfg, first, ops + [op], r[drop..])
  {
    hide LastAsk, LastUse;
    forall i | 0 <= i < |r[drop..]|
      ensures r[drop..][i] == r[i + drop] && LastUse(first, ops + [op], r[i + drop]) == LastUse(first, ops, r[i + drop])
              && LastAsk(ops + [op], r[i + drop].name, r[i + drop].ip.V6?)
              == LastAsk(ops, r[i + drop].name, r[i + drop].ip.V6?)
    {
      OtherUse(first, ops, op, r[i + drop]);
    }
  }

  /** The mapping just asked for comes last. */
  lemma AskedLast(cfg: Config, first: seq<Mapping>, ops: seq<Op>, r: seq<Mapping>, m: Mapping)
    requires var op := Ask(m.name, m.ip.V6?); InUseOrder(cfg, first, ops + [op], r) && cfg.validName(m.name)
    requires forall i :: 0 <= i < |r| ==> LastUse(first, ops + [Ask(m.name, m.ip.V6?)], r[i]) < |ops|
    ensures InUseOrder(cfg, first, ops + [Ask(m.name, m.ip.V6?)], r + [m])
  {
    var all := ops + [Ask(m.name, m.ip.V6?)];
    assert all[|ops|] == Ask(m.name, m.ip.V6?);
    assert LastUse(first, all, m) == |ops|;
    hide LastAsk, LastUse;
  }

  lemma OthersBefore(cfg: Config, first: seq<Mapping>, ops: seq<Op>, op: Op, r: seq<Mapping>)
    requires InUseOrder(cfg, first, ops, r) && forall i :: 0 <= i < |r| ==> op != Ask(r[i].name, r[i].ip.V6?)
    ensures forall i :: 0 <= i < |r| ==> LastUse(first, ops + [op], r[i]) < |ops|
  {
    hide LastAsk, LastUse;
    forall i | 0 <= i < |r| ensures LastUse(first, ops + [op], r[i]) < |ops| { OtherUse(first, ops, op, r[i]); }
  }

  lemma TouchedInOrder(cfg: Config, first: seq<Mapping>, ops: seq<Op>, r: seq<Mapping>, i: nat)
    requires InUseOrder(cfg, first, ops, r) && OneToOne(r) && i < |r|
    ensures InUseOrder(cfg, first, ops + [Ask(r[i].name, r[i].ip.V6?)], Touch(r, i))
  {
    var op, others := Ask(r[i].name, r[i].ip.V6?), r[..i] + r[i + 1..];
    forall j | 0 <= j < |others| ensures op != Ask(others[j].name, others[j].ip.V6?) {
      assert others[j] == r[if j < i then j else j + 1];
    }
    hide LastAsk, LastUse;
    assert InUseOrder(cfg, first, ops, others);
    KeptInOrder(cfg, first, ops, op, others, 0);
    assert others[0..] == others;
    OthersBefore(cfg, first, ops, op, others);
    AskedLast(cfg, first, ops, others, r[i]);
  }

  lemma QueryInOrder(cfg: Config, first: seq<Mapping>, ops: seq<Op>, st: Fake, host: string, v6: bool)
    requires cfg.Valid() && Coherent(cfg, st) && InUseOrder(cfg, first, ops, st.recency)
    ensures InUseOrder(cfg, first, ops + [Ask(host, v6)], Query(cfg, st, host, v6).st.recency)
  {
    hide LastAsk, LastUse, FakeIpSpec.Scan, InUseOrder;
    var r, op, i := st.recency, Ask(host, v6), IndexOf(st.recency, host, v6);
    if i < |r| && cfg.validName(host) {
      TouchedInOrder(cfg, first, ops, r, i);
    } else {
      var room := Room(st).recency;
      var drop := |r| - |room|;
      Unasked(cfg, first, ops, r, host, v6);
      assert r[0..] == r;
      KeptInOrder(cfg, first, ops, op, r, 0);
      KeptInOrder(cfg, first, ops, op, r, drop);
      if cfg.validName(host) {
        AllocateExact(cfg, Room(st), v6);
        var out := Allocate(cfg, Room(st), v6);
        if out.answer.Some? {
          SuffixInOrder(cfg, first, ops, r, drop);
          OthersBefore(cfg, first, ops, op, room);
          AskedLast(cfg, first, ops, room, Mapping(host, out.answer.value));
        }
      }
    }
  }

  lemma SuffixInOrder(cfg: Config, first: seq<Mapping>, ops: seq<Op>, r: seq<Mapping>, drop: nat)
    requires InUseOrder(cfg, first, ops, r) && drop <= |r|
    ensures InUseOrder(cfg, first, ops, r[drop..])
  {
    hide LastAsk, LastUse;
  }

  lemma Unasked(cfg: Config, first: seq<Mapping>, ops: seq<Op>, r: seq<Mapping>, host: string, v6: bool)
    requires InUseOrder(cfg, first, ops, r)
    requires !cfg.validName(host) || IndexOf(r, host, v6) == |r|
    ensures forall i :: 0 <= i < |r| ==> Ask(host, v6) != Ask(r[i].name, r[i].ip.V6?)
  {
    hide LastAsk, LastUse;
  }

  /**
  In every run the table lists its mappings in the order of their latest queries, so the one
  an eviction drops is the least recently queried.
  */
  lemma {:induction false} RecencyIsQueryOrder(cfg: Config, states: seq<Fake>, ops: seq<Op>, n: nat)
    requires cfg.Valid() && Run(cfg, states, ops) && n <= |ops|
    requires forall i :: 0 <= i < |states[0].recency| ==> cfg.validName(states[0].recency[i].name)
    ensures InUseOrder(cfg, states[0].recency, ops[..n], states[n].recency)
    decreases n
  {
    var first := states[0].recency;
    if n == 0 {
      FirstInOrder(first);
    } else {
      RecencyIsQueryOrder(cfg, states, ops, n - 1);
      RunCoherent(cfg, states, ops, n - 1);
      var st, op := states[n - 1], ops[n - 1];
      assert ops[..n] == ops[..n - 1] + [op];
      assert states[n] == Apply(cfg, st, op).st;
      hide InUseOrder, Query, Coherent;
      match op
      case Ask(host, v6) => QueryInOrder(cfg, first, ops[..n - 1], st, host, v6);
      case Resize(capacity) =>
        TrimKeepsMostRecent(st.(capacity := Max(capacity, 1)));
        var drop := |st.recency| - |states[n].recency|;
        assert st.recency[0..] == st.recency;
        KeptInOrder(cfg, first, ops[..n - 1], op, st.recency, drop);
    }
  }

  lemma FirstInOrder(first: seq<Mapping>)
    requires OneToOne(first)
    ensures forall i :: 0 <= i < |first| ==> LastUse(first, [], first[i]) == i - |first|
  {
    forall i | 0 <= i < |first| ensures IndexOf(first, first[i].name, first[i].ip.V6?) == i {
      assert forall j :: 0 <= j < i ==> first[j].name != first[i].name || first[j].ip.V6? != first[i].ip.V6?;
    }
  }
}
