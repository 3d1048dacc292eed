/** What a query answers and leaves in the table, read off the table alone, and over whole runs. */
module FakeIpAnswers {
  import opened Common
  import opened Addresses
  import opened CursorWalk
  import opened FakeIpSpec
  import opened FakeIpRuns

  ghost predicate Mapped(st: Fake, host: string, v6: bool) {
    exists ip: IpAddr :: ip.V6? == v6 && Mapping(host, ip) in st.recency
  }

  /** The mappings left after making room for one more. */
  function Kept(st: Fake): seq<Mapping> {
    if |st.recency| >= st.capacity && st.recency != [] then st.recency[1..] else st.recency
  }

  /** Some usable address of the family is not mapped. */
  ghost predicate SomeFree(cfg: Config, mappings: seq<Mapping>, v6: bool)
    requires cfg.Valid()
  {
    exists o: nat :: Usable(cfg.Net(v6), o)
      && forall i :: 0 <= i < |mappings| ==> mappings[i].ip != Address(cfg.Net(v6), o)
  }

  lemma FreeIsUnused(cfg: Config, mappings: seq<Mapping>, v6: bool)
    requires cfg.Valid()
    ensures SomeFree(cfg, mappings, v6) <==>
            exists o: nat :: Usable(cfg.Net(v6), o) && Address(cfg.Net(v6), o) !in Ips(mappings)
  {
    hide LastOffset, Address, Usable;
    forall ip ensures ip in Ips(mappings) <==> exists i :: 0 <= i < |mappings| && mappings[i].ip == ip {
      if i :| 0 <= i < |mappings| && mappings[i].ip == ip { assert mappings[i] in mappings; }
    }
  }

  lemma MappedIsIndexed(st: Fake, host: string, v6: bool)
    ensures Mapped(st, host, v6) <==> IndexOf(st.recency, host, v6) < |st.recency|
  {
    var i := IndexOf(st.recency, host, v6);
    if i < |st.recency| { assert Mapping(host, st.recency[i].ip) in st.recency; }
    if ip: IpAddr :| ip.V6? == v6 && Mapping(host, ip) in st.recency {
      var j :| 0 <= j < |st.recency| && st.recency[j] == Mapping(host, ip);
    }
  }

  /** A mapped name is answered with its address and becomes the most recent; nothing else changes. */
  lemma MappedAnswer(cfg: Config, st: Fake, host: string, v6: bool, ip: IpAddr)
    requires cfg.Valid() && Coherent(cfg, st) && cfg.validName(host)
    requires ip.V6? == v6 && Mapping(host, ip) in st.recency
    ensures var out := Query(cfg, st, host, v6);
      && out.answer == Some(ip) && out.visits == []
      && (exists i :: 0 <= i < |st.recency| && st.recency[i] == Mapping(host, ip)
                      && out.st == st.(recency := st.recency[..i] + st.recency[i + 1..] + [Mapping(host, ip)]))
  {
    hide InPool, CursorOk;
    var i := IndexOf(st.recency, host, v6);
    var j :| 0 <= j < |st.recency| && st.recency[j] == Mapping(host, ip);
    assert i == j;
  }

  /**
  An unmapped valid name takes the place of the least recent mapping of a full table, whether or
  not it then gets an address; it gets one exactly when one of its family is free.
  */
  lemma UnmappedAnswer(cfg: Config, st: Fake, host: string, v6: bool)
    requires cfg.Valid() && Coherent(cfg, st) && cfg.validName(host) && !Mapped(st, host, v6)
    ensures var out := Query(cfg, st, host, v6);
      && (out.answer.Some? <==> SomeFree(cfg, Kept(st), v6))
      && (out.answer.Some? ==> out.answer.value.V6? == v6 && InPool(cfg, out.answer.value)
                               && forall i :: 0 <= i < |Kept(st)| ==> Kept(st)[i].ip != out.answer.value)
      && out.st.recency == Kept(st) + (if out.answer.Some? then [Mapping(host, out.answer.value)] else [])
      && out.st.generation == st.generation + (|st.recency| - |Kept(st)|) + (if out.answer.Some? then 1 else 0)
      && out.st.capacity == st.capacity && out.st.Next(!v6) == st.Next(!v6)
  {
    hide OneToOne, InPool, CursorOk, Usable, Address, LastOffset, Allocate, Sound;
    MappedIsIndexed(st, host, v6);
    RoomKeeps(cfg, st);
    var room := Room(st);
    assert room.recency == Kept(st);
    SoundParts(cfg, room, v6);
    AllocateExact(cfg, room, v6);
    FreeIsUnused(cfg, Kept(st), v6);
    var out := Allocate(cfg, room, v6);
    if out.answer.Some? {
      forall i | 0 <= i < |Kept(st)| ensures Kept(st)[i].ip != out.answer.value {
        assert Kept(st)[i] in Kept(st);
      }
    }
  }

  /**
  What a query answers, through the table alone: the address its name has afterwards; the one it
  had before if there was one; and nothing exactly when the name is invalid, or unmapped while no
  address of its family is free.
  */
  lemma QueryAnswers(cfg: Config, st: Fake, host: string, v6: bool)
    requires cfg.Valid() && Coherent(cfg, st)
    ensures var out := Query(cfg, st, host, v6);
      && (out.answer.Some? ==> out.answer.value.V6? == v6 && Mapping(host, out.answer.value) in out.st.recency)
      && (forall ip: IpAddr :: cfg.validName(host) && ip.V6? == v6 && Mapping(host, ip) in st.recency ==>
            out.answer == Some(ip))
      && (out.answer == None <==>
            !cfg.validName(host) || (!Mapped(st, host, v6) && !SomeFree(cfg, Kept(st), v6)))
      && (!cfg.validName(host) ==> out.st == st)
  {
    hide Query, Coherent, SomeFree, Kept;
    if !cfg.validName(host) {
      InvalidAnswer(cfg, st, host, v6);
    } else if Mapped(st, host, v6) {
      forall ip: IpAddr | ip.V6? == v6 && Mapping(host, ip) in st.recency
        ensures Query(cfg, st, host, v6).answer == Some(ip)
        ensures Mapping(host, ip) in Query(cfg, st, host, v6).st.recency
      {
        MappedAnswer(cfg, st, host, v6, ip);
      }
    } else {
      UnmappedAnswer(cfg, st, host, v6);
    }
  }

  lemma InvalidAnswer(cfg: Config, st: Fake, host: string, v6: bool)
    requires cfg.Valid() && !cfg.validName(host)
    ensures Query(cfg, st, host, v6) == Outcome(st, None, [])
  {}

  /** A change of capacity: at least one, keeping the most recent mappings that fit and the cursors. */
  lemma ResizeExact(st: Fake, capacity: nat)
    ensures var after, c := SetCapacity(st, capacity), if capacity == 0 then 1 else capacity;
      && after.capacity == c && after.next4 == st.next4 && after.next6 == st.next6
      && (|st.recency| <= c ==> after.recency == st.recency && after.generation == st.generation)
      && (|st.recency| > c ==>
            && after.recency == st.recency[|st.recency| - c..]
            && after.generation == st.generation + (|st.recency| - c))
  {
    TrimKeepsMostRecent(st.(capacity := Max(capacity, 1)));
  }

  // ----- over runs

  /**
  Two queries for one name and family are answered alike as long as the mapping stays: if the
  answers differ, the mapping was gone at some moment in between.
  */
  lemma SameAnswerWhileMapped(cfg: Config, states: seq<Fake>, ops: seq<Op>, q: nat, r: nat, ip: IpAddr)
    requires cfg.Valid() && Run(cfg, states, ops) && q < r < |ops| && ops[q].Ask? && ops[r] == ops[q]
    requires Apply(cfg, states[q], ops[q]).answer == Some(ip)
    ensures Mapping(ops[q].host, ip) in states[q + 1].recency
    ensures Apply(cfg, states[r], ops[r]).answer != Some(ip) ==>
      exists i :: q < i <= r && Mapping(ops[q].host, ip) !in states[i].recency
  {
    hide Query, Coherent;
    RunCoherent(cfg, states, ops, q);
    RunCoherent(cfg, states, ops, r);
    QueryAnswers(cfg, states[q], ops[q].host, ops[q].v6);
    QueryAnswers(cfg, states[r], ops[r].host, ops[r].v6);
    assert cfg.validName(ops[q].host);
    if Apply(cfg, states[r], ops[r]).answer != Some(ip) { assert Mapping(ops[q].host, ip) !in states[r].recency; }
  }
}
