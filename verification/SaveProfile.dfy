/**
The skip-if-unchanged protocol of profile saving, with fake-IP storing on: savers read the
selection and the fake-IP generation without the profile lock, then compare, export and write
under it, while queries keep changing the table. One action is one lock-protected access.
*/
module SaveProfile {
  import opened Common
  import opened Addresses
  import opened FakeIpSpec
  import opened FakeIpRuns

  type Selection = map<string, string>

  datatype Saved = Saved(selection: Selection, fake: seq<Mapping>)

  /**
  Where a saver is; `selectedAt` is the moment it read the selection at, `readAt` and `exportAt`
  are the moments of its two accesses to the table.
  */
  datatype Phase =
    | Idle
    | Selected(selection: Selection, selectedAt: nat)
    | Stamped(selection: Selection, selectedAt: nat, generation: nat, readAt: nat)
    | Writing(selection: Selection, selectedAt: nat, generation: nat, readAt: nat)
    | Exported(selection: Selection, selectedAt: nat, generation: nat, readAt: nat, fake: seq<Mapping>, exportAt: nat)

  /** The table at one moment: its generation, its mappings as a set, and their order. */
  datatype Moment = Moment(generation: nat, mappings: set<Mapping>, recency: seq<Mapping>)

  datatype State = State(
    fake: Fake,
    selection: Selection,
    file: Option<Saved>,
    last: Option<(Selection, nat)>,
    lock: Option<nat>,
    savers: map<nat, Phase>,
    // Bookkeeping only: the moments before each change of the table (moment `|history|` is the
    // present), the selections before each change of them, and the moments at which the writer of
    // the file read the selection and the generation and exported.
    history: seq<Moment>,
    selections: seq<Selection>,
    fileSelectedAt: nat,
    fileReadAt: nat,
    fileAt: nat)

  datatype Action =
    | Table(op: Op)
    | Select(selection: Selection)
    | ReadSelection(id: nat)
    | ReadGeneration(id: nat)
    | Check(id: nat)
    | Export(id: nat)
    | Write(id: nat, succeeds: bool)

  function AsSet(recency: seq<Mapping>): set<Mapping> { set m | m in recency }

  function Now(fake: Fake): Moment { Moment(fake.generation, AsSet(fake.recency), fake.recency) }

  function PhaseOf(s: State, id: nat): Phase { if id in s.savers then s.savers[id] else Idle }

  function At(s: State, id: nat, phase: Phase): State { s.(savers := s.savers[id := phase]) }

  ghost predicate Enabled(s: State, a: Action) {
    match a
    case Table(_) => true
    case Select(_) => true
    case ReadSelection(id) => PhaseOf(s, id).Idle?
    case ReadGeneration(id) => PhaseOf(s, id).Selected?
    case Check(id) => PhaseOf(s, id).Stamped? && s.lock == None
    case Export(id) => PhaseOf(s, id).Writing?
    case Write(id, _) => PhaseOf(s, id).Exported?
  }

  /** The comparison that lets a saver return without writing. */
  predicate Skips(s: State, id: nat) {
    var p := PhaseOf(s, id);
    p.Stamped? && s.last == Some((p.selection, p.generation))
  }

  function Next(cfg: Config, storeSelected: bool, s: State, a: Action): State
    requires cfg.Valid() && Enabled(s, a)
  {
    match a
    case Table(op) =>
      s.(fake := Apply(cfg, s.fake, op).st, history := s.history + [Now(s.fake)])
    case Select(selection) => s.(selection := selection, selections := s.selections + [s.selection])
    case ReadSelection(id) =>
      At(s, id, Selected(if storeSelected then s.selection else map[], |s.selections|))
    case ReadGeneration(id) =>
      var p := PhaseOf(s, id);
      At(s, id, Stamped(p.selection, p.selectedAt, s.fake.generation, |s.history|))
    case Check(id) =>
      var p := PhaseOf(s, id);
      if Skips(s, id) then At(s, id, Idle)
      else At(s, id, Writing(p.selection, p.selectedAt, p.generation, p.readAt)).(lock := Some(id))
    case Export(id) =>
      var p := PhaseOf(s, id);
      At(s, id, Exported(p.selection, p.selectedAt, p.generation, p.readAt, s.fake.recency, |s.history|))
    case Write(id, succeeds) =>
      var p := PhaseOf(s, id);
      var done := At(s, id, Idle).(lock := None);
      if !succeeds then done
      else done.(file := Some(Saved(p.selection, p.fake)), last := Some((p.selection, p.generation)),
                 fileSelectedAt := p.selectedAt, fileReadAt := p.readAt, fileAt := p.exportAt)
  }

  /** A core just started: a loaded table, nothing saved yet and no saver under way. */
  ghost predicate Init(cfg: Config, s: State)
    requires cfg.Valid()
  {
    && Coherent(cfg, s.fake) && s.last == None && s.lock == None && s.savers == map[]
    && s.history == [] && s.selections == []
  }

  ghost predicate SaveRun(cfg: Config, storeSelected: bool, states: seq<State>, actions: seq<Action>)
    requires cfg.Valid()
  {
    && |states| == |actions| + 1
    && Init(cfg, states[0])
    && forall i :: 0 <= i < |actions| ==>
         Enabled(states[i], actions[i]) && states[i + 1] == Next(cfg, storeSelected, states[i], actions[i])
  }

  // ----- the generation tracks the mappings

  lemma {:induction false} TrimGeneration(st: Fake)
    ensures Trim(st).generation >= st.generation
    ensures Trim(st).generation == st.generation ==> Trim(st).recency == st.recency
  {
    TrimKeepsMostRecent(st);
  }

  /** No operation lowers the generation, and one that keeps it keeps the mappings as a set. */
  lemma GenerationTracks(cfg: Config, st: Fake, op: Op)
    requires cfg.Valid() && Coherent(cfg, st)
    ensures var after := Apply(cfg, st, op).st;
      && after.generation >= st.generation
      && (after.generation == st.generation ==> AsSet(after.recency) == AsSet(st.recency))
  {
    hide Scan;
    match op
    case Resize(capacity) => TrimGeneration(st.(capacity := Max(capacity, 1)));
    case Ask(host, v6) =>
      var i := IndexOf(st.recency, host, v6);
      if cfg.validName(host) && i < |st.recency| {
        TouchKeeps(st.recency, i);
        SameMultisetSameSet(Touch(st.recency, i), st.recency);
      }
  }

  lemma SameMultisetSameSet(a: seq<Mapping>, b: seq<Mapping>)
    requires multiset(a) == multiset(b)
    ensures AsSet(a) == AsSet(b)
  {
    forall m ensures m in a <==> m in b {
      assert m in multiset(a) <==> m in multiset(b);
    }
  }

  // ----- the invariant

  /** The table at moment `t`: recorded, or the present one. */
  function MomentAt(s: State, t: nat): Moment { if t < |s.history| then s.history[t] else Now(s.fake) }

  /** Later moments have a higher generation, or the same one and the same mappings. */
  ghost predicate NotOlder(later: Moment, earlier: Moment) {
    && earlier.generation <= later.generation
    && (earlier.generation == later.generation ==> earlier.mappings == later.mappings)
  }

  ghost predicate HistoryOk(s: State) {
    && (forall i, j :: 0 <= i < j < |s.history| ==> NotOlder(s.history[j], s.history[i]))
    && (forall i :: 0 <= i < |s.history| ==> NotOlder(Now(s.fake), s.history[i]))
  }

  ghost predicate SaverOk(s: State, id: nat) {
    match PhaseOf(s, id)
    case Idle => true
    case Selected(_, _) => true
    case Stamped(_, _, g, t) => t <= |s.history| && MomentAt(s, t).generation == g
    case Writing(_, _, g, t) => t <= |s.history| && MomentAt(s, t).generation == g && s.lock == Some(id)
    case Exported(_, _, g, t, fake, e) =>
      && t <= e <= |s.history| && MomentAt(s, t).generation == g && s.lock == Some(id)
      && AsSet(fake) == MomentAt(s, e).mappings && fake == MomentAt(s, e).recency
  }

  /** The remembered pair is what the writer of the file captured; it exported no earlier than that. */
  ghost predicate FileOk(s: State) {
    s.last.Some? ==>
      && s.file.Some? && s.file.value.selection == s.last.value.0
      && s.fileReadAt <= s.fileAt <= |s.history|
      && MomentAt(s, s.fileReadAt).generation == s.last.value.1
      && AsSet(s.file.value.fake) == MomentAt(s, s.fileAt).mappings
      && s.file.value.fake == MomentAt(s, s.fileAt).recency
  }

  /** The selection of the policy at moment `t`: recorded, or the present one. */
  function SelectionAt(s: State, t: nat): Selection { if t < |s.selections| then s.selections[t] else s.selection }

  /** `selection` is what a saver captures at moment `t`: the selection then, or nothing if it is not stored. */
  ghost predicate Captured(storeSelected: bool, s: State, selection: Selection, t: nat) {
    t <= |s.selections| && selection == if storeSelected then SelectionAt(s, t) else map[]
  }

  /** Every save under way, and the file written last, holds the selection of the moment it was read at. */
  ghost predicate SelectionsOk(storeSelected: bool, s: State) {
    && (forall id :: id in s.savers && !s.savers[id].Idle? ==>
          Captured(storeSelected, s, s.savers[id].selection, s.savers[id].selectedAt))
    && (s.last.Some? ==> Captured(storeSelected, s, s.last.value.0, s.fileSelectedAt))
  }

  ghost predicate SaveInv(cfg: Config, storeSelected: bool, s: State)
    requires cfg.Valid()
  {
    && Coherent(cfg, s.fake) && HistoryOk(s) && FileOk(s) && (forall id :: id in s.savers ==> SaverOk(s, id))
    && SelectionsOk(storeSelected, s)
  }

  /** No step changes the selection of a moment that has been. */
  lemma SelectionKept(cfg: Config, storeSelected: bool, s: State, a: Action, t: nat)
    requires cfg.Valid() && Enabled(s, a) && t <= |s.selections|
    ensures |s.selections| <= |Next(cfg, storeSelected, s, a).selections|
    ensures SelectionAt(Next(cfg, storeSelected, s, a), t) == SelectionAt(s, t)
  {
    hide Apply, AsSet, Skips;
    if a.Select? {
      assert Next(cfg, storeSelected, s, a).selections == s.selections + [s.selection];
    } else {
      var after := Next(cfg, storeSelected, s, a);
      assert after.selections == s.selections && after.selection == s.selection;
    }
  }

  lemma NextSaverSelection(cfg: Config, storeSelected: bool, s: State, a: Action, id: nat)
    requires cfg.Valid() && Enabled(s, a) && SelectionsOk(storeSelected, s)
    requires id in Next(cfg, storeSelected, s, a).savers && !Next(cfg, storeSelected, s, a).savers[id].Idle?
    ensures
      var p := Next(cfg, storeSelected, s, a).savers[id];
      Captured(storeSelected, Next(cfg, storeSelected, s, a), p.selection, p.selectedAt)
  {
    hide Apply, AsSet, Skips;
    var after := Next(cfg, storeSelected, s, a);
    if a == ReadSelection(id) {
      assert after.selections == s.selections && after.selection == s.selection;
    } else {
      assert id in s.savers && !s.savers[id].Idle?;
      SelectionKept(cfg, storeSelected, s, a, s.savers[id].selectedAt);
    }
  }

  lemma NextSelections(cfg: Config, storeSelected: bool, s: State, a: Action)
    requires cfg.Valid() && Enabled(s, a) && SelectionsOk(storeSelected, s)
    ensures SelectionsOk(storeSelected, Next(cfg, storeSelected, s, a))
  {
    hide Apply, AsSet, Skips;
    var after := Next(cfg, storeSelected, s, a);
    forall id | id in after.savers && !after.savers[id].Idle?
      ensures Captured(storeSelected, after, after.savers[id].selection, after.savers[id].selectedAt)
    {
      NextSaverSelection(cfg, storeSelected, s, a, id);
    }
    if after.last.Some? {
      SelectionKept(cfg, storeSelected, s, a, after.fileSelectedAt);
    }
  }

  lemma MomentOrder(s: State, t: nat, u: nat)
    requires HistoryOk(s) && t <= u <= |s.history|
    ensures NotOlder(MomentAt(s, u), MomentAt(s, t))
  {}

  lemma ApplyKeeps(cfg: Config, st: Fake, op: Op)
    requires cfg.Valid() && Coherent(cfg, st)
    ensures Coherent(cfg, Apply(cfg, st, op).st)
  {
    hide Coherent, Query, SetCapacity;
    match op
    case Ask(host, v6) => QueryKeeps(cfg, st, host, v6);
    case Resize(capacity) => ResizeKeeps(cfg, st, capacity);
  }

  /** A change of the table moves the present on; everything said about earlier moments stands. */
  lemma TableKeepsInv(cfg: Config, storeSelected: bool, s: State, op: Op)
    requires cfg.Valid() && SaveInv(cfg, storeSelected, s)
    ensures SaveInv(cfg, storeSelected, Next(cfg, storeSelected, s, Table(op)))
  {
    hide SelectionsOk, Apply, Coherent, AsSet;
    NextSelections(cfg, storeSelected, s, Table(op));
    ApplyKeeps(cfg, s.fake, op);
    GenerationTracks(cfg, s.fake, op);
    var after := Next(cfg, storeSelected, s, Table(op));
    assert NotOlder(Now(after.fake), Now(s.fake));
    assert forall t: nat :: t <= |s.history| ==> MomentAt(after, t) == MomentAt(s, t);
    assert forall id :: id in s.savers ==> SaverOk(s, id) && PhaseOf(after, id) == PhaseOf(s, id);
  }

  lemma SaverKeepsInv(cfg: Config, storeSelected: bool, s: State, a: Action, id: nat)
    requires cfg.Valid() && SaveInv(cfg, storeSelected, s) && Enabled(s, a)
    requires a == ReadSelection(id) || a == ReadGeneration(id) || a == Check(id) || a == Export(id)
             || a == Write(id, true) || a == Write(id, false)
    ensures SaveInv(cfg, storeSelected, Next(cfg, storeSelected, s, a))
  {
    hide Coherent, SelectionsOk, AsSet, Apply;
    NextSelections(cfg, storeSelected, s, a);
    var after := Next(cfg, storeSelected, s, a);
    assert after.fake == s.fake && after.history == s.history;
    assert forall t: nat :: MomentAt(after, t) == MomentAt(s, t);
    assert id in s.savers ==> SaverOk(s, id);
    forall other | other in after.savers && other != id ensures SaverOk(after, other) {
      assert SaverOk(s, other);
    }
  }

  lemma NextKeepsInv(cfg: Config, storeSelected: bool, s: State, a: Action)
    requires cfg.Valid() && SaveInv(cfg, storeSelected, s) && Enabled(s, a)
    ensures SaveInv(cfg, storeSelected, Next(cfg, storeSelected, s, a))
  {
    hide SaveInv, Next;
    match a
    case Table(op) => TableKeepsInv(cfg, storeSelected, s, op);
    case Select(selection) => SelectKeepsInv(cfg, storeSelected, s, selection);
    case ReadSelection(id) => SaverKeepsInv(cfg, storeSelected, s, a, id);
    case ReadGeneration(id) => SaverKeepsInv(cfg, storeSelected, s, a, id);
    case Check(id) => SaverKeepsInv(cfg, storeSelected, s, a, id);
    case Export(id) => SaverKeepsInv(cfg, storeSelected, s, a, id);
    case Write(id, succeeds) => SaverKeepsInv(cfg, storeSelected, s, a, id);
  }

  lemma SelectKeepsInv(cfg: Config, storeSelected: bool, s: State, selection: Selection)
    requires cfg.Valid() && SaveInv(cfg, storeSelected, s)
    ensures SaveInv(cfg, storeSelected, Next(cfg, storeSelected, s, Select(selection)))
  {
    NextSelections(cfg, storeSelected, s, Select(selection));
    hide Coherent, SelectionsOk;
    var after := Next(cfg, storeSelected, s, Select(selection));
    assert forall t: nat :: MomentAt(after, t) == MomentAt(s, t);
    assert forall id :: id in s.savers ==> SaverOk(s, id) && PhaseOf(after, id) == PhaseOf(s, id);
  }

  lemma {:induction false} RunInv(cfg: Config, storeSelected: bool, states: seq<State>, actions: seq<Action>, n: nat)
    requires cfg.Valid() && SaveRun(cfg, storeSelected, states, actions) && n <= |actions|
    ensures SaveInv(cfg, storeSelected, states[n])
    decreases n
  {
    if n == 0 {
    } else {
      RunInv(cfg, storeSelected, states, actions, n - 1);
      hide SaveInv, Next;
      NextKeepsInv(cfg, storeSelected, states[n - 1], actions[n - 1]);
    }
  }

  /**
  In every interleaving, a save that skips leaves a file that holds the selection of the moment it
  read it at (none if it is not stored) and the mappings, in order, of some moment, not older than
  its generation read. They are the mappings of that very
  moment if and only if the save that wrote the file saw no net change between its own read of
  the generation and its export.
  */
  lemma SkipIsFresh(cfg: Config, storeSelected: bool, states: seq<State>, actions: seq<Action>, n: nat, id: nat)
    requires cfg.Valid() && SaveRun(cfg, storeSelected, states, actions) && n < |actions|
    requires actions[n] == Check(id) && Skips(states[n], id)
    ensures var s, p := states[n], PhaseOf(states[n], id);
      && s.file.Some? && s.file.value.selection == p.selection
      && p.selectedAt <= |s.selections|
      && s.file.value.selection == (if storeSelected then SelectionAt(s, p.selectedAt) else map[])
      && s.file.value.fake == MomentAt(s, s.fileAt).recency
      && MomentAt(s, p.readAt).generation == p.generation
      && AsSet(s.file.value.fake) == MomentAt(s, s.fileAt).mappings
      && NotOlder(MomentAt(s, s.fileAt), MomentAt(s, p.readAt))
      && (AsSet(s.file.value.fake) == MomentAt(s, p.readAt).mappings <==>
          MomentAt(s, s.fileAt).mappings == MomentAt(s, s.fileReadAt).mappings)
  {
    RunInv(cfg, storeSelected, states, actions, n);
    hide Coherent;
    var s, p := states[n], PhaseOf(states[n], id);
    assert id in s.savers && SaverOk(s, id);
    MomentOrder(s, Min(p.readAt, s.fileReadAt), Max(p.readAt, s.fileReadAt));
    MomentOrder(s, Min(p.readAt, s.fileAt), Max(p.readAt, s.fileAt));
    MomentOrder(s, s.fileReadAt, s.fileAt);
  }

  // ----- savers one at a time

  /** Between reading the generation and the end of the save. */
  predicate UnderWay(s: State, id: nat) {
    PhaseOf(s, id).Stamped? || PhaseOf(s, id).Writing? || PhaseOf(s, id).Exported?
  }

  /** Whenever a saver reads the generation, no other save is under way. */
  ghost predicate OneAtATime(states: seq<State>, actions: seq<Action>)
    requires |states| == |actions| + 1
  {
    forall i, id, other :: 0 <= i < |actions| && actions[i] == ReadGeneration(id) && other != id ==>
      !UnderWay(states[i], other)
  }

  /** At most one save is under way, and the file was exported before it read the generation. */
  ghost predicate Alone(s: State) {
    && (forall a, b :: UnderWay(s, a) && UnderWay(s, b) ==> a == b)
    && (s.last.Some? ==> forall id :: UnderWay(s, id) ==> s.fileAt <= PhaseOf(s, id).readAt)
  }

  lemma NextAlone(cfg: Config, storeSelected: bool, s: State, a: Action)
    requires cfg.Valid() && SaveInv(cfg, storeSelected, s) && Enabled(s, a) && Alone(s)
    requires forall id, other :: a == ReadGeneration(id) && other != id ==> !UnderWay(s, other)
    ensures Alone(Next(cfg, storeSelected, s, a))
  {
    hide Coherent, Apply, HistoryOk, AsSet, MomentAt, SelectionsOk;
    var after := Next(cfg, storeSelected, s, a);
    if a.Write? {
      assert UnderWay(s, a.id);
      forall id ensures !UnderWay(after, id) {
        assert id != a.id ==> PhaseOf(after, id) == PhaseOf(s, id) && !UnderWay(s, id);
      }
    } else {
      forall id | UnderWay(after, id)
        ensures UnderWay(s, id) || a == ReadGeneration(id)
        ensures after.last.Some? ==> after.fileAt <= PhaseOf(after, id).readAt
      {}
    }
  }

  lemma {:induction false} SerialAlone(cfg: Config, storeSelected: bool, states: seq<State>, actions: seq<Action>,
                                       n: nat)
    requires cfg.Valid() && SaveRun(cfg, storeSelected, states, actions) && n <= |actions|
    requires OneAtATime(states, actions)
    ensures Alone(states[n])
    decreases n
  {
    if n == 0 {
    } else {
      SerialAlone(cfg, storeSelected, states, actions, n - 1);
      RunInv(cfg, storeSelected, states, actions, n - 1);
      hide SaveInv, Next, Alone;
      NextAlone(cfg, storeSelected, states[n - 1], actions[n - 1]);
    }
  }

  /** When savers never overlap, every skip is exact. */
  lemma SerialSkipIsExact(cfg: Config, storeSelected: bool, states: seq<State>, actions: seq<Action>, n: nat, id: nat)
    requires cfg.Valid() && SaveRun(cfg, storeSelected, states, actions) && n < |actions|
    requires OneAtATime(states, actions) && actions[n] == Check(id) && Skips(states[n], id)
    ensures var s, p := states[n], PhaseOf(states[n], id);
      s.file.Some? && s.file.value.selection == p.selection
      && AsSet(s.file.value.fake) == MomentAt(s, p.readAt).mappings
  {
    SkipIsFresh(cfg, storeSelected, states, actions, n, id);
    SerialAlone(cfg, storeSelected, states, actions, n);
    RunInv(cfg, storeSelected, states, actions, n);
    hide Coherent, AsSet;
    var s, p := states[n], PhaseOf(states[n], id);
    assert UnderWay(s, id);
    assert id in s.savers && SaverOk(s, id);
    MomentOrder(s, s.fileReadAt, s.fileAt);
    MomentOrder(s, s.fileAt, p.readAt);
  }

  // ----- overlapping savers

  lemma ReadBoth(cfg: Config, storeSelected: bool, s0: State) returns (s1: State, s2: State, s3: State, s4: State)
    requires cfg.Valid() && Init(cfg, s0)
    ensures Enabled(s0, ReadSelection(0)) && s1 == Next(cfg, storeSelected, s0, ReadSelection(0))
    ensures Enabled(s1, ReadSelection(1)) && s2 == Next(cfg, storeSelected, s1, ReadSelection(1))
    ensures Enabled(s2, ReadGeneration(0)) && s3 == Next(cfg, storeSelected, s2, ReadGeneration(0))
    ensures Enabled(s3, ReadGeneration(1)) && s4 == Next(cfg, storeSelected, s3, ReadGeneration(1))
    ensures s4.fake == s0.fake && s4.last == None && s4.lock == None && s4.history == []
    ensures PhaseOf(s4, 0) == PhaseOf(s4, 1) && PhaseOf(s4, 1).Stamped? && PhaseOf(s4, 1).readAt == 0
  {
    hide Apply, Coherent, AsSet;
    s1 := Next(cfg, storeSelected, s0, ReadSelection(0));
    s2 := Next(cfg, storeSelected, s1, ReadSelection(1));
    s3 := Next(cfg, storeSelected, s2, ReadGeneration(0));
    s4 := Next(cfg, storeSelected, s3, ReadGeneration(1));
  }

  lemma TableStep(cfg: Config, storeSelected: bool, s: State, op: Op)
    requires cfg.Valid()
    ensures var after := Next(cfg, storeSelected, s, Table(op));
      && after.fake == Apply(cfg, s.fake, op).st && after.history == s.history + [Now(s.fake)]
      && after.savers == s.savers && after.last == s.last && after.lock == s.lock
  {}

  lemma FirstWrites(cfg: Config, storeSelected: bool, s5: State) returns (s6: State, s7: State, s8: State)
    requires cfg.Valid() && s5.last == None && s5.lock == None
    requires PhaseOf(s5, 0) == PhaseOf(s5, 1) && PhaseOf(s5, 1).Stamped?
    ensures Enabled(s5, Check(0)) && s6 == Next(cfg, storeSelected, s5, Check(0))
    ensures Enabled(s6, Export(0)) && s7 == Next(cfg, storeSelected, s6, Export(0))
    ensures Enabled(s7, Write(0, true)) && s8 == Next(cfg, storeSelected, s7, Write(0, true))
    ensures s8.file.Some? && s8.file.value.fake == s5.fake.recency && s8.history == s5.history
    ensures PhaseOf(s8, 1) == PhaseOf(s5, 1) && s8.lock == None && Skips(s8, 1)
  {
    hide Apply, AsSet;
    s6 := Next(cfg, storeSelected, s5, Check(0));
    s7 := Next(cfg, storeSelected, s6, Export(0));
    s8 := Next(cfg, storeSelected, s7, Write(0, true));
  }

  /** A query that assigns a new address adds a mapping that was not there. */
  lemma AssignmentChanges(cfg: Config, st: Fake, host: string, v6: bool, ip: IpAddr)
    requires cfg.Valid() && Coherent(cfg, st) && NewlyAssigned(cfg, st, Ask(host, v6), ip)
    ensures AsSet(Apply(cfg, st, Ask(host, v6)).st.recency) != AsSet(st.recency)
  {
    hide Scan;
    AllocateExact(cfg, Room(st), v6);
    var after := Apply(cfg, st, Ask(host, v6)).st.recency;
    var m := Mapping(host, ip);
    assert after[|after| - 1] == m && m in AsSet(after);
    assert m !in st.recency;
  }

  /**
  The skip is not exact in general: two savers read the same generation, a query for a new name
  is answered, the first saver exports and writes, and the second skips although the file does
  not hold the mappings of the moment it read the generation at. Any table and any answered
  query for an unmapped name will do.
  */
  lemma InexactSkip(cfg: Config, storeSelected: bool, s0: State, host: string, v6: bool, ip: IpAddr)
    returns (states: seq<State>, actions: seq<Action>)
    requires cfg.Valid() && Init(cfg, s0) && NewlyAssigned(cfg, s0.fake, Ask(host, v6), ip)
    ensures SaveRun(cfg, storeSelected, states, actions) && states[0] == s0 && |actions| == 9
    ensures forall i :: 0 <= i < 9 && actions[i].Table? ==> actions[i].op == Ask(host, v6)
    ensures actions[8] == Check(1) && Skips(states[8], 1)
    ensures states[8].file.Some?
    ensures AsSet(states[8].file.value.fake) != MomentAt(states[8], PhaseOf(states[8], 1).readAt).mappings
  {
    hide Apply, Coherent, AsSet, NewlyAssigned, Next, Skips;
    AssignmentChanges(cfg, s0.fake, host, v6, ip);
    var s1, s2, s3, s4 := ReadBoth(cfg, storeSelected, s0);
    var s5 := Next(cfg, storeSelected, s4, Table(Ask(host, v6)));
    TableStep(cfg, storeSelected, s4, Ask(host, v6));
    var s6, s7, s8 := FirstWrites(cfg, storeSelected, s5);
    var s9 := Next(cfg, storeSelected, s8, Check(1));
    states := [s0, s1, s2, s3, s4, s5, s6, s7, s8, s9];
    actions := [ReadSelection(0), ReadSelection(1), ReadGeneration(0), ReadGeneration(1), Table(Ask(host, v6)),
                Check(0), Export(0), Write(0, true), Check(1)];
  }
}
