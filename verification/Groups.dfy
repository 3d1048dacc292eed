/** Proxy groups: the validation that every choice of members ends at a proxy, and following a selection. */
module Groups {
  import opened Common

  datatype Group = Group(name: string, proxies: seq<string>, interval: nat)

  /** Members by group name. */
  type Graph = map<string, seq<string>>

  const BUILT_IN: set<string> := {"DIRECT", "REJECT", "GLOBAL"}

  predicate Known(names: set<string>, name: string) { name in names && name != "GLOBAL" }

  // ----- walks

  /** Each step goes from a group to one of its members. */
  ghost predicate Walk(g: Graph, w: seq<string>) {
    w != [] && forall i :: 0 <= i < |w| - 1 ==> w[i] in g && w[i + 1] in g[w[i]]
  }

  /** Only known names, and no group that is in `path` or was on the walk before. */
  ghost predicate Good(g: Graph, names: set<string>, path: set<string>, w: seq<string>) {
    && (forall i :: 0 <= i < |w| ==> Known(names, w[i]) && !(w[i] in g && w[i] in path))
    && (forall i, j :: 0 <= i < j < |w| && w[i] in g ==> w[i] != w[j])
  }

  ghost predicate AllGood(g: Graph, names: set<string>, path: set<string>, name: string) {
    forall w :: Walk(g, w) && w[0] == name ==> Good(g, names, path, w)
  }

  lemma WalkCons(g: Graph, name: string, w: seq<string>)
    requires name in g && Walk(g, w) && w[0] in g[name]
    ensures Walk(g, [name] + w)
  {
    var v := [name] + w;
    forall i | 0 <= i < |v| - 1 ensures v[i] in g && v[i + 1] in g[v[i]] {
      if i > 0 { assert v[i] == w[i - 1] && v[i + 1] == w[i]; }
    }
  }

  lemma WalkTail(g: Graph, w: seq<string>)
    requires Walk(g, w) && |w| > 1
    ensures Walk(g, w[1..]) && w[0] in g && w[1] in g[w[0]]
  {
    var t := w[1..];
    forall i | 0 <= i < |t| - 1 ensures t[i] in g && t[i + 1] in g[t[i]] {
      assert t[i] == w[i + 1] && t[i + 1] == w[i + 2];
    }
  }

  lemma GoodCons(g: Graph, names: set<string>, path: set<string>, name: string, w: seq<string>)
    requires name in g && Known(names, name) && name !in path
    ensures Good(g, names, path, [name] + w) <==> Good(g, names, path + {name}, w)
  {
    var v := [name] + w;
    if Good(g, names, path, v) {
      forall i | 0 <= i < |w| ensures Known(names, w[i]) && !(w[i] in g && w[i] in path + {name}) {
        assert v[i + 1] == w[i] && v[0] == name;
      }
      forall i, j | 0 <= i < j < |w| && w[i] in g ensures w[i] != w[j] {
        assert v[i + 1] == w[i] && v[j + 1] == w[j];
      }
    }
    if Good(g, names, path + {name}, w) {
      forall i | 0 <= i < |v| ensures Known(names, v[i]) && !(v[i] in g && v[i] in path) {
        if i > 0 { assert v[i] == w[i - 1]; }
      }
      forall i, j | 0 <= i < j < |v| && v[i] in g ensures v[i] != v[j] {
        assert v[j] == w[j - 1];
        if i > 0 { assert v[i] == w[i - 1]; }
      }
    }
  }

  /** A known group off the path is good exactly when all its members are, with it on the path. */
  lemma VisitGroup(g: Graph, names: set<string>, path: set<string>, name: string)
    requires name in g && Known(names, name) && name !in path
    ensures AllGood(g, names, path, name) <==>
            forall i :: 0 <= i < |g[name]| ==> AllGood(g, names, path + {name}, g[name][i])
  {
    if AllGood(g, names, path, name) {
      forall i | 0 <= i < |g[name]| ensures AllGood(g, names, path + {name}, g[name][i]) {
        forall w | Walk(g, w) && w[0] == g[name][i] ensures Good(g, names, path + {name}, w) {
          WalkCons(g, name, w);
          assert ([name] + w)[0] == name;
          GoodCons(g, names, path, name, w);
        }
      }
    }
    if forall i :: 0 <= i < |g[name]| ==> AllGood(g, names, path + {name}, g[name][i]) {
      forall w | Walk(g, w) && w[0] == name ensures Good(g, names, path, w) {
        if |w| > 1 {
          WalkTail(g, w);
          var i :| 0 <= i < |g[name]| && g[name][i] == w[1];
          assert AllGood(g, names, path + {name}, g[name][i]);
          assert Good(g, names, path + {name}, w[1..]);
          GoodCons(g, names, path, name, w[1..]);
          assert w == [name] + w[1..];
        }
      }
    }
  }

  lemma VisitLeaf(g: Graph, names: set<string>, path: set<string>, name: string)
    ensures AllGood(g, names, path, name) ==> Known(names, name) && (name in g ==> name !in path)
    ensures Known(names, name) && name !in g ==> AllGood(g, names, path, name)
  {
    var alone := [name];
    assert Walk(g, alone) && alone[0] == name;
    if AllGood(g, names, path, name) { assert Good(g, names, path, alone) && alone[0] == name; }
  }

  /** Depth-first search with the set of groups on the current path, which a success leaves as it was. */
  method Visit(name: string, g: Graph, names: set<string>, path: set<string>) returns (ok: bool, after: set<string>)
    ensures ok <==> AllGood(g, names, path, name)
    ensures ok ==> after == path
    decreases g.Keys - path
  {
    hide AllGood;
    VisitLeaf(g, names, path, name);
    after := path;
    if !Known(names, name) {
      return false, after;
    }
    if name in g {
      if name in path {
        return false, after;
      }
      VisitGroup(g, names, path, name);
      after := after + {name};
      var i := 0;
      while i < |g[name]|
        invariant 0 <= i <= |g[name]| && after == path + {name}
        invariant forall j :: 0 <= j < i ==> AllGood(g, names, path + {name}, g[name][j])
      {
        assert name in g.Keys - path && name !in g.Keys - after;
        ok, after := Visit(g[name][i], g, names, after);
        if !ok {
          return;
        }
        i := i + 1;
      }
      after := after - {name};
      assert after == path;
    }
    ok := true;
  }

  // ----- what acceptance means

  /** The groups have fresh, distinct, non-empty names, members, and a positive interval. */
  ghost predicate WellNamed(base: set<string>, groups: seq<Group>) {
    && (forall i :: 0 <= i < |groups| ==>
          groups[i].name != "" && groups[i].name !in base && groups[i].proxies != [] && groups[i].interval > 0)
    && (forall i, j :: 0 <= i < j < |groups| ==> groups[i].name != groups[j].name)
  }

  ghost function GraphOf(groups: seq<Group>): Graph {
    if groups == [] then map[]
    else GraphOf(groups[..|groups| - 1])[groups[|groups| - 1].name := groups[|groups| - 1].proxies]
  }

  function NamesOf(base: set<string>, groups: seq<Group>): set<string> {
    base + set i | 0 <= i < |groups| :: groups[i].name
  }

  ghost predicate MembersKnown(g: Graph, names: set<string>) {
    forall n, i :: n in g && 0 <= i < |g[n]| ==> Known(names, g[n][i])
  }

  /** Some walk of at least one step comes back to the group it started from. */
  ghost predicate ReachesItself(g: Graph, n: string) {
    exists w :: Walk(g, w) && |w| > 1 && w[0] == n && w[|w| - 1] == n
  }

  lemma SubWalk(g: Graph, w: seq<string>, i: nat, j: nat)
    requires Walk(g, w) && i < j <= |w|
    ensures Walk(g, w[i..j])
  {
    var v := w[i..j];
    forall k | 0 <= k < |v| - 1 ensures v[k] in g && v[k + 1] in g[v[k]] {
      assert v[k] == w[i + k] && v[k + 1] == w[i + k + 1];
    }
  }

  /** All searches succeed exactly when members are known and no group reaches itself. */
  lemma AcceptanceIsAcyclic(g: Graph, names: set<string>)
    requires forall n :: n in g ==> Known(names, n)
    ensures (forall n :: n in g ==> AllGood(g, names, {}, n)) <==>
            MembersKnown(g, names) && forall n :: n in g ==> !ReachesItself(g, n)
  {
    if forall n :: n in g ==> AllGood(g, names, {}, n) {
      forall n, i | n in g && 0 <= i < |g[n]| ensures Known(names, g[n][i]) {
        var w := [n, g[n][i]];
        assert Walk(g, w) && w[0] == n;
        assert Good(g, names, {}, w) && w[1] == g[n][i];
      }
      forall n | n in g ensures !ReachesItself(g, n) {
        forall w | Walk(g, w) && |w| > 1 && w[0] == n ensures w[|w| - 1] != n {
          assert Good(g, names, {}, w);
        }
      }
    }
    if MembersKnown(g, names) && forall n :: n in g ==> !ReachesItself(g, n) {
      forall n, w | n in g && Walk(g, w) && w[0] == n ensures Good(g, names, {}, w) {
        AcyclicIsGood(g, names, w);
      }
    }
  }

  lemma AcyclicIsGood(g: Graph, names: set<string>, w: seq<string>)
    requires Walk(g, w) && Known(names, w[0]) && MembersKnown(g, names)
    requires forall n :: n in g ==> !ReachesItself(g, n)
    ensures Good(g, names, {}, w)
  {
    WalkIsKnown(g, names, w);
    forall i, j | 0 <= i < j < |w| && w[i] in g ensures w[i] != w[j] {
      NoReturn(g, w, i, j);
    }
  }

  lemma WalkIsKnown(g: Graph, names: set<string>, w: seq<string>)
    requires Walk(g, w) && Known(names, w[0]) && MembersKnown(g, names)
    ensures forall i :: 0 <= i < |w| ==> Known(names, w[i])
  {
    forall i | 0 <= i < |w| ensures Known(names, w[i]) {
      if i > 0 {
        var n := w[i - 1];
        assert n in g && w[i - 1 + 1] in g[n];
        var k :| 0 <= k < |g[n]| && g[n][k] == w[i];
      }
    }
  }

  lemma NoReturn(g: Graph, w: seq<string>, i: nat, j: nat)
    requires Walk(g, w) && i < j < |w| && !ReachesItself(g, w[i])
    ensures w[i] != w[j]
  {
    SubWalk(g, w, i, j + 1);
    var v := w[i..j + 1];
    assert v[0] == w[i] && v[|v| - 1] == w[j];
  }

  ghost predicate Accepted(base: set<string>, groups: seq<Group>) {
    && WellNamed(base, groups)
    && var g, names := GraphOf(groups), NamesOf(base, groups);
    && MembersKnown(g, names)
    && forall n :: n in g ==> !ReachesItself(g, n)
  }

  lemma {:induction false} GraphNames(groups: seq<Group>)
    ensures forall n :: n in GraphOf(groups) <==> exists i :: 0 <= i < |groups| && groups[i].name == n
  {
    if groups == [] {
    } else {
      var init := groups[..|groups| - 1];
      GraphNames(init);
      forall n ensures n in GraphOf(groups) <==> exists i :: 0 <= i < |groups| && groups[i].name == n {
        if i :| 0 <= i < |init| && init[i].name == n { assert groups[i].name == n; }
        if i :| 0 <= i < |groups| && groups[i].name == n { assert i < |init| ==> init[i].name == n; }
      }
    }
  }

  method CollectNames(base: set<string>, groups: seq<Group>) returns (ok: bool, names: set<string>, graph: Graph)
    ensures ok <==> WellNamed(base, groups)
    ensures ok ==> names == NamesOf(base, groups) && graph == GraphOf(groups)
  {
    hide WellNamed;
    WellNamedNone(base, groups);
    names, graph := base, map[];
    for k := 0 to |groups|
      invariant names == NamesOf(base, groups[..k]) && graph == GraphOf(groups[..k]) && WellNamed(base, groups[..k])
    {
      var x := groups[k];
      assert groups[..k + 1][..k] == groups[..k] && groups[..k + 1][k] == x;
      WellNamedStep(base, groups, k);
      if x.name == "" || x.name in names || x.proxies == [] || x.interval == 0 {
        return false, names, graph;
      }
      names := names + {x.name};
      graph := graph[x.name := x.proxies];
    }
    assert groups[..|groups|] == groups;
    ok := true;
  }

  lemma WellNamedNone(base: set<string>, groups: seq<Group>)
    ensures WellNamed(base, groups[..0]) && NamesOf(base, groups[..0]) == base
  {}

  lemma WellNamedStep(base: set<string>, groups: seq<Group>, k: nat)
    requires k < |groups| && WellNamed(base, groups[..k])
    ensures var x := groups[k];
      if x.name == "" || x.name in NamesOf(base, groups[..k]) || x.proxies == [] || x.interval == 0
      then !WellNamed(base, groups)
      else WellNamed(base, groups[..k + 1])
    ensures NamesOf(base, groups[..k + 1]) == NamesOf(base, groups[..k]) + {groups[k].name}
  {
    var x, init, more := groups[k], groups[..k], groups[..k + 1];
    assert more == init + [x];
    if x.name == "" || x.name in NamesOf(base, init) || x.proxies == [] || x.interval == 0 {
      NotWellNamed(base, groups, k);
    } else {
      forall i | 0 <= i < k ensures init[i].name != x.name {
        assert init[i].name in NamesOf(base, init);
      }
      assert forall i :: 0 <= i < k ==> more[i] == init[i];
    }
    forall n ensures n in NamesOf(base, more) <==> n in NamesOf(base, init) || n == x.name {
      if i :| 0 <= i < |init| && init[i].name == n { assert more[i].name == n; }
      if i :| 0 <= i < |more| && more[i].name == n { assert i < k ==> init[i].name == n; }
      assert more[k].name == x.name;
    }
  }

  lemma NotWellNamed(base: set<string>, groups: seq<Group>, k: nat)
    requires k < |groups|
    requires var x := groups[k];
      x.name == "" || x.name in NamesOf(base, groups[..k]) || x.proxies == [] || x.interval == 0
    ensures !WellNamed(base, groups)
  {
    var x := groups[k];
    if x.name in NamesOf(base, groups[..k]) && x.name !in base {
      var i :| 0 <= i < k && groups[..k][i].name == x.name;
      assert groups[i].name == groups[k].name;
    }
  }

  lemma GroupIsKnown(base: set<string>, groups: seq<Group>, n: string)
    requires BUILT_IN <= base && WellNamed(base, groups) && n in GraphOf(groups)
    ensures Known(NamesOf(base, groups), n)
  {
    GraphNames(groups);
    var i :| 0 <= i < |groups| && groups[i].name == n;
  }

  /** The group part of validation: accepted exactly when well named, with known members and no cycle. */
  method ValidateGroups(base: set<string>, groups: seq<Group>) returns (ok: bool)
    requires BUILT_IN <= base
    ensures ok <==> Accepted(base, groups)
  {
    hide AllGood, WellNamed;
    var named, names, graph := CollectNames(base, groups);
    if !named {
      return false;
    }
    GraphNames(groups);
    forall n | n in graph ensures Known(names, n) {
      GroupIsKnown(base, groups, n);
    }
    AcceptanceIsAcyclic(graph, names);
    for k := 0 to |groups|
      invariant forall i :: 0 <= i < k ==> AllGood(graph, names, {}, groups[i].name)
    {
      var good, _ := Visit(groups[k].name, graph, names, {});
      if !good {
        assert groups[k].name in graph;
        return false;
      }
    }
    ok := true;
  }

  // ----- following members ends

  /** In an accepted configuration a walk visits each group at most once. */
  lemma WalksAreShort(base: set<string>, groups: seq<Group>, w: seq<string>)
    requires BUILT_IN <= base && Accepted(base, groups)
    requires Walk(GraphOf(groups), w) && Known(NamesOf(base, groups), w[0])
    ensures |w| <= |GraphOf(groups)| + 1 && Known(NamesOf(base, groups), w[|w| - 1])
  {
    var g, names := GraphOf(groups), NamesOf(base, groups);
    AcyclicIsGood(g, names, w);
    var visited := w[..|w| - 1];
    forall i, j | 0 <= i < j < |visited| ensures visited[i] != visited[j] {
      assert visited[i] == w[i] && visited[j] == w[j];
    }
    DistinctSize(visited);
    SubsetSize((set n | n in visited), g.Keys);
    assert |g| == |g.Keys|;
  }

  /** Where `k` choices from `n` lead; a non-group stays where it is. */
  function Follow(g: Graph, choose: string -> string, n: string, k: nat): string {
    if k == 0 then n
    else
      var m := Follow(g, choose, n, k - 1);
      if m in g then choose(m) else m
  }

  ghost function Trail(g: Graph, choose: string -> string, n: string, k: nat): seq<string> {
    seq(k + 1, i requires 0 <= i <= k => Follow(g, choose, n, i))
  }

  /**
  In an accepted configuration, following any choice of members from any group reaches a known
  non-group within as many steps as there are groups.
  */
  lemma EveryChoiceEnds(base: set<string>, groups: seq<Group>, choose: string -> string, n: string)
    requires BUILT_IN <= base && Accepted(base, groups) && n in GraphOf(groups)
    requires forall m :: m in GraphOf(groups) ==> choose(m) in GraphOf(groups)[m]
    ensures exists k: nat :: k <= |GraphOf(groups)| && Follow(GraphOf(groups), choose, n, k) !in GraphOf(groups)
              && Known(NamesOf(base, groups), Follow(GraphOf(groups), choose, n, k))
  {
    var g := GraphOf(groups);
    hide WellNamed, NamesOf, GraphOf, Walk, Follow;
    assert Follow(g, choose, n, 0) == n by { FollowNone(g, choose, n); }
    GroupIsKnown(base, groups, n);
    var k: nat := 0;
    while Follow(g, choose, n, k) in g
      invariant forall i :: 0 <= i < k ==> Follow(g, choose, n, i) in g
      invariant k <= |g|
      decreases |g| + 1 - k
    {
      TrailIsWalk(g, choose, n, k + 1);
      WalksAreShort(base, groups, Trail(g, choose, n, k + 1));
      k := k + 1;
    }
    TrailIsWalk(g, choose, n, k);
    WalksAreShort(base, groups, Trail(g, choose, n, k));
  }

  lemma FollowNone(g: Graph, choose: string -> string, n: string)
    ensures Follow(g, choose, n, 0) == n
  {}

  lemma TrailIsWalk(g: Graph, choose: string -> string, n: string, k: nat)
    requires forall m :: m in g ==> choose(m) in g[m]
    requires forall i :: 0 <= i < k ==> Follow(g, choose, n, i) in g
    ensures Walk(g, Trail(g, choose, n, k))
  {
    var w := Trail(g, choose, n, k);
    forall i | 0 <= i < |w| - 1 ensures w[i] in g && w[i + 1] in g[w[i]] {
      assert Follow(g, choose, n, i + 1) == choose(Follow(g, choose, n, i));
    }
  }

  /** The name a connection to `GLOBAL` starts from. */
  function Entry(name: string, groups: seq<Group>, proxies: seq<string>): string {
    if name != "GLOBAL" then name
    else if groups != [] then groups[0].name
    else if proxies != [] then proxies[0]
    else "DIRECT"
  }

  /**
  Follows the selected members from a name. The bound on the loop is never hit in an accepted
  configuration, whatever is selected: the result is always a chain, never the cycle error.
  */
  method Chain(name: string, base: set<string>, groups: seq<Group>, proxies: seq<string>,
               selection: map<string, string>)
    returns (r: Option<seq<string>>)
    requires BUILT_IN <= base && Accepted(base, groups) && (forall i :: 0 <= i < |proxies| ==> Known(base, proxies[i]))
    requires name in NamesOf(base, groups)
    requires selection.Keys == GraphOf(groups).Keys && forall n :: n in selection ==> selection[n] in GraphOf(groups)[n]
    ensures r.Some? && r.value != [] && (name != "GLOBAL" ==> r.value[0] == name)
    ensures name == "GLOBAL" && groups != [] ==> r.value[0] == groups[0].name
    ensures name == "GLOBAL" && groups == [] ==> r.value[0] == (proxies + ["DIRECT"])[0]
    ensures forall i :: 0 <= i < |r.value| - 1 ==> r.value[i] in selection && r.value[i + 1] == selection[r.value[i]]
    ensures var end := r.value[|r.value| - 1]; end !in GraphOf(groups) && Known(NamesOf(base, groups), end)
  {
    hide Accepted, GraphOf, NamesOf, Known;
    var start := Entry(name, groups, proxies);
    EntryIsKnown(name, base, groups, proxies);
    var chain := [start];
    GraphSize(groups);
    var n := 0;
    while n <= |groups|
      invariant 0 <= n <= |groups| + 1 && |chain| == n + 1 && chain[0] == start
      invariant forall i :: 0 <= i < |chain| - 1 ==> chain[i] in selection && chain[i + 1] == selection[chain[i]]
    {
      SelectionsAreShort(base, groups, selection, chain);
      var last := chain[|chain| - 1];
      if last !in selection {
        return Some(chain);
      }
      chain := chain + [selection[last]];
      n := n + 1;
    }
    SelectionsAreShort(base, groups, selection, chain);
    r := None;
  }

  lemma EntryIsKnown(name: string, base: set<string>, groups: seq<Group>, proxies: seq<string>)
    requires BUILT_IN <= base && Accepted(base, groups) && (forall i :: 0 <= i < |proxies| ==> Known(base, proxies[i]))
    requires name in NamesOf(base, groups)
    ensures Known(NamesOf(base, groups), Entry(name, groups, proxies))
  {
    hide MembersKnown, ReachesItself;
  }

  /** Following selections from a known name is a walk, so it visits each group at most once. */
  lemma SelectionsAreShort(base: set<string>, groups: seq<Group>, selection: map<string, string>, chain: seq<string>)
    requires BUILT_IN <= base && Accepted(base, groups) && chain != [] && Known(NamesOf(base, groups), chain[0])
    requires selection.Keys == GraphOf(groups).Keys && forall n :: n in selection ==> selection[n] in GraphOf(groups)[n]
    requires forall i :: 0 <= i < |chain| - 1 ==> chain[i] in selection && chain[i + 1] == selection[chain[i]]
    ensures |chain| <= |GraphOf(groups)| + 1 && Known(NamesOf(base, groups), chain[|chain| - 1])
  {
    hide Accepted, GraphOf, NamesOf, Known;
    assert Walk(GraphOf(groups), chain);
    WalksAreShort(base, groups, chain);
  }

  lemma {:induction false} GraphSize(groups: seq<Group>)
    ensures |GraphOf(groups)| <= |groups|
  {
    if groups == [] {
    } else {
      var init := GraphOf(groups[..|groups| - 1]);
      GraphSize(groups[..|groups| - 1]);
      assert GraphOf(groups).Keys == init.Keys + {groups[|groups| - 1].name};
      assert |init| == |init.Keys| && |GraphOf(groups)| == |GraphOf(groups).Keys|;
    }
  }
}
