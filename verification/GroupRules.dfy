/** Which group configurations are accepted, said on the groups themselves. */
module GroupRules {
  import opened Groups

  /** Groups, by position, of which each names the next as a member and the last names the first. */
  ghost predicate Ring(groups: seq<Group>, ring: seq<nat>) {
    && ring != [] && (forall k :: 0 <= k < |ring| ==> ring[k] < |groups|)
    && (forall k :: 0 <= k < |ring| - 1 ==> groups[ring[k + 1]].name in groups[ring[k]].proxies)
    && groups[ring[0]].name in groups[ring[|ring| - 1]].proxies
  }

  /** Each group has a name of its own that is not taken, at least one member and a positive interval. */
  ghost predicate OwnNames(base: set<string>, groups: seq<Group>) {
    && (forall i :: 0 <= i < |groups| ==> groups[i].name != "" && groups[i].name !in base)
    && (forall i, j :: 0 <= i < j < |groups| ==> groups[i].name != groups[j].name)
    && (forall i :: 0 <= i < |groups| ==> |groups[i].proxies| > 0 && groups[i].interval > 0)
  }

  /** A taken name or that of a group, and not GLOBAL. */
  ghost predicate Named(base: set<string>, groups: seq<Group>, m: string) {
    m != "GLOBAL" && (m in base || exists j :: 0 <= j < |groups| && groups[j].name == m)
  }

  ghost predicate MembersNamed(base: set<string>, groups: seq<Group>) {
    forall i, k :: 0 <= i < |groups| && 0 <= k < |groups[i].proxies| ==> Named(base, groups, groups[i].proxies[k])
  }

  lemma {:induction false} MembersOf(groups: seq<Group>, i: nat)
    requires i < |groups| && forall j, k :: 0 <= j < k < |groups| ==> groups[j].name != groups[k].name
    ensures groups[i].name in GraphOf(groups) && GraphOf(groups)[groups[i].name] == groups[i].proxies
  {
    var n := |groups| - 1;
    if i < n {
      assert groups[..n][i] == groups[i];
      MembersOf(groups[..n], i);
    }
  }

  lemma GroupNamed(base: set<string>, groups: seq<Group>, n: string) returns (i: nat)
    requires OwnNames(base, groups) && n in GraphOf(groups)
    ensures i < |groups| && groups[i].name == n && GraphOf(groups)[n] == groups[i].proxies
  {
    GraphNames(groups);
    i :| 0 <= i < |groups| && groups[i].name == n;
    MembersOf(groups, i);
  }

  lemma NamedIsKnown(base: set<string>, groups: seq<Group>, m: string)
    ensures Named(base, groups, m) <==> Known(NamesOf(base, groups), m)
  {}

  lemma MembersAlike(base: set<string>, groups: seq<Group>)
    requires OwnNames(base, groups)
    ensures MembersKnown(GraphOf(groups), NamesOf(base, groups)) <==> MembersNamed(base, groups)
  {
    hide GraphOf, NamesOf, Named, Known;
    var g, names := GraphOf(groups), NamesOf(base, groups);
    if MembersKnown(g, names) {
      forall i, k | 0 <= i < |groups| && 0 <= k < |groups[i].proxies|
        ensures Named(base, groups, groups[i].proxies[k])
      {
        MembersOf(groups, i);
        assert Known(names, g[groups[i].name][k]);
        NamedIsKnown(base, groups, groups[i].proxies[k]);
      }
    }
    if MembersNamed(base, groups) {
      forall n, k | n in g && 0 <= k < |g[n]| ensures Known(names, g[n][k]) {
        var i := GroupNamed(base, groups, n);
        NamedIsKnown(base, groups, groups[i].proxies[k]);
      }
    }
  }

  lemma WalkIsRing(base: set<string>, groups: seq<Group>, w: seq<string>) returns (ring: seq<nat>)
    requires OwnNames(base, groups) && Walk(GraphOf(groups), w) && |w| > 1 && w[0] == w[|w| - 1]
    ensures Ring(groups, ring)
  {
    hide GraphOf, OwnNames;
    var g := GraphOf(groups);
    ring := [];
    while |ring| < |w| - 1
      invariant |ring| <= |w| - 1
      invariant forall k :: 0 <= k < |ring| ==>
        ring[k] < |groups| && groups[ring[k]].name == w[k] && w[k] in g && g[w[k]] == groups[ring[k]].proxies
    {
      var k := |ring|;
      assert w[k] in g && w[k + 1] in g[w[k]];
      var i := GroupNamed(base, groups, w[k]);
      ring := ring + [i];
    }
    forall k | 0 <= k < |ring| ensures w[k + 1] in groups[ring[k]].proxies {
      assert w[k] in g && w[k + 1] in g[w[k]];
    }
  }

  lemma RingIsWalk(base: set<string>, groups: seq<Group>, ring: seq<nat>)
    requires OwnNames(base, groups) && Ring(groups, ring)
    ensures groups[ring[0]].name in GraphOf(groups) && ReachesItself(GraphOf(groups), groups[ring[0]].name)
  {
    hide GraphOf;
    var g, n := GraphOf(groups), |ring|;
    var w := seq(n + 1, k requires 0 <= k <= n => groups[ring[if k < n then k else 0]].name);
    forall k | 0 <= k < n ensures w[k] in g && w[k + 1] in g[w[k]] {
      MembersOf(groups, ring[k]);
    }
    assert Walk(g, w) && w[0] == groups[ring[0]].name && w[|w| - 1] == w[0];
  }

  /** Accepted exactly: own names, named members, and no ring of groups. */
  lemma AcceptedExactly(base: set<string>, groups: seq<Group>)
    ensures Accepted(base, groups) <==>
      OwnNames(base, groups) && MembersNamed(base, groups) && !exists ring :: Ring(groups, ring)
  {
    hide GraphOf, NamesOf, MembersKnown, MembersNamed, Ring;
    if OwnNames(base, groups) {
      MembersAlike(base, groups);
      var g := GraphOf(groups);
      if ring :| Ring(groups, ring) { RingIsWalk(base, groups, ring); }
      if n :| n in g && ReachesItself(g, n) {
        var w :| Walk(g, w) && |w| > 1 && w[0] == n && w[|w| - 1] == n;
        var ring := WalkIsRing(base, groups, w);
      }
    }
  }
}
