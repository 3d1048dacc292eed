/** What no-resolve exemptions can change: the condition without them, and with other address conditions. */
module Exemption {
  import opened Common
  import opened Addresses
  import opened Matcher

  /** The condition with every exemption taken off. */
  function Bare(m: Matcher): Matcher
    decreases m, 1
  {
    if m.Not? then Not(Bare(m.inner))
    else if m.NoResolve? then Bare(m.inner)
    else if m.And? then And(BareAll(m.nodes))
    else if m.Or? then Or(BareAll(m.nodes))
    else m
  }

  function BareAll(nodes: seq<Matcher>): (r: seq<Matcher>)
    ensures |r| == |nodes| && forall i :: 0 <= i < |r| ==> r[i] == Bare(nodes[i])
    decreases nodes, 0
  {
    if nodes == [] then [] else [Bare(nodes[0])] + BareAll(nodes[1..])
  }

  lemma {:induction false} BareHasNoExemption(m: Matcher)
    ensures NoExempt(Bare(m))
    decreases m
  {
    if m.Not? {
      BareHasNoExemption(m.inner);
    } else if m.NoResolve? {
      BareHasNoExemption(m.inner);
    } else if m.And? {
      forall i | 0 <= i < |m.nodes| ensures NoExempt(Bare(m.nodes[i])) { BareHasNoExemption(m.nodes[i]); }
    } else if m.Or? {
      forall i | 0 <= i < |m.nodes| ensures NoExempt(Bare(m.nodes[i])) { BareHasNoExemption(m.nodes[i]); }
    }
  }

  /** With an address, exemptions make no difference. */
  lemma {:induction false} BareWithAddress(m: Matcher, t: Target, ip: IpAddr, c: bool, d: bool)
    ensures Evaluate(Bare(m), t, Some(ip), c) == Evaluate(m, t, Some(ip), d)
    decreases m, 1
  {
    hide Plain;
    if m.Not? {
      BareWithAddress(m.inner, t, ip, c, d);
    } else if m.NoResolve? {
      BareWithAddress(m.inner, t, ip, c, false);
    } else if m.And? {
      BareAllWithAddress(m.nodes, true, false, t, ip, c, d);
    } else if m.Or? {
      BareAllWithAddress(m.nodes, false, false, t, ip, c, d);
    }
  }

  lemma {:induction false} BareAllWithAddress(nodes: seq<Matcher>, and: bool, unknown: bool, t: Target, ip: IpAddr,
                                              c: bool, d: bool)
    ensures EvaluateAll(BareAll(nodes), and, unknown, t, Some(ip), c)
         == EvaluateAll(nodes, and, unknown, t, Some(ip), d)
    decreases nodes, 0
  {
    if nodes == [] {
    } else {
      BareWithAddress(nodes[0], t, ip, c, d);
      var v := Evaluate(nodes[0], t, Some(ip), d);
      BareAllWithAddress(nodes[1..], and, unknown || v.None?, t, ip, c, d);
      assert BareAll(nodes)[1..] == BareAll(nodes[1..]);
    }
  }

  /** What the bare condition decides without an address, the condition decides alike. */
  lemma {:induction false} BareDecides(m: Matcher, t: Target, c: bool)
    ensures var v := Evaluate(Bare(m), t, None, true); v.Some? ==> Evaluate(m, t, None, c) == v
    decreases m, 1
  {
    hide Plain;
    if m.Not? {
      BareDecides(m.inner, t, c);
    } else if m.NoResolve? {
      BareDecides(m.inner, t, false);
    } else if m.And? {
      BareAllDecides(m.nodes, true, false, false, t, c);
    } else if m.Or? {
      BareAllDecides(m.nodes, false, false, false, t, c);
    }
  }

  lemma {:induction false} BareAllDecides(nodes: seq<Matcher>, and: bool, bareUnknown: bool, unknown: bool, t: Target,
                                          c: bool)
    requires unknown ==> bareUnknown
    ensures var v := EvaluateAll(BareAll(nodes), and, bareUnknown, t, None, true);
      v.Some? ==> EvaluateAll(nodes, and, unknown, t, None, c) == v
    decreases nodes, 0
  {
    if nodes == [] {
    } else {
      BareDecides(nodes[0], t, c);
      assert BareAll(nodes)[1..] == BareAll(nodes[1..]);
      var b, v := Evaluate(Bare(nodes[0]), t, None, true), Evaluate(nodes[0], t, None, c);
      BareAllDecides(nodes[1..], and, bareUnknown || b.None?, unknown || v.None?, t, c);
      if b.None? { OpenStays(BareAll(nodes[1..]), and, t); }
    }
  }

  /** A bare condition decided without an address: its verdict is that of the condition under every address. */
  lemma BareIsSound(m: Matcher, t: Target, ip: Option<IpAddr>, c: bool)
    requires Evaluate(Bare(m), t, None, true).Some?
    ensures Evaluate(m, t, ip, c) == Evaluate(Bare(m), t, None, true)
  {
    if ip.None? {
      BareDecides(m, t, c);
    } else {
      BareHasNoExemption(m);
      BareWithAddress(m, t, ip.value, false, c);
      LazyIsSound(Bare(m), t, ip, false);
    }
  }

  // ----- conditions without exempted addresses

  lemma {:induction false} NoIpNoExemption(m: Matcher)
    requires !HasIp(m)
    ensures NoExempt(m)
    decreases m
  {
    if m.Not? {
      NoIpNoExemption(m.inner);
    } else if m.NoResolve? {
    } else if m.And? {
      forall i | 0 <= i < |m.nodes| ensures NoExempt(m.nodes[i]) { NoIpNoExemption(m.nodes[i]); }
    } else if m.Or? {
      forall i | 0 <= i < |m.nodes| ensures NoExempt(m.nodes[i]) { NoIpNoExemption(m.nodes[i]); }
    }
  }

  /** Where no address condition is exempted, taking exemptions off changes nothing. */
  lemma {:induction false} BareIsSame(m: Matcher, t: Target, ip: Option<IpAddr>, c: bool)
    requires NoExempt(m)
    ensures Evaluate(Bare(m), t, ip, c) == Evaluate(m, t, ip, c)
    decreases m, 1
  {
    if m.Not? {
      BareIsSame(m.inner, t, ip, c);
    } else if m.NoResolve? {
      NoIpNoExemption(m.inner);
      BareIsSame(m.inner, t, ip, c);
      IpFree(m.inner, t, ip, ip, c, false);
    } else if m.And? {
      BareAllIsSame(m.nodes, true, false, t, ip, c);
    } else if m.Or? {
      BareAllIsSame(m.nodes, false, false, t, ip, c);
    }
  }

  lemma {:induction false} BareAllIsSame(nodes: seq<Matcher>, and: bool, unknown: bool, t: Target, ip: Option<IpAddr>,
                                         c: bool)
    requires forall i :: 0 <= i < |nodes| ==> NoExempt(nodes[i])
    ensures EvaluateAll(BareAll(nodes), and, unknown, t, ip, c) == EvaluateAll(nodes, and, unknown, t, ip, c)
    decreases nodes, 0
  {
    if nodes == [] {
    } else {
      BareIsSame(nodes[0], t, ip, c);
      var v := Evaluate(nodes[0], t, ip, c);
      BareAllIsSame(nodes[1..], and, unknown || v.None?, t, ip, c);
      assert BareAll(nodes)[1..] == BareAll(nodes[1..]);
    }
  }

  // ----- other address conditions

  /** The condition with its address conditions replaced: each holds of all addresses or of none, as `a` says. */
  function Answering(m: Matcher, a: Answers): Matcher
    decreases m, 1
  {
    if m.Not? then Not(Answering(m.inner, a))
    else if m.NoResolve? then NoResolve(Answering(m.inner, a))
    else if m.And? then And(AnsweringAll(m.nodes, Kids(a)))
    else if m.Or? then Or(AnsweringAll(m.nodes, Kids(a)))
    else if IsIp(m) then Nets(_ => a == Leaf(true)) else m
  }

  function AnsweringAll(nodes: seq<Matcher>, kids: seq<Answers>): (r: seq<Matcher>)
    ensures |r| == |nodes|
    decreases nodes, 0
  {
    if nodes == [] then [] else [Answering(nodes[0], Head(kids))] + AnsweringAll(nodes[1..], Tail(kids))
  }

  /** Without an address the replacement cannot be told from the condition. */
  lemma {:induction false} AnsweringUnasked(m: Matcher, t: Target, a: Answers, c: bool)
    ensures Evaluate(Answering(m, a), t, None, c) == Evaluate(m, t, None, c)
    decreases m, 1
  {
    hide Plain;
    if m.Not? {
      AnsweringUnasked(m.inner, t, a, c);
    } else if m.NoResolve? {
      AnsweringUnasked(m.inner, t, a, false);
    } else if m.And? {
      AnsweringAllUnasked(m.nodes, true, false, t, Kids(a), c);
    } else if m.Or? {
      AnsweringAllUnasked(m.nodes, false, false, t, Kids(a), c);
    }
  }

  lemma {:induction false} AnsweringAllUnasked(nodes: seq<Matcher>, and: bool, unknown: bool, t: Target,
                                               kids: seq<Answers>, c: bool)
    ensures EvaluateAll(AnsweringAll(nodes, kids), and, unknown, t, None, c)
         == EvaluateAll(nodes, and, unknown, t, None, c)
    decreases nodes, 0
  {
    var other := AnsweringAll(nodes, kids);
    if nodes == [] {
    } else {
      AnsweringUnasked(nodes[0], t, Head(kids), c);
      assert other[0] == Answering(nodes[0], Head(kids)) && other[1..] == AnsweringAll(nodes[1..], Tail(kids));
      var v := Evaluate(nodes[0], t, None, c);
      AnsweringAllUnasked(nodes[1..], and, unknown || v.None?, t, Tail(kids), c);
    }
  }

  /** Taking exemptions off and replacing address conditions do not interfere. */
  lemma {:induction false} BareAnswering(m: Matcher, a: Answers)
    ensures Bare(Answering(m, a)) == Answering(Bare(m), a)
    decreases m, 1
  {
    if m.Not? {
      BareAnswering(m.inner, a);
    } else if m.NoResolve? {
      BareAnswering(m.inner, a);
    } else if m.And? {
      BareAnsweringAll(m.nodes, Kids(a));
    } else if m.Or? {
      BareAnsweringAll(m.nodes, Kids(a));
    }
  }

  lemma {:induction false} BareAnsweringAll(nodes: seq<Matcher>, kids: seq<Answers>)
    ensures BareAll(AnsweringAll(nodes, kids)) == AnsweringAll(BareAll(nodes), kids)
    decreases nodes, 0
  {
    if nodes == [] {
    } else {
      BareAnswering(nodes[0], Head(kids));
      BareAnsweringAll(nodes[1..], Tail(kids));
      assert AnsweringAll(nodes, kids)[1..] == AnsweringAll(nodes[1..], Tail(kids));
      assert BareAll(nodes)[1..] == BareAll(nodes[1..]);
    }
  }

  /** With any address the replacement has the verdict of the bare condition under these answers. */
  lemma {:induction false} AnsweringAnswers(m: Matcher, t: Target, a: Answers, ip: IpAddr, c: bool)
    ensures Evaluate(Answering(m, a), t, Some(ip), c) == Some(Resolved(Bare(m), t, a))
    decreases m, 1
  {
    hide Plain, IpHolds, EvaluateAll, ResolvedAll, AnsweringAll, BareAll;
    var other, bare := Answering(m, a), Bare(m);
    if m.Not? {
      AnsweringAnswers(m.inner, t, a, ip, c);
      assert other == Not(Answering(m.inner, a)) && bare == Not(Bare(m.inner));
    } else if m.NoResolve? {
      AnsweringAnswers(m.inner, t, a, ip, false);
      assert other == NoResolve(Answering(m.inner, a)) && bare == Bare(m.inner);
    } else if m.And? {
      AnsweringAllAnswers(m.nodes, true, t, Kids(a), ip, c);
      assert other == And(AnsweringAll(m.nodes, Kids(a))) && bare == And(BareAll(m.nodes));
    } else if m.Or? {
      AnsweringAllAnswers(m.nodes, false, t, Kids(a), ip, c);
      assert other == Or(AnsweringAll(m.nodes, Kids(a))) && bare == Or(BareAll(m.nodes));
    } else {
      LeafAnswers(m, t, a, ip, c);
    }
  }

  lemma LeafAnswers(m: Matcher, t: Target, a: Answers, ip: IpAddr, c: bool)
    requires !m.Not? && !m.NoResolve? && !m.And? && !m.Or?
    ensures Evaluate(Answering(m, a), t, Some(ip), c) == Some(Resolved(Bare(m), t, a))
  {
    hide Plain;
  }

  lemma {:induction false} AnsweringAllAnswers(nodes: seq<Matcher>, and: bool, t: Target, kids: seq<Answers>,
                                               ip: IpAddr, c: bool)
    ensures EvaluateAll(AnsweringAll(nodes, kids), and, false, t, Some(ip), c)
         == Some(ResolvedAll(BareAll(nodes), and, t, kids))
    decreases nodes, 0
  {
    var other := AnsweringAll(nodes, kids);
    if nodes == [] {
    } else {
      AnsweringAnswers(nodes[0], t, Head(kids), ip, c);
      AnsweringAllAnswers(nodes[1..], and, t, Tail(kids), ip, c);
      assert other[0] == Answering(nodes[0], Head(kids)) && other[1..] == AnsweringAll(nodes[1..], Tail(kids));
      assert BareAll(nodes)[1..] == BareAll(nodes[1..]);
    }
  }

  /**
  An undecided bare condition can be overturned: whatever verdict the condition has without an
  address, with other address conditions it would have the same one there and the opposite one
  with any address.
  */
  lemma BareOpenIsOverturned(m: Matcher, t: Target, c: bool, ip: IpAddr) returns (a: Answers)
    requires Evaluate(Bare(m), t, None, true).None? && Evaluate(m, t, None, c).Some?
    ensures Evaluate(Answering(m, a), t, None, c) == Evaluate(m, t, None, c)
    ensures Evaluate(Answering(m, a), t, Some(ip), false) == Some(!Evaluate(m, t, None, c).value)
  {
    var yes, no := OpenBothWays(Bare(m), t);
    a := if Evaluate(m, t, None, c).value then no else yes;
    AnsweringUnasked(m, t, a, c);
    AnsweringAnswers(m, t, a, ip, false);
  }

  // ----- address conditions outside every exemption

  predicate IsAddressCondition(m: Matcher) { m.Net? || m.Nets? || m.ExternalIp? || m.GeoIp? }

  ghost predicate IsChild(parent: Matcher, m: Matcher) {
    || ((parent.Not? || parent.NoResolve?) && m == parent.inner)
    || ((parent.And? || parent.Or?) && m in parent.nodes)
  }

  /** A way down from `m` to an address condition that passes no exemption. */
  ghost predicate LeadsTo(m: Matcher, path: seq<Matcher>) {
    && path != [] && path[0] == m && IsAddressCondition(path[|path| - 1])
    && (forall i :: 0 <= i < |path| - 1 ==> IsChild(path[i], path[i + 1]))
    && (forall i :: 0 <= i < |path| ==> !path[i].NoResolve?)
  }

  /** Some address condition lies outside every exemption. */
  ghost predicate Exposed(m: Matcher) { exists path :: LeadsTo(m, path) }

  lemma {:induction false} NeededIsExposed(m: Matcher)
    requires NeedsAddress(m)
    ensures Exposed(m)
    decreases m
  {
    if IsAddressCondition(m) {
      assert LeadsTo(m, [m]);
    } else {
      var child := if m.Not? then m.inner else var i :| 0 <= i < |m.nodes| && NeedsAddress(m.nodes[i]); m.nodes[i];
      NeededIsExposed(child);
      var path :| LeadsTo(child, path);
      assert LeadsTo(m, [m] + path);
    }
  }

  lemma {:induction false} ExposedIsNeeded(m: Matcher, path: seq<Matcher>)
    requires LeadsTo(m, path)
    ensures NeedsAddress(m)
    decreases |path|
  {
    if |path| == 1 {
    } else {
      assert IsChild(path[0], path[1]);
      assert LeadsTo(path[1], path[1..]);
      ExposedIsNeeded(path[1], path[1..]);
    }
  }

  /** The static analysis says yes exactly when some address condition lies outside every exemption. */
  lemma NeedsAddressExactly(m: Matcher)
    ensures NeedsAddress(m) <==> Exposed(m)
  {
    if NeedsAddress(m) { NeededIsExposed(m); }
    if path :| LeadsTo(m, path) { ExposedIsNeeded(m, path); }
  }
}
