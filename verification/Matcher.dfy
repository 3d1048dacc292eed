/** Rule conditions: three-valued evaluation that asks for an address only when it matters. */
module Matcher {
  import opened Common
  import opened Addresses
  import D = DomainSet

  /**
  Compiled sets and databases are their membership functions here: `DomainSet` and `IpSet`
  say what those of packed sets are.
  */
  datatype Matcher =
    | Domain(name: string)
    | Suffix(name: string)
    | Subdomain(name: string)
    | Keyword(word: string)
    | Regex(matches: string -> bool)
    | Domains(contains: string -> bool)
    | Net(net: Network)
    | Nets(covers: IpAddr -> bool)
    | ExternalIp(external: IpAddr -> bool)
    | Port(port: nat)
    | Ports(ranges: seq<(nat, nat)>)
    | Transport(network: string)
    | OnNetwork(on: bool)
    | GeoIp(tag: string)
    | GeoSite(tag: string)
    | RuleSet(tag: string)
    | And(nodes: seq<Matcher>)
    | Or(nodes: seq<Matcher>)
    | Not(inner: Matcher)
    | NoResolve(inner: Matcher)
    | All

  datatype Target = Target(host: string, port: nat, network: string)

  predicate IsIp(m: Matcher) { m.Net? || m.Nets? || m.ExternalIp? }

  predicate IpHolds(m: Matcher, ip: IpAddr)
    requires IsIp(m)
  {
    match m
    case Net(net) => net.prefix <= Width(net.v6) && net.Contains(ip)
    case Nets(covers) => covers(ip)
    case ExternalIp(external) => external(ip)
  }

  /** The conditions that need neither an address nor other conditions. */
  predicate Plain(m: Matcher, t: Target) {
    match m
    case Domain(d) => t.host == d
    case Suffix(d) => D.MatchesSuffix(d, t.host)
    case Subdomain(d) => D.MatchesSubdomain(d, t.host)
    case Keyword(k) => D.HasKeyword(t.host, k)
    case Regex(matches) => matches(t.host)
    case Domains(contains) => contains(t.host)
    case Port(p) => p == t.port
    case Ports(r) => exists i :: 0 <= i < |r| && r[i].0 <= t.port <= r[i].1
    case Transport(n) => n == t.network
    case OnNetwork(on) => on
    case All => true
    case _ => false
  }

  /** None asks for the address of the host. */
  function Evaluate(m: Matcher, t: Target, ip: Option<IpAddr>, canResolve: bool): Option<bool>
    decreases m, 1
  {
    match m
    case Not(inner) =>
      var v := Evaluate(inner, t, ip, canResolve);
      if v.None? then None else Some(!v.value)
    case NoResolve(inner) => Evaluate(inner, t, ip, false)
    case And(nodes) => EvaluateAll(nodes, true, false, t, ip, canResolve)
    case Or(nodes) => EvaluateAll(nodes, false, false, t, ip, canResolve)
    case _ =>
      if !IsIp(m) then Some(Plain(m, t))
      else if ip.Some? then Some(IpHolds(m, ip.value))
      else if canResolve then None
      else Some(false)
  }

  /** The children of a conjunction (`and`) or disjunction: one can decide, else one can leave it open. */
  function EvaluateAll(nodes: seq<Matcher>, and: bool, unknown: bool, t: Target, ip: Option<IpAddr>,
                       canResolve: bool): Option<bool>
    decreases nodes, 0
  {
    if nodes == [] then if unknown then None else Some(and)
    else
      var v := Evaluate(nodes[0], t, ip, canResolve);
      if v.Some? && v.value != and then v
      else EvaluateAll(nodes[1..], and, unknown || v.None?, t, ip, canResolve)
  }

  // ----- when a verdict is certain

  /** With an address, or without the right to ask for one, there is always a verdict. */
  lemma {:induction false} AlwaysDecided(m: Matcher, t: Target, ip: Option<IpAddr>, canResolve: bool)
    requires ip.Some? || !canResolve
    ensures Evaluate(m, t, ip, canResolve).Some?
    ensures ip.Some? ==> Evaluate(m, t, ip, canResolve) == Evaluate(m, t, ip, false)
    decreases m, 1
  {
    match m
    case Not(inner) => AlwaysDecided(inner, t, ip, canResolve);
    case NoResolve(inner) => AlwaysDecided(inner, t, ip, false);
    case And(nodes) => AllDecided(nodes, true, t, ip, canResolve);
    case Or(nodes) => AllDecided(nodes, false, t, ip, canResolve);
    case _ =>
  }

  lemma {:induction false} AllDecided(nodes: seq<Matcher>, and: bool, t: Target, ip: Option<IpAddr>, canResolve: bool)
    requires ip.Some? || !canResolve
    ensures EvaluateAll(nodes, and, false, t, ip, canResolve).Some?
    ensures ip.Some? ==>
      EvaluateAll(nodes, and, false, t, ip, canResolve) == EvaluateAll(nodes, and, false, t, ip, false)
    decreases nodes, 0
  {
    if nodes == [] {
    } else {
      AlwaysDecided(nodes[0], t, ip, canResolve);
      AllDecided(nodes[1..], and, t, ip, canResolve);
    }
  }

  // ----- what an open verdict means

  /** One answer per address condition, in the shape of the matcher. */
  datatype Answers = Leaf(yes: bool) | Node(kids: seq<Answers>)

  function Kids(a: Answers): seq<Answers> { if a.Node? then a.kids else [] }

  function Head(kids: seq<Answers>): Answers { if kids == [] then Leaf(false) else kids[0] }

  function Tail(kids: seq<Answers>): seq<Answers> { if kids == [] then [] else kids[1..] }

  /** Two-valued meaning when every address condition outside NoResolve is answered by `a`. */
  function Resolved(m: Matcher, t: Target, a: Answers): bool
    decreases m, 1
  {
    match m
    case Not(inner) => !Resolved(inner, t, a)
    case NoResolve(inner) => Evaluate(inner, t, None, false) == Some(true)
    case And(nodes) => ResolvedAll(nodes, true, t, Kids(a))
    case Or(nodes) => ResolvedAll(nodes, false, t, Kids(a))
    case _ => if IsIp(m) then a == Leaf(true) else Plain(m, t)
  }

  /** Whether all children hold (`and`) or some child holds; child `k` reads `kids[k]`. */
  function ResolvedAll(nodes: seq<Matcher>, and: bool, t: Target, kids: seq<Answers>): bool
    decreases nodes, 0
  {
    if nodes == [] then and
    else
      var v := Resolved(nodes[0], t, Head(kids));
      if v != and then v else ResolvedAll(nodes[1..], and, t, Tail(kids))
  }

  /** A verdict without an address is the verdict under all answers to the address conditions. */
  lemma {:induction false} DecidedForAll(m: Matcher, t: Target, a: Answers)
    ensures var v := Evaluate(m, t, None, true); v.Some? ==> Resolved(m, t, a) == v.value
    decreases m, 1
  {
    match m
    case Not(inner) => DecidedForAll(inner, t, a);
    case NoResolve(inner) => AlwaysDecided(inner, t, None, false);
    case And(nodes) => DecidedForAllNodes(nodes, true, false, t, Kids(a));
    case Or(nodes) => DecidedForAllNodes(nodes, false, false, t, Kids(a));
    case _ =>
  }

  lemma {:induction false} DecidedForAllNodes(nodes: seq<Matcher>, and: bool, unknown: bool, t: Target,
                                              kids: seq<Answers>)
    ensures var v := EvaluateAll(nodes, and, unknown, t, None, true);
      v.Some? ==> ResolvedAll(nodes, and, t, kids) == v.value
    decreases nodes, 0
  {
    if nodes == [] {
    } else {
      DecidedForAll(nodes[0], t, Head(kids));
      var v := Evaluate(nodes[0], t, None, true);
      DecidedForAllNodes(nodes[1..], and, unknown || v.None?, t, Tail(kids));
      if v.None? { OpenStays(nodes[1..], and, t); }
    }
  }

  /** Once a child is open, only a deciding child can still give a verdict. */
  lemma {:induction false} OpenStays(nodes: seq<Matcher>, and: bool, t: Target)
    ensures var v := EvaluateAll(nodes, and, true, t, None, true); v.Some? ==> v.value != and
    decreases nodes
  {
    if nodes == [] {
    } else {
      OpenStays(nodes[1..], and, t);
    }
  }

  /** An open verdict really is open: some answers make it true, others false. */
  lemma {:induction false} OpenBothWays(m: Matcher, t: Target) returns (yes: Answers, no: Answers)
    requires Evaluate(m, t, None, true).None?
    ensures Resolved(m, t, yes) && !Resolved(m, t, no)
    decreases m, 1
  {
    yes, no := Leaf(true), Leaf(false);
    match m
    case Not(inner) =>
      no, yes := OpenBothWays(inner, t);
    case NoResolve(inner) =>
      AlwaysDecided(inner, t, None, false);
    case And(nodes) =>
      var same, other := OpenNodes(nodes, true, false, t);
      yes, no := Node(same), Node(other);
    case Or(nodes) =>
      var same, other := OpenNodes(nodes, false, false, t);
      yes, no := Node(other), Node(same);
    case _ =>
  }

  lemma {:induction false} OpenNodes(nodes: seq<Matcher>, and: bool, unknown: bool, t: Target)
    returns (same: seq<Answers>, other: seq<Answers>)
    requires EvaluateAll(nodes, and, unknown, t, None, true).None?
    ensures ResolvedAll(nodes, and, t, same) == and
    ensures !unknown ==> ResolvedAll(nodes, and, t, other) != and
    decreases nodes, 0
  {
    same, other := [], [];
    if nodes == [] {
    } else {
      var v := Evaluate(nodes[0], t, None, true);
      var restSame, restOther := OpenNodes(nodes[1..], and, unknown || v.None?, t);
      if v.None? {
        var yes, no := OpenBothWays(nodes[0], t);
        same := [if and then yes else no] + restSame;
        other := [if and then no else yes];
        assert Tail(same) == restSame;
      } else {
        DecidedForAll(nodes[0], t, Leaf(false));
        same, other := [Leaf(false)] + restSame, [Leaf(false)] + restOther;
        assert Tail(same) == restSame && Tail(other) == restOther;
      }
    }
  }

  // ----- lazy evaluation against evaluation with an address

  /** An address condition anywhere inside. */
  predicate HasIp(m: Matcher)
    decreases m
  {
    match m
    case Not(inner) => HasIp(inner)
    case NoResolve(inner) => HasIp(inner)
    case And(nodes) => exists i :: 0 <= i < |nodes| && HasIp(nodes[i])
    case Or(nodes) => exists i :: 0 <= i < |nodes| && HasIp(nodes[i])
    case _ => IsIp(m)
  }

  /** No address condition is exempted from resolving inside. */
  predicate NoExempt(m: Matcher)
    decreases m
  {
    match m
    case Not(inner) => NoExempt(inner)
    case NoResolve(inner) => !HasIp(inner)
    case And(nodes) => forall i :: 0 <= i < |nodes| ==> NoExempt(nodes[i])
    case Or(nodes) => forall i :: 0 <= i < |nodes| ==> NoExempt(nodes[i])
    case _ => true
  }

  /** The answers an address gives; a failed lookup answers every address condition with no. */
  function AnswersOf(m: Matcher, ip: Option<IpAddr>): Answers
    decreases m, 1
  {
    match m
    case Not(inner) => AnswersOf(inner, ip)
    case And(nodes) => Node(AnswersOfAll(nodes, ip))
    case Or(nodes) => Node(AnswersOfAll(nodes, ip))
    case _ => if IsIp(m) then Leaf(ip.Some? && IpHolds(m, ip.value)) else Leaf(false)
  }

  function AnswersOfAll(nodes: seq<Matcher>, ip: Option<IpAddr>): seq<Answers>
    decreases nodes, 0
  {
    if nodes == [] then [] else [AnswersOf(nodes[0], ip)] + AnswersOfAll(nodes[1..], ip)
  }

  /** Without address conditions the address makes no difference. */
  lemma {:induction false} IpFree(m: Matcher, t: Target, ip: Option<IpAddr>, jp: Option<IpAddr>, c: bool, d: bool)
    requires !HasIp(m)
    ensures Evaluate(m, t, ip, c) == Evaluate(m, t, jp, d)
    decreases m, 1
  {
    match m
    case Not(inner) => IpFree(inner, t, ip, jp, c, d);
    case NoResolve(inner) => IpFree(inner, t, ip, jp, false, false);
    case And(nodes) => IpFreeAll(nodes, true, false, t, ip, jp, c, d);
    case Or(nodes) => IpFreeAll(nodes, false, false, t, ip, jp, c, d);
    case _ =>
  }

  lemma {:induction false} IpFreeAll(nodes: seq<Matcher>, and: bool, unknown: bool, t: Target,
                                     ip: Option<IpAddr>, jp: Option<IpAddr>, c: bool, d: bool)
    requires forall i :: 0 <= i < |nodes| ==> !HasIp(nodes[i])
    ensures EvaluateAll(nodes, and, unknown, t, ip, c) == EvaluateAll(nodes, and, unknown, t, jp, d)
    decreases nodes, 0
  {
    if nodes == [] {
    } else {
      IpFree(nodes[0], t, ip, jp, c, d);
      var v := Evaluate(nodes[0], t, ip, c);
      IpFreeAll(nodes[1..], and, unknown || v.None?, t, ip, jp, c, d);
    }
  }

  /** Evaluation once the address is settled is the two-valued meaning under its answers. */
  lemma {:induction false} SettledIsResolved(m: Matcher, t: Target, ip: Option<IpAddr>)
    requires NoExempt(m) || ip.None?
    ensures Evaluate(m, t, ip, false) == Some(Resolved(m, t, AnswersOf(m, ip)))
    decreases m, 1
  {
    var a := AnswersOf(m, ip);
    match m
    case Not(inner) =>
      SettledIsResolved(inner, t, ip);
      assert a == AnswersOf(inner, ip);
    case NoResolve(inner) =>
      AlwaysDecided(inner, t, None, false);
      if ip.Some? { IpFree(inner, t, ip, None, false, false); }
      var v := Evaluate(inner, t, None, false);
      assert v == Some(v.value) && Resolved(m, t, a) == v.value;
      assert Evaluate(m, t, ip, false) == v;
    case And(nodes) =>
      SettledIsResolvedAll(nodes, true, t, ip);
      assert a == Node(AnswersOfAll(nodes, ip));
      assert Resolved(m, t, a) == ResolvedAll(nodes, true, t, a.kids);
    case Or(nodes) =>
      SettledIsResolvedAll(nodes, false, t, ip);
      assert a == Node(AnswersOfAll(nodes, ip));
      assert Resolved(m, t, a) == ResolvedAll(nodes, false, t, a.kids);
    case _ =>
  }

  lemma {:induction false} SettledIsResolvedAll(nodes: seq<Matcher>, and: bool, t: Target, ip: Option<IpAddr>)
    requires (forall i :: 0 <= i < |nodes| ==> NoExempt(nodes[i])) || ip.None?
    ensures EvaluateAll(nodes, and, false, t, ip, false) == Some(ResolvedAll(nodes, and, t, AnswersOfAll(nodes, ip)))
    decreases nodes, 0
  {
    if nodes == [] {
    } else {
      SettledIsResolved(nodes[0], t, ip);
      SettledIsResolvedAll(nodes[1..], and, t, ip);
    }
  }

  /**
  Lazy evaluation is sound: a verdict reached without an address is the verdict under every
  address, and under a failed lookup whatever the matcher.
  */
  lemma LazyIsSound(m: Matcher, t: Target, ip: Option<IpAddr>, canResolve: bool)
    requires Evaluate(m, t, None, true).Some? && (NoExempt(m) || ip.None?) && (ip.Some? || !canResolve)
    ensures Evaluate(m, t, ip, canResolve) == Evaluate(m, t, None, true)
  {
    DecidedForAll(m, t, AnswersOf(m, ip));
    SettledIsResolved(m, t, ip);
    AlwaysDecided(m, t, ip, canResolve);
  }

  /** Inside NoResolve an address condition is decided without an address, so an address can overturn it. */
  lemma ExemptIsNotSound(net: Network, t: Target)
    requires net.Valid()
    ensures var m, ip := NoResolve(Net(net)), Ip(net.v6, net.Base());
      Evaluate(m, t, None, true) == Some(false) && Evaluate(m, t, Some(ip), false) == Some(true)
  {
    OffsetFits(net, 0);
  }

  // ----- the static analysis

  /** The static guess at asking: some address condition outside every exemption. */
  predicate NeedsAddress(m: Matcher)
    decreases m
  {
    match m
    case Net(_) => true
    case Nets(_) => true
    case ExternalIp(_) => true
    case GeoIp(_) => true
    case NoResolve(_) => false
    case Not(inner) => NeedsAddress(inner)
    case And(nodes) => exists i :: 0 <= i < |nodes| && NeedsAddress(nodes[i])
    case Or(nodes) => exists i :: 0 <= i < |nodes| && NeedsAddress(nodes[i])
    case _ => false
  }

  /** Whenever evaluation asks for the address, the analysis says it may. */
  lemma {:induction false} AskingIsPredicted(m: Matcher, t: Target)
    ensures Evaluate(m, t, None, true).None? ==> NeedsAddress(m)
    decreases m, 1
  {
    match m
    case Not(inner) => AskingIsPredicted(inner, t);
    case NoResolve(inner) => AlwaysDecided(inner, t, None, false);
    case And(nodes) => AskingIsPredictedAll(nodes, true, false, t);
    case Or(nodes) => AskingIsPredictedAll(nodes, false, false, t);
    case _ =>
  }

  lemma {:induction false} AskingIsPredictedAll(nodes: seq<Matcher>, and: bool, unknown: bool, t: Target)
    ensures EvaluateAll(nodes, and, unknown, t, None, true).None? ==>
      unknown || exists i :: 0 <= i < |nodes| && NeedsAddress(nodes[i])
    decreases nodes, 0
  {
    if nodes == [] {
    } else {
      AskingIsPredicted(nodes[0], t);
      var v := Evaluate(nodes[0], t, None, true);
      AskingIsPredictedAll(nodes[1..], and, unknown || v.None?, t);
      if i :| 0 <= i < |nodes[1..]| && NeedsAddress(nodes[1..][i]) {
        assert NeedsAddress(nodes[i + 1]);
      }
    }
  }
}
