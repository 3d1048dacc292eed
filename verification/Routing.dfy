/** The rule scan of routing, with its one lazy lookup, and the audit that predicts it. */
module Routing {
  import opened Common
  import opened Addresses
  import opened Matcher
  import opened Exemption

  datatype Rule = Rule(matcher: Matcher, target: string, noResolve: bool)

  /** Where the scan ended and which rule, if any, made it look the name up. */
  datatype Trace = Trace(target: string, index: Option<nat>, ip: Option<IpAddr>, askedAt: Option<nat>)

  /** What the scan knows of the address: none yet, or settled (dialled or looked up). */
  datatype Known = Known(ip: Option<IpAddr>, resolved: bool, askedAt: Option<nat>)

  predicate Asks(rule: Rule, t: Target, k: Known) {
    !rule.noResolve && !k.resolved && Evaluate(rule.matcher, t, k.ip, true).None?
  }

  function After(rule: Rule, t: Target, k: Known, i: nat, lookup: Option<IpAddr>): Known {
    if Asks(rule, t, k) then Known(lookup, true, Some(i)) else k
  }

  /** Whether the rule takes the connection, given what is known once it has been looked at. */
  predicate Takes(rule: Rule, t: Target, k: Known, lookup: Option<IpAddr>) {
    var matched := Evaluate(rule.matcher, t, k.ip, !rule.noResolve && !k.resolved);
    matched == Some(true)
    || (matched.None? && Evaluate(rule.matcher, t, if Asks(rule, t, k) then lookup else k.ip, false) == Some(true))
  }

  /** The scan from rule `i` on; `lookup` is what resolving the name would give. */
  function Scan(rules: seq<Rule>, t: Target, lookup: Option<IpAddr>, k: Known, i: nat): Trace
    decreases |rules| - i
  {
    if i >= |rules| then Trace("DIRECT", None, k.ip, k.askedAt)
    else
      var known := After(rules[i], t, k, i, lookup);
      if Takes(rules[i], t, k, lookup) then Trace(rules[i].target, Some(i), known.ip, known.askedAt)
      else Scan(rules, t, lookup, known, i + 1)
  }

  /** Routes by the rules; `address` is the dialled address, if any. */
  method TraceRoute(rules: seq<Rule>, t: Target, address: Option<IpAddr>, lookup: Option<IpAddr>) returns (r: Trace)
    ensures r == Scan(rules, t, lookup, Known(address, address.Some?, None), 0)
  {
    hide Evaluate;
    var ip, resolved := address, address.Some?;
    var askedAt: Option<nat> := None;
    var i := 0;
    while i < |rules|
      invariant 0 <= i <= |rules|
      invariant Scan(rules, t, lookup, Known(ip, resolved, askedAt), i)
             == Scan(rules, t, lookup, Known(address, address.Some?, None), 0)
    {
      var rule := rules[i];
      var matched := Evaluate(rule.matcher, t, ip, !rule.noResolve && !resolved);
      if matched.None? && !rule.noResolve && !resolved {
        ip, resolved, askedAt := lookup, true, Some(i);
      }
      if matched == Some(true) || (matched.None? && Evaluate(rule.matcher, t, ip, false) == Some(true)) {
        return Trace(rule.target, Some(i), ip, askedAt);
      }
      i := i + 1;
    }
    r := Trace("DIRECT", None, ip, askedAt);
  }

  // ----- lazy lookup changes nothing

  const UNKNOWN := Known(None, false, None)

  /** What the rule says before any lookup; None asks for one. */
  function Unasked(rule: Rule, t: Target): Option<bool> { Evaluate(rule.matcher, t, None, !rule.noResolve) }

  /** The rule gives a verdict without an address that its condition, exemptions taken off, does not give. */
  predicate Overturnable(rule: Rule, t: Target) {
    Unasked(rule, t).Some? && Evaluate(Bare(rule.matcher), t, None, true).None?
  }

  /** The scan from rule `i` on reaches an overturnable rule before it looks the name up or ends. */
  predicate MeetsOverturnable(rules: seq<Rule>, t: Target, i: nat)
    decreases |rules| - i
  {
    && i < |rules|
    && (Overturnable(rules[i], t) || (Unasked(rules[i], t) == Some(false) && MeetsOverturnable(rules, t, i + 1)))
  }

  /** With the address settled, a rule takes the connection exactly when its condition holds. */
  lemma SettledTakes(rule: Rule, t: Target, k: Known, lookup: Option<IpAddr>)
    requires k.resolved
    ensures !Asks(rule, t, k)
    ensures Takes(rule, t, k, lookup) <==> Evaluate(rule.matcher, t, k.ip, false) == Some(true)
  {
    AlwaysDecided(rule.matcher, t, k.ip, false);
    hide Evaluate;
  }

  lemma UnaskedFacts(rule: Rule, t: Target, lookup: Option<IpAddr>)
    ensures Asks(rule, t, UNKNOWN) <==> Unasked(rule, t).None?
    ensures Unasked(rule, t).Some? ==> (Takes(rule, t, UNKNOWN, lookup) <==> Unasked(rule, t) == Some(true))
    ensures Unasked(rule, t).None? ==>
      (Takes(rule, t, UNKNOWN, lookup) <==> Evaluate(rule.matcher, t, lookup, false) == Some(true))
  {
    AlwaysDecided(rule.matcher, t, None, false);
    hide Evaluate;
  }

  /** The verdict of a rule before any lookup is not the one it has with the looked-up address. */
  predicate Overturned(rule: Rule, t: Target, lookup: Option<IpAddr>) {
    Takes(rule, t, UNKNOWN, lookup) != (Evaluate(rule.matcher, t, lookup, false) == Some(true))
  }

  /** The scan from rule `i` on reaches an overturned rule before it looks the name up or ends. */
  predicate MeetsOverturned(rules: seq<Rule>, t: Target, lookup: Option<IpAddr>, i: nat)
    decreases |rules| - i
  {
    && i < |rules|
    && (|| Overturned(rules[i], t, lookup)
        || (&& !Asks(rules[i], t, UNKNOWN) && !Takes(rules[i], t, UNKNOWN, lookup)
            && MeetsOverturned(rules, t, lookup, i + 1)))
  }

  lemma {:induction false} TakenFromHere(rules: seq<Rule>, t: Target, lookup: Option<IpAddr>, k: Known, i: nat)
    ensures var r := Scan(rules, t, lookup, k, i); r.index.Some? ==> r.index.value >= i
    decreases |rules| - i
  {
    hide Takes, After;
    if i >= |rules| {
    } else {
      TakenFromHere(rules, t, lookup, After(rules[i], t, k, i, lookup), i + 1);
    }
  }

  /** Lazy and up-front resolving take different rules exactly from the first overturned rule on. */
  lemma {:induction false} ApartAtOverturned(rules: seq<Rule>, t: Target, lookup: Option<IpAddr>, i: nat)
    ensures var lazy, eager := Scan(rules, t, lookup, UNKNOWN, i), Scan(rules, t, lookup, Known(lookup, true, None), i);
      && (lazy.index == eager.index <==> !MeetsOverturned(rules, t, lookup, i))
      && (lazy.index == eager.index ==> lazy.target == eager.target)
    decreases |rules| - i
  {
    hide Evaluate, Takes, Overturned;
    if i >= |rules| {
    } else {
      SettledTakes(rules[i], t, Known(lookup, true, None), lookup);
      OverturnedTakes(rules[i], t, lookup);
      ApartAtOverturned(rules, t, lookup, i + 1);
      AskedAtIsNoise(rules, t, lookup, Some(i), i + 1);
      TakenFromHere(rules, t, lookup, UNKNOWN, i + 1);
      TakenFromHere(rules, t, lookup, Known(lookup, true, Some(i)), i + 1);
      TakenFromHere(rules, t, lookup, Known(lookup, true, None), i + 1);
    }
  }

  lemma OverturnedTakes(rule: Rule, t: Target, lookup: Option<IpAddr>)
    ensures Overturned(rule, t, lookup) <==>
      Takes(rule, t, UNKNOWN, lookup) != (Evaluate(rule.matcher, t, lookup, false) == Some(true))
  {}

  /** A rule that is not overturnable is not overturned by any lookup result, and by a failed one no rule is. */
  lemma NeverOverturned(rule: Rule, t: Target, lookup: Option<IpAddr>)
    requires !Overturnable(rule, t) || lookup.None?
    ensures !Overturned(rule, t, lookup)
  {
    UnaskedFacts(rule, t, lookup);
    if Evaluate(Bare(rule.matcher), t, None, true).Some? {
      BareIsSound(rule.matcher, t, None, !rule.noResolve);
      BareIsSound(rule.matcher, t, lookup, false);
    } else if lookup.None? && Unasked(rule, t).Some? && !rule.noResolve {
      LazyIsSound(rule.matcher, t, None, false);
    }
    hide Evaluate, Takes;
  }

  /**
  Resolving only when a rule asks takes the same rule and target as resolving up front: for
  every lookup result when the scan reaches no overturnable rule before its lookup, and for
  every rule list when the lookup fails.
  */
  lemma {:induction false} LazyLookupIsEager(rules: seq<Rule>, t: Target, lookup: Option<IpAddr>, i: nat)
    requires !MeetsOverturnable(rules, t, i) || lookup.None?
    ensures !MeetsOverturned(rules, t, lookup, i)
    ensures var lazy, eager := Scan(rules, t, lookup, UNKNOWN, i), Scan(rules, t, lookup, Known(lookup, true, None), i);
      lazy.target == eager.target && lazy.index == eager.index
    decreases |rules| - i
  {
    hide Evaluate, Takes, Scan, Asks, Unasked, Overturnable, Overturned;
    if i >= |rules| {
    } else {
      UnaskedFacts(rules[i], t, lookup);
      NeverOverturned(rules[i], t, lookup);
      var v := Unasked(rules[i], t);
      assert v.Some? ==> v == Some(if v.value then true else false);
      if v.Some? && !v.value { LazyLookupIsEager(rules, t, lookup, i + 1); }
    }
    ApartAtOverturned(rules, t, lookup, i);
  }

  /** Without exempted address conditions no rule is overturnable. */
  lemma UnexemptedIsSafe(rule: Rule, t: Target)
    requires NoExempt(rule.matcher) && (rule.noResolve ==> !HasIp(rule.matcher))
    ensures !Overturnable(rule, t)
  {
    BareIsSame(rule.matcher, t, None, true);
    if rule.noResolve { IpFree(rule.matcher, t, None, None, true, false); }
    AlwaysDecided(rule.matcher, t, None, false);
  }

  // ----- the condition is exact

  /** Rule `j` with other address conditions of the same shape. */
  function Replaced(rules: seq<Rule>, j: nat, a: Answers): seq<Rule>
    requires j < |rules|
  {
    rules[j := rules[j].(matcher := Answering(rules[j].matcher, a))]
  }

  ghost predicate SameRule(rules: seq<Rule>, t: Target, lookup: Option<IpAddr>) {
    Scan(rules, t, lookup, UNKNOWN, 0).index == Scan(rules, t, lookup, Known(lookup, true, None), 0).index
  }

  lemma ReplacedRule(rule: Rule, t: Target, a: Answers)
    ensures var other := rule.(matcher := Answering(rule.matcher, a));
      Unasked(other, t) == Unasked(rule, t) && Overturnable(other, t) == Overturnable(rule, t)
  {
    AnsweringUnasked(rule.matcher, t, a, !rule.noResolve);
    BareAnswering(rule.matcher, a);
    AnsweringUnasked(Bare(rule.matcher), t, a, true);
  }

  lemma {:induction false} ReplacedMeets(rules: seq<Rule>, j: nat, a: Answers, t: Target, i: nat)
    requires j < |rules|
    ensures MeetsOverturnable(Replaced(rules, j, a), t, i) == MeetsOverturnable(rules, t, i)
    decreases |rules| - i
  {
    hide Unasked, Overturnable;
    if i >= |rules| {
    } else {
      ReplacedRule(rules[j], t, a);
      ReplacedMeets(rules, j, a, t, i + 1);
    }
  }

  /** An overturnable rule, with some other address conditions of its shape, is overturned by any address. */
  lemma OverturnableIsOverturned(rule: Rule, t: Target, ip: IpAddr) returns (a: Answers)
    requires Overturnable(rule, t)
    ensures Overturned(rule.(matcher := Answering(rule.matcher, a)), t, Some(ip))
  {
    a := BareOpenIsOverturned(rule.matcher, t, !rule.noResolve, ip);
    UnaskedFacts(rule.(matcher := Answering(rule.matcher, a)), t, Some(ip));
    hide Evaluate, Takes;
  }

  lemma {:induction false} OverturnableScansApart(rules: seq<Rule>, t: Target, ip: IpAddr, i: nat)
    returns (j: nat, a: Answers)
    requires MeetsOverturnable(rules, t, i)
    ensures i <= j < |rules| && MeetsOverturned(Replaced(rules, j, a), t, Some(ip), i)
    decreases |rules| - i
  {
    hide Evaluate, Takes, Unasked, Overturnable, Overturned, Asks;
    if Overturnable(rules[i], t) {
      j := i;
      a := OverturnableIsOverturned(rules[i], t, ip);
    } else {
      j, a := OverturnableScansApart(rules, t, ip, i + 1);
      UnaskedFacts(rules[i], t, Some(ip));
      assert Replaced(rules, j, a)[i] == rules[i];
    }
  }

  /**
  The condition is exact, and needs no lookup to be checked: lazy and up-front resolving take the
  same rule for every lookup result and every choice of one rule's address conditions if and only
  if the scan reaches no overturnable rule before its lookup.
  */
  lemma LazyIsEagerExactly(rules: seq<Rule>, t: Target)
    ensures !MeetsOverturnable(rules, t, 0) ==> forall lookup :: SameRule(rules, t, lookup)
    ensures (forall j, a, lookup :: 0 <= j < |rules| ==> SameRule(Replaced(rules, j, a), t, lookup)) <==>
            !MeetsOverturnable(rules, t, 0)
  {
    hide Scan, MeetsOverturnable, MeetsOverturned, Answering;
    if MeetsOverturnable(rules, t, 0) {
      var j, a := OverturnableScansApart(rules, t, V4(0), 0);
      ApartAtOverturned(Replaced(rules, j, a), t, Some(V4(0)), 0);
      assert !SameRule(Replaced(rules, j, a), t, Some(V4(0)));
    } else {
      forall lookup ensures SameRule(rules, t, lookup) { LazyLookupIsEager(rules, t, lookup, 0); }
      forall j, a, lookup | 0 <= j < |rules| ensures SameRule(Replaced(rules, j, a), t, lookup) {
        ReplacedMeets(rules, j, a, t, 0);
        LazyLookupIsEager(Replaced(rules, j, a), t, lookup, 0);
      }
    }
  }

  /** An exempted rule makes a difference: any single no-resolve network rule is passed over unless resolved before. */
  lemma ExemptRuleIsSkipped(net: Network, t: Target, target: string)
    requires net.Valid()
    ensures var rules, lookup := [Rule(Net(net), target, true)], Some(Ip(net.v6, net.Base()));
      && Scan(rules, t, lookup, Known(None, false, None), 0).index == None
      && Scan(rules, t, lookup, Known(lookup, true, None), 0).index == Some(0)
  {
    hide Pow2;
    OffsetFits(net, 0);
    var rules, lookup := [Rule(Net(net), target, true)], Some(Ip(net.v6, net.Base()));
    assert !Takes(rules[0], t, Known(None, false, None), lookup) && !Asks(rules[0], t, Known(None, false, None));
    assert Takes(rules[0], t, Known(lookup, true, None), lookup);
  }

  lemma {:induction false} AskedAtIsNoise(rules: seq<Rule>, t: Target, lookup: Option<IpAddr>, asked: Option<nat>,
                                          i: nat)
    ensures var a := Scan(rules, t, lookup, Known(lookup, true, asked), i);
      var b := Scan(rules, t, lookup, Known(lookup, true, None), i);
      a.target == b.target && a.index == b.index && a.askedAt == asked
    decreases |rules| - i
  {
    if i >= |rules| {
    } else {
      SettledTakes(rules[i], t, Known(lookup, true, asked), lookup);
      SettledTakes(rules[i], t, Known(lookup, true, None), lookup);
      hide Evaluate, Takes;
      AskedAtIsNoise(rules, t, lookup, asked, i + 1);
    }
  }

  // ----- the leak audit

  predicate Proxied(target: string) { target != "DIRECT" && target != "REJECT" }

  /** A rule with an unexempted address condition, such that it or a later rule sends through a proxy. */
  ghost predicate Leaks(rules: seq<Rule>, i: nat)
    requires i < |rules|
  {
    && !rules[i].noResolve && Exposed(rules[i].matcher)
    && exists j :: i <= j < |rules| && rules[j].target != "DIRECT" && rules[j].target != "REJECT"
  }

  /** Scans the rules backwards and reports the resolving ones in ascending order. */
  method Audit(rules: seq<Rule>) returns (resolving: seq<nat>)
    ensures forall a, b :: 0 <= a < b < |resolving| ==> resolving[a] < resolving[b]
    ensures forall i: nat :: i in resolving <==> i < |rules| && Leaks(rules, i)
  {
    hide NeedsAddress, Exposed;
    var laterProxy := false;
    var found: seq<nat> := [];
    var i := |rules|;
    while i > 0
      invariant 0 <= i <= |rules|
      invariant laterProxy <==>
        exists j :: i <= j < |rules| && rules[j].target != "DIRECT" && rules[j].target != "REJECT"
      invariant forall a :: 0 <= a < |found| ==> found[a] >= i
      invariant forall a, b :: 0 <= a < b < |found| ==> found[a] > found[b]
      invariant forall n: nat :: n in found <==> i <= n < |rules| && Leaks(rules, n)
    {
      i := i - 1;
      laterProxy := laterProxy || Proxied(rules[i].target);
      NeedsAddressExactly(rules[i].matcher);
      assert Leaks(rules, i) <==> laterProxy && !rules[i].noResolve && NeedsAddress(rules[i].matcher);
      if laterProxy && !rules[i].noResolve && NeedsAddress(rules[i].matcher) {
        found := found + [i];
      }
    }
    resolving := seq(|found|, k requires 0 <= k < |found| => found[|found| - 1 - k]);
    forall n: nat ensures n in resolving <==> n in found {
      if n in found {
        var k :| 0 <= k < |found| && found[k] == n;
        assert resolving[|found| - 1 - k] == n;
      }
    }
  }

  /** Whatever a scan looked a name up for, it did so at a rule before the one that took it. */
  lemma {:induction false} AskedBefore(rules: seq<Rule>, t: Target, lookup: Option<IpAddr>, k: Known, i: nat)
    requires k.resolved <==> k.askedAt.Some?
    requires k.askedAt.Some? ==> k.askedAt.value < |rules| && k.askedAt.value <= i
    requires !k.resolved ==> k.ip.None?
    ensures var r := Scan(rules, t, lookup, k, i);
      && (r.index.Some? ==> r.index.value < |rules| && r.target == rules[r.index.value].target)
      && (r.index.None? ==> r.target == "DIRECT")
      && (r.askedAt.Some? ==>
            && r.askedAt.value < |rules|
            && (r.index.Some? ==> r.askedAt.value <= r.index.value)
            && var asking := rules[r.askedAt.value];
            r.askedAt == k.askedAt || (!asking.noResolve && Exposed(asking.matcher)))
    decreases |rules| - i
  {
    if i >= |rules| {
    } else {
      AskingIsPredicted(rules[i].matcher, t);
      NeedsAddressExactly(rules[i].matcher);
      hide Evaluate, NeedsAddress, Exposed, Takes;
      AskedBefore(rules, t, lookup, After(rules[i], t, k, i, lookup), i + 1);
    }
  }

  /** No leak goes unreported: a scan that looks a name up and ends at a proxy did so at a reported rule. */
  lemma AuditIsSound(rules: seq<Rule>, t: Target, lookup: Option<IpAddr>)
    ensures var r := Scan(rules, t, lookup, Known(None, false, None), 0);
      r.askedAt.Some? && r.target != "DIRECT" && r.target != "REJECT" ==>
        r.askedAt.value < |rules| && Leaks(rules, r.askedAt.value)
  {
    AskedBefore(rules, t, lookup, Known(None, false, None), 0);
  }
}
