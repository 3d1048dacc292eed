/** Which rule a connection takes, said without scanning. */
module RouteMeaning {
  import opened Common
  import opened Addresses
  import opened Matcher
  import opened Meaning
  import opened Routing

  /** The first rule from `i` on that says yes takes the connection, all before it say no; else it goes direct. */
  ghost predicate FirstYes(rules: seq<Rule>, says: nat -> bool, i: nat, r: Trace) {
    if r.index.Some? then
      && i <= r.index.value < |rules| && says(r.index.value) && r.target == rules[r.index.value].target
      && forall j :: i <= j < r.index.value ==> !says(j)
    else r.target == "DIRECT" && forall j :: i <= j < |rules| ==> !says(j)
  }

  ghost predicate HoldsAt(rules: seq<Rule>, t: Target, ip: Option<IpAddr>, j: nat) {
    j < |rules| && Holds(rules[j].matcher, t, ip)
  }

  /** Once the address is settled, the first rule whose condition holds takes the connection; nothing is looked up. */
  lemma {:induction false} SettledExactly(rules: seq<Rule>, t: Target, lookup: Option<IpAddr>, k: Known, i: nat)
    requires k.resolved && i <= |rules|
    ensures var r := Scan(rules, t, lookup, k, i);
      && FirstYes(rules, (j: nat) => HoldsAt(rules, t, k.ip, j), i, r) && r.ip == k.ip && r.askedAt == k.askedAt
    decreases |rules| - i
  {
    if i == |rules| {
    } else {
      SettledTakes(rules[i], t, k, lookup);
      EvaluateIsHolds(rules[i].matcher, t, k.ip, false);
      hide Evaluate, Takes, Holds;
      assert Takes(rules[i], t, k, lookup) <==> HoldsAt(rules, t, k.ip, i);
      SettledExactly(rules, t, lookup, k, i + 1);
    }
  }

  /** The rule says yes without an address; a rule that is not exempt may instead ask for one. */
  ghost predicate YesUnasked(rules: seq<Rule>, t: Target, j: nat) {
    j < |rules| && Evaluate(rules[j].matcher, t, None, !rules[j].noResolve) == Some(true)
  }

  ghost predicate AsksAt(rules: seq<Rule>, t: Target, j: nat) {
    j < |rules| && !rules[j].noResolve && Evaluate(rules[j].matcher, t, None, true).None?
  }

  /**
  Without an address: as long as no rule asks, the first that says yes takes the connection and
  nothing is looked up. The first rule that asks makes the scan look the name up once; from it on
  the first rule whose condition holds with the answer takes the connection.
  */
  ghost predicate Unresolved(rules: seq<Rule>, t: Target, lookup: Option<IpAddr>, i: nat, r: Trace) {
    if r.askedAt.None? then
      && FirstYes(rules, (j: nat) => YesUnasked(rules, t, j), i, r) && r.ip.None?
      && (forall j :: i <= j < |rules| && (r.index.Some? ==> j <= r.index.value) ==> !AsksAt(rules, t, j))
    else
      var a := r.askedAt.value;
      && i <= a && AsksAt(rules, t, a)
      && (forall j :: i <= j < a ==> !AsksAt(rules, t, j) && !YesUnasked(rules, t, j))
      && FirstYes(rules, (j: nat) => HoldsAt(rules, t, lookup, j), a, r) && r.ip == lookup
  }

  lemma {:induction false} UnresolvedExactly(rules: seq<Rule>, t: Target, lookup: Option<IpAddr>, i: nat)
    requires i <= |rules|
    ensures Unresolved(rules, t, lookup, i, Scan(rules, t, lookup, UNKNOWN, i))
    decreases |rules| - i
  {
    if i == |rules| {
    } else {
      UnaskedFacts(rules[i], t, lookup);
      if Asks(rules[i], t, UNKNOWN) {
        AskedHere(rules, t, lookup, i);
      } else {
        UnresolvedExactly(rules, t, lookup, i + 1);
        hide Evaluate, Takes, Asks;
        assert !AsksAt(rules, t, i) && (Takes(rules[i], t, UNKNOWN, lookup) <==> YesUnasked(rules, t, i));
      }
    }
  }

  lemma AskedHere(rules: seq<Rule>, t: Target, lookup: Option<IpAddr>, i: nat)
    requires i < |rules| && Asks(rules[i], t, UNKNOWN)
    ensures Unresolved(rules, t, lookup, i, Scan(rules, t, lookup, UNKNOWN, i))
  {
    UnaskedFacts(rules[i], t, lookup);
    EvaluateIsHolds(rules[i].matcher, t, lookup, false);
    var k := Known(lookup, true, Some(i));
    SettledExactly(rules, t, lookup, k, i + 1);
    hide Evaluate, Takes, Holds;
    assert AsksAt(rules, t, i);
    assert Takes(rules[i], t, UNKNOWN, lookup) <==> HoldsAt(rules, t, lookup, i);
  }

  /** The rule a connection takes, for a dialled address and for a name. */
  lemma RouteExactly(rules: seq<Rule>, t: Target, address: Option<IpAddr>, lookup: Option<IpAddr>)
    ensures var r := Scan(rules, t, lookup, Known(address, address.Some?, None), 0);
      if address.Some? then
        FirstYes(rules, (j: nat) => HoldsAt(rules, t, address, j), 0, r) && r.ip == address && r.askedAt == None
      else Unresolved(rules, t, lookup, 0, r)
  {
    if address.Some? {
      SettledExactly(rules, t, lookup, Known(address, true, None), 0);
    } else {
      UnresolvedExactly(rules, t, lookup, 0);
    }
  }
}
