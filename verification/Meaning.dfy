/** What rule conditions mean, said without evaluating them. */
module Meaning {
  import opened Common
  import opened Addresses
  import opened Matcher
  import D = DomainSet

  predicate IsName(m: Matcher) { m.Domain? || m.Suffix? || m.Subdomain? || m.Keyword? || m.Regex? }

  /** What a name condition says of a host: it is the name, ends with a dot and the name, or holds the word. */
  ghost predicate Describes(m: Matcher, h: string)
    requires IsName(m)
  {
    if m.Domain? then h == m.name
    else if m.Suffix? then h == m.name || exists front :: h == front + "." + m.name
    else if m.Subdomain? then exists front :: front != [] && h == front + "." + m.name
    else if m.Keyword? then exists front, back :: h == front + m.word + back
    else m.matches(h)
  }

  lemma AfterDot(d: string, h: string)
    ensures |d| < |h| && h[|h| - |d|..] == d && h[|h| - |d| - 1] == '.' <==> exists front :: h == front + "." + d
  {
    if |d| < |h| && h[|h| - |d|..] == d && h[|h| - |d| - 1] == '.' {
      var n := |h| - |d| - 1;
      assert h == h[..n] + "." + d;
    }
  }

  lemma Within(k: string, h: string)
    ensures D.HasKeyword(h, k) <==> exists front, back :: h == front + k + back
  {
    if D.HasKeyword(h, k) {
      var i :| 0 <= i <= |h| && D.KeywordAt(h, k, i);
      assert h == h[..i] + k + h[i + |k|..];
    }
    if front, back :| h == front + k + back {
      assert h[|front|..|front| + |k|] == k;
      assert D.KeywordAt(h, k, |front|);
    }
  }

  /** A name condition holds exactly when it describes the host. */
  lemma NameDescribes(m: Matcher, t: Target)
    requires IsName(m)
    ensures Plain(m, t) <==> Describes(m, t.host)
  {
    if m.Suffix? {
      AfterDot(m.name, t.host);
    } else if m.Subdomain? {
      AfterDot(m.name, t.host);
      if front :| t.host == front + "." + m.name {
        assert |front| == |t.host| - |m.name| - 1;
      }
    } else if m.Keyword? {
      Within(m.word, t.host);
    }
  }

  /** The listing that holds just this name condition. */
  function Listed(m: Matcher): D.Listing
    requires IsName(m)
  {
    if m.Domain? then D.Listing([m.name], [], [], [], [], [])
    else if m.Suffix? then D.Listing([], [m.name], [], [], [], [])
    else if m.Subdomain? then D.Listing([], [], [m.name], [], [], [])
    else if m.Keyword? then D.Listing([], [], [], [], [m.word], [])
    else D.Listing([], [], [], [], [], [m.matches])
  }

  /** A name condition in a rule means what it means as the one entry of a listing. */
  lemma NameIsListed(m: Matcher, t: Target)
    requires IsName(m)
    ensures Plain(m, t) <==> D.Reference(Listed(m), t.host)
  {
    hide D.MatchesSuffix, D.MatchesSubdomain, D.HasKeyword;
    var l := Listed(m);
    if m.Suffix? {
      assert m.name in l.suffix;
    } else if m.Subdomain? {
      assert m.name in l.subdomain;
    } else if m.Keyword? {
      assert m.word in l.keywords;
    } else if m.Regex? {
      assert l.regex[0] == m.matches;
    }
  }

  /** The condition on a connection whose address is known, or known to be unknown. */
  ghost predicate Holds(m: Matcher, t: Target, ip: Option<IpAddr>)
    decreases m
  {
    if m.And? then forall i :: 0 <= i < |m.nodes| ==> Holds(m.nodes[i], t, ip)
    else if m.Or? then exists i :: 0 <= i < |m.nodes| && Holds(m.nodes[i], t, ip)
    else if m.Not? then !Holds(m.inner, t, ip)
    else if m.NoResolve? then Holds(m.inner, t, ip)
    else HoldsAlone(m, t, ip)
  }

  /** A condition without children. */
  ghost predicate HoldsAlone(m: Matcher, t: Target, ip: Option<IpAddr>) {
    if IsName(m) then D.Reference(Listed(m), t.host)
    else if m.Domains? then m.contains(t.host)
    else if m.Net? then
      && ip.Some? && m.net.prefix <= Width(m.net.v6) && ip.value.V6? == m.net.v6
      && m.net.Base() <= ip.value.bits <= m.net.Broadcast()
    else if m.Nets? then ip.Some? && m.covers(ip.value)
    else if m.ExternalIp? then ip.Some? && m.external(ip.value)
    else if m.Port? then t.port == m.port
    else if m.Ports? then exists r :: r in m.ranges && r.0 <= t.port <= r.1
    else if m.Transport? then t.network == m.network
    else m.All? || (m.OnNetwork? && m.on)
  }

  lemma AloneIsHolds(m: Matcher, t: Target, ip: Option<IpAddr>, c: bool)
    requires !m.And? && !m.Or? && !m.Not? && !m.NoResolve?
    requires ip.Some? || !c
    ensures Evaluate(m, t, ip, c) == Some(HoldsAlone(m, t, ip))
  {
    if IsName(m) {
      NameIsListed(m, t);
      hide D.Reference, Listed;
      assert Evaluate(m, t, ip, c) == Some(Plain(m, t));
    } else {
      hide D.Reference, Listed;
      if m.Net? && ip.Some? && m.net.prefix <= Width(m.net.v6) {
        ContainsIsInterval(m.net, ip.value);
      }
      if m.Ports? && Plain(m, t) {
        var i :| 0 <= i < |m.ranges| && m.ranges[i].0 <= t.port <= m.ranges[i].1;
        assert m.ranges[i] in m.ranges;
      }
    }
  }

  /** Three-valued children: one that decides decides; all decided the other way give that; else it is open. */
  lemma {:induction false} Verdict(nodes: seq<Matcher>, and: bool, unknown: bool, t: Target, ip: Option<IpAddr>,
                                   c: bool)
    ensures var v := EvaluateAll(nodes, and, unknown, t, ip, c);
      && (v == Some(!and) <==> exists i :: 0 <= i < |nodes| && Evaluate(nodes[i], t, ip, c) == Some(!and))
      && (v == Some(and) <==>
            !unknown && forall i :: 0 <= i < |nodes| ==> Evaluate(nodes[i], t, ip, c) == Some(and))
    decreases nodes
  {
    hide Evaluate;
    if nodes == [] {
    } else {
      var first := Evaluate(nodes[0], t, ip, c);
      Verdict(nodes[1..], and, unknown || first.None?, t, ip, c);
      assert first.Some? ==> first == Some(if first.value == and then and else !and);
      assert forall i :: 0 <= i < |nodes[1..]| ==> nodes[1..][i] == nodes[i + 1];
      if i :| 0 <= i < |nodes[1..]| && Evaluate(nodes[1..][i], t, ip, c) == Some(!and) {
        assert Evaluate(nodes[i + 1], t, ip, c) == Some(!and);
      }
      if i :| 0 < i < |nodes| && Evaluate(nodes[i], t, ip, c) == Some(!and) {
        assert Evaluate(nodes[1..][i - 1], t, ip, c) == Some(!and);
      }
      if forall i :: 0 <= i < |nodes| ==> Evaluate(nodes[i], t, ip, c) == Some(and) {
        assert forall i :: 0 <= i < |nodes[1..]| ==> Evaluate(nodes[1..][i], t, ip, c) == Some(and);
      }
      if forall i :: 0 <= i < |nodes[1..]| ==> Evaluate(nodes[1..][i], t, ip, c) == Some(and) {
        assert forall i :: 0 < i < |nodes| ==> nodes[i] == nodes[1..][i - 1];
      }
    }
  }

  /** With an address, or without the right to ask for one, evaluation says what the condition means. */
  lemma {:induction false} EvaluateIsHolds(m: Matcher, t: Target, ip: Option<IpAddr>, c: bool)
    requires ip.Some? || !c
    ensures Evaluate(m, t, ip, c) == Some(Holds(m, t, ip))
    decreases m
  {
    hide HoldsAlone, Plain, EvaluateAll;
    if m.Not? {
      EvaluateIsHolds(m.inner, t, ip, c);
    } else if m.NoResolve? {
      EvaluateIsHolds(m.inner, t, ip, false);
    } else if m.And? || m.Or? {
      forall i | 0 <= i < |m.nodes|
        ensures Evaluate(m.nodes[i], t, ip, c) == Some(Holds(m.nodes[i], t, ip))
      {
        EvaluateIsHolds(m.nodes[i], t, ip, c);
      }
      Verdict(m.nodes, m.And?, false, t, ip, c);
    } else {
      AloneIsHolds(m, t, ip, c);
    }
  }
}
