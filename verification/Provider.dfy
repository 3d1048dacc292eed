/** Rule providers: the entries of a list grouped into one set of names and one set of networks. */
module Provider {
  import opened Common
  import opened Addresses
  import opened Matcher
  import opened Meaning
  import opened Text
  import C = CosUrl
  import D = DomainSet
  import S = IpSet

  /** What the entries are sorted into: names, networks, and everything else. */
  datatype Gathering = Gathering(listing: D.Listing, nets: seq<Network>, nodes: seq<Matcher>)

  /** A listed name without white space and dots around it, in lower case. */
  function Normalized(d: string): string { Lower(TrimFront(TrimEnd(C.TrimRight(C.TrimStart(d)), '.'), '.')) }

  /** The entry as it is kept: names are normalized, keywords in lower case. */
  function Kept(m: Matcher): Matcher {
    if m.Domain? then Domain(Normalized(m.name))
    else if m.Suffix? then Suffix(Normalized(m.name))
    else if m.Subdomain? then Subdomain(Normalized(m.name))
    else if m.Keyword? then Keyword(Lower(m.word))
    else m
  }

  ghost function AllKept(ms: seq<Matcher>): seq<Matcher> { seq(|ms|, i requires 0 <= i < |ms| => Kept(ms[i])) }

  /** The condition is in the place its kind belongs to. */
  ghost predicate Has(g: Gathering, m: Matcher) {
    if m.Domain? then m.name in g.listing.exact
    else if m.Suffix? then m.name in g.listing.suffix
    else if m.Subdomain? then m.name in g.listing.subdomain
    else if m.Keyword? then m.word in g.listing.keywords
    else if m.Regex? then m.matches in g.listing.regex
    else if m.Net? then m.net in g.nets
    else m in g.nodes
  }

  /** The entries are kept, nothing else is, and everything is in its place. */
  ghost predicate Gathers(g: Gathering, ms: seq<Matcher>) {
    && (forall m :: Has(g, m) <==> m in AllKept(ms))
    && (forall m :: m in g.nodes ==> !IsName(m) && !m.Net?)
    && g.listing.globs == []
  }

  /** Takes one entry in: a network, a name condition, or neither. */
  method Take(g: Gathering, m: Matcher) returns (r: Gathering)
    ensures r.listing.globs == g.listing.globs
    ensures forall x :: Has(r, x) <==> Has(g, x) || x == Kept(m)
    ensures r.nodes == if IsName(m) || m.Net? then g.nodes else g.nodes + [m]
  {
    hide Normalized;
    var l := g.listing;
    if m.Net? {
      r := g.(nets := g.nets + [m.net]);
    } else if m.Domain? {
      r := g.(listing := l.(exact := l.exact + [Normalized(m.name)]));
    } else if m.Suffix? {
      r := g.(listing := l.(suffix := l.suffix + [Normalized(m.name)]));
    } else if m.Subdomain? {
      r := g.(listing := l.(subdomain := l.subdomain + [Normalized(m.name)]));
    } else if m.Keyword? {
      r := g.(listing := l.(keywords := l.keywords + [Lower(m.word)]));
    } else if m.Regex? {
      r := g.(listing := l.(regex := l.regex + [m.matches]));
    } else {
      r := g.(nodes := g.nodes + [m]);
    }
  }

  /** Sorts the entries of a list. */
  method Gather(ms: seq<Matcher>) returns (g: Gathering)
    ensures Gathers(g, ms)
  {
    hide Kept;
    g := Gathering(D.Listing([], [], [], [], [], []), [], []);
    for n := 0 to |ms|
      invariant Gathers(g, ms[..n])
    {
      hide Has;
      assert AllKept(ms[..n + 1]) == AllKept(ms[..n]) + [Kept(ms[n])];
      g := Take(g, ms[n]);
    }
    assert ms[..|ms|] == ms;
  }

  // ----- the grouped condition

  predicate NoNames(l: D.Listing) {
    l.exact == [] && l.suffix == [] && l.subdomain == [] && l.globs == [] && l.keywords == [] && |l.regex| == 0
  }

  /** The networks first, then the names packed into `s`, then the rest; empty sets are left out. */
  ghost function Grouped(g: Gathering, s: D.Packed): seq<Matcher>
    requires S.ValidNets(g.nets)
  {
    (if g.nets == [] then [] else [Nets(ip => S.InSome(g.nets, ip))])
    + (if NoNames(g.listing) then [] else [Domains(h => D.PackedMatches(s, h))])
    + g.nodes
  }

  ghost predicate SomeSays(ms: seq<Matcher>, t: Target, ip: Option<IpAddr>, c: bool, v: Option<bool>) {
    exists m :: m in ms && Evaluate(m, t, ip, c) == v
  }

  lemma OrSays(ms: seq<Matcher>, t: Target, ip: Option<IpAddr>, c: bool)
    ensures Evaluate(Or(ms), t, ip, c)
         == if SomeSays(ms, t, ip, c, Some(true)) then Some(true)
            else if SomeSays(ms, t, ip, c, None) then None else Some(false)
  {
    Verdict(ms, false, false, t, ip, c);
    hide EvaluateAll, Plain, IpHolds;
    var v := Evaluate(Or(ms), t, ip, c);
    assert v.Some? ==> v == Some(if v.value then true else false);
    forall m | m in ms
      ensures var w := Evaluate(m, t, ip, c); w == Some(true) || w == Some(false) || w == None
    {
      var w := Evaluate(m, t, ip, c);
      assert w.Some? ==> w == Some(if w.value then true else false);
    }
  }

  /** Some name condition of the list holds. */
  ghost predicate NameHits(ms: seq<Matcher>, t: Target) { exists m :: m in ms && IsName(m) && Plain(m, t) }

  lemma NameInPlace(g: Gathering, m: Matcher, t: Target)
    requires IsName(m) && Has(g, m) && Plain(m, t)
    ensures D.Reference(g.listing, t.host)
  {
    hide D.MatchesSuffix, D.MatchesSubdomain, D.HasKeyword;
    if m.Regex? {
      var i :| 0 <= i < |g.listing.regex| && g.listing.regex[i] == m.matches;
      assert g.listing.regex[i](t.host);
    }
  }

  lemma ReferenceHasName(g: Gathering, t: Target) returns (m: Matcher)
    requires g.listing.globs == [] && D.Reference(g.listing, t.host)
    ensures IsName(m) && Has(g, m) && Plain(m, t)
  {
    hide D.MatchesSuffix, D.MatchesSubdomain, D.HasKeyword;
    var l, h := g.listing, t.host;
    if h in l.exact {
      m := Domain(h);
    } else if d :| d in l.suffix && D.MatchesSuffix(d, h) {
      m := Suffix(d);
    } else if d :| d in l.subdomain && D.MatchesSubdomain(d, h) {
      m := Subdomain(d);
    } else if k :| k in l.keywords && D.HasKeyword(h, k) {
      m := Keyword(k);
    } else {
      var i :| 0 <= i < |l.regex| && l.regex[i](h);
      m := Regex(l.regex[i]);
    }
  }

  /** The gathered names match like the kept entries, one by one. */
  lemma NamesMean(g: Gathering, ms: seq<Matcher>, t: Target)
    requires Gathers(g, ms)
    ensures NameHits(AllKept(ms), t) <==> D.Reference(g.listing, t.host)
  {
    hide Kept, Plain, Has, D.Reference;
    if m :| m in AllKept(ms) && IsName(m) && Plain(m, t) {
      NameInPlace(g, m, t);
    }
    if D.Reference(g.listing, t.host) {
      var m := ReferenceHasName(g, t);
    }
  }

  // ----- grouping and the list

  ghost predicate NetsContain(nets: seq<Network>, ip: Option<IpAddr>)
    requires S.ValidNets(nets)
  {
    ip.Some? && S.InSome(nets, ip.value)
  }

  /** Every entry is a name, a gathered network or among the rest, and those are all entries. */
  lemma EntryPlaces(g: Gathering, ms: seq<Matcher>)
    requires Gathers(g, ms)
    ensures forall m :: m in ms ==> IsName(m) || (m.Net? && m.net in g.nets) || m in g.nodes
    ensures forall m: Matcher :: (m.Net? && m.net in g.nets) || m in g.nodes ==> m in ms && !IsName(m)
  {
    hide Normalized;
    forall m | m in ms ensures IsName(m) || (m.Net? && m.net in g.nets) || m in g.nodes {
      var i :| 0 <= i < |ms| && ms[i] == m;
      assert AllKept(ms)[i] == Kept(m);
      assert Has(g, Kept(m));
    }
    forall m: Matcher | (m.Net? && m.net in g.nets) || m in g.nodes ensures m in ms && !IsName(m) {
      assert Has(g, m);
      var i :| 0 <= i < |ms| && AllKept(ms)[i] == m;
      assert ms[i] == m;
    }
  }

  /** The list says yes by a network, a name or another entry; it is open if a network or another entry is. */
  lemma ListSays(g: Gathering, ms: seq<Matcher>, t: Target, ip: Option<IpAddr>, c: bool)
    requires Gathers(g, ms) && S.ValidNets(g.nets)
    ensures SomeSays(ms, t, ip, c, Some(true)) <==>
      NetsContain(g.nets, ip) || NameHits(ms, t) || SomeSays(g.nodes, t, ip, c, Some(true))
    ensures SomeSays(ms, t, ip, c, None) <==>
      (g.nets != [] && ip.None? && c) || SomeSays(g.nodes, t, ip, c, None)
  {
    hide Plain, Gathers, EvaluateAll, Has, Kept, AllKept;
    EntryPlaces(g, ms);
    if NetsContain(g.nets, ip) {
      var i :| 0 <= i < |g.nets| && g.nets[i].Contains(ip.value);
      assert Net(g.nets[i]) in ms && Evaluate(Net(g.nets[i]), t, ip, c) == Some(true);
    }
    if g.nets != [] && ip.None? && c {
      assert Net(g.nets[0]) in ms && Evaluate(Net(g.nets[0]), t, ip, c) == None;
    }
    if m :| m in ms && IsName(m) && Plain(m, t) {
      assert Evaluate(m, t, ip, c) == Some(true);
    }
  }

  lemma GroupSays(g: Gathering, s: D.Packed, t: Target, ip: Option<IpAddr>, c: bool)
    requires S.ValidNets(g.nets)
    ensures var r := Grouped(g, s);
      && (SomeSays(r, t, ip, c, Some(true)) <==>
            || NetsContain(g.nets, ip) || (!NoNames(g.listing) && D.PackedMatches(s, t.host))
            || SomeSays(g.nodes, t, ip, c, Some(true)))
      && (SomeSays(r, t, ip, c, None) <==>
            (g.nets != [] && ip.None? && c) || SomeSays(g.nodes, t, ip, c, None))
  {
    hide D.PackedMatches, NoNames, EvaluateAll;
    var r, nets, names := Grouped(g, s), Nets(ip => S.InSome(g.nets, ip)), Domains(h => D.PackedMatches(s, h));
    if g.nets != [] { assert r[0] == nets; }
    if !NoNames(g.listing) { assert r[if g.nets == [] then 0 else 1] == names; }
    assert forall m :: m in r <==>
      (g.nets != [] && m == nets) || (!NoNames(g.listing) && m == names) || m in g.nodes;
    hide Grouped;
    assert Evaluate(names, t, ip, c) == Some(D.PackedMatches(s, t.host));
    assert Evaluate(nets, t, ip, c) ==
      if ip.Some? then Some(S.InSome(g.nets, ip.value)) else if c then None else Some(false);
  }

  /** What the packed names match: a kept entry, a dot before a listed subdomain name, or a hash collision. */
  lemma PackedMeans(g: Gathering, ms: seq<Matcher>, s: D.Packed, t: Target)
    requires Gathers(g, ms) && D.Built(g.listing, s) && IsLower(t.host)
    ensures (!NoNames(g.listing) && D.PackedMatches(s, t.host)) <==>
      NameHits(AllKept(ms), t) || D.OnlyADot(g.listing, t.host) || D.Collides(g.listing, s.hash, t.host)
  {
    NamesMean(g, ms, t);
    D.PackedIsReference(g.listing, s, t.host);
  }

  /**
  Grouping keeps the verdict, address or not, exactly when the packed names match as the entries
  do one by one, or some other entry holds anyway.
  */
  lemma GroupingExact(g: Gathering, ms: seq<Matcher>, s: D.Packed, t: Target, ip: Option<IpAddr>, c: bool)
    requires Gathers(g, ms) && S.ValidNets(g.nets) && D.Built(g.listing, s) && IsLower(t.host)
    ensures Evaluate(Or(Grouped(g, s)), t, ip, c) == Evaluate(Or(ms), t, ip, c) <==>
      || NetsContain(g.nets, ip) || SomeSays(g.nodes, t, ip, c, Some(true))
      || (NameHits(ms, t) <==>
            NameHits(AllKept(ms), t) || D.OnlyADot(g.listing, t.host) || D.Collides(g.listing, s.hash, t.host))
  {
    hide Evaluate, NameHits, SomeSays, Gathers, NetsContain, Grouped;
    ListSays(g, ms, t, ip, c);
    GroupSays(g, s, t, ip, c);
    PackedMeans(g, ms, s, t);
    OrSays(ms, t, ip, c);
    OrSays(Grouped(g, s), t, ip, c);
  }

  /** No white space, dot or upper-case letter to take off the name. */
  predicate IsClean(d: string) {
    && IsLower(d) && C.SpaceAtStart(d) == 0 && C.SpaceAtEnd(d) == 0
    && (d != [] ==> d[0] != '.' && d[|d| - 1] != '.')
  }

  lemma LowerStays(d: string)
    requires IsLower(d)
    ensures Lower(d) == d
  {}

  lemma NoSpaceStays(s: string)
    requires C.SpaceAtStart(s) == 0 && C.SpaceAtEnd(s) == 0
    ensures C.TrimRight(C.TrimStart(s)) == s
  {
    hide C.SpaceAtStart, C.SpaceAtEnd;
  }

  lemma CleanIsKept(d: string)
    requires IsClean(d)
    ensures Normalized(d) == d
  {
    hide C.SpaceAtStart, C.SpaceAtEnd, Lower, IsLower;
    NoSpaceStays(d);
    LowerStays(d);
  }

  ghost predicate AllClean(ms: seq<Matcher>) {
    forall m :: m in ms ==>
      && (m.Domain? || m.Suffix? || m.Subdomain? ==> IsClean(m.name))
      && (m.Keyword? ==> IsLower(m.word))
  }

  lemma CleanAreKept(ms: seq<Matcher>)
    requires AllClean(ms)
    ensures AllKept(ms) == ms
  {
    hide Normalized, IsClean;
    forall i | 0 <= i < |ms| ensures Kept(ms[i]) == ms[i] {
      var m := ms[i];
      if m.Domain? || m.Suffix? || m.Subdomain? {
        CleanIsKept(m.name);
      } else if m.Keyword? {
        assert Lower(m.word) == m.word;
      }
    }
  }

  /** With clean names, and neither a lone dot nor a collision, grouping keeps every verdict. */
  lemma GroupingKeeps(g: Gathering, ms: seq<Matcher>, s: D.Packed, t: Target, ip: Option<IpAddr>, c: bool)
    requires Gathers(g, ms) && S.ValidNets(g.nets) && D.Built(g.listing, s) && IsLower(t.host)
    requires AllClean(ms) && !D.OnlyADot(g.listing, t.host) && !D.Collides(g.listing, s.hash, t.host)
    ensures Evaluate(Or(Grouped(g, s)), t, ip, c) == Evaluate(Or(ms), t, ip, c)
  {
    hide Evaluate, NameHits, SomeSays, Gathers, NetsContain, Grouped, AllClean;
    CleanAreKept(ms);
    GroupingExact(g, ms, s, t, ip, c);
  }

  lemma DotIsNoSpace(d: string)
    ensures C.SpaceAtStart(['.'] + d) == 0
  {
    C.FrontNotSpace(['.'] + d, 1);
    C.FrontNotSpace(['.'] + d, 2);
    C.FrontNotSpace(['.'] + d, 3);
    hide C.SpaceInFront;
  }

  lemma NoDotStays(s: string)
    requires s != [] && s[|s| - 1] != '.'
    ensures TrimEnd(s, '.') == s
  {}

  lemma DotIsDropped(d: string)
    requires d != [] && IsClean(d) && C.SpaceAtEnd(['.'] + d) == 0
    ensures IsLower(d) && Normalized(['.'] + d) == d
  {
    hide C.SpaceAtStart, C.SpaceAtEnd, C.TrimRight, C.TrimStart, TrimEnd, TrimFront, Lower, IsLower;
    DotIsNoSpace(d);
    NoSpaceStays(['.'] + d);
    NoDotStays(['.'] + d);
    FrontDot(d);
    LowerStays(d);
  }

  lemma FrontDot(d: string)
    requires d != [] && d[0] != '.'
    ensures TrimFront(['.'] + d, '.') == d
  {
    assert (['.'] + d)[1..] == d;
  }

  lemma NetIsEntry(g: Gathering, ms: seq<Matcher>, n: Network)
    requires Gathers(g, ms) && n in g.nets
    ensures Net(n) in AllKept(ms)
  {
    assert Has(g, Net(n));
  }

  /** One exact name, kept as `d`: no networks, and the kept name matches `d`. */
  lemma OneName(g: Gathering, name: string, d: string, t: Target)
    requires Gathers(g, [Domain(name)]) && Normalized(name) == d && t.host == d
    ensures g.nets == [] && NameHits(AllKept([Domain(name)]), t)
  {
    hide Normalized;
    assert AllKept([Domain(name)]) == [Domain(d)];
    assert Domain(d) in AllKept([Domain(name)]) && Plain(Domain(d), t);
    if g.nets != [] { NetIsEntry(g, [Domain(name)], g.nets[0]); }
  }

  /** A dot before an exact name changes it: alone the entry never matches the name, grouped it always does. */
  lemma LeadingDotRegroups(g: Gathering, s: D.Packed, d: string, port: nat, network: string, ip: Option<IpAddr>,
                           c: bool)
    requires d != [] && IsClean(d) && C.SpaceAtEnd(['.'] + d) == 0
    requires Gathers(g, [Domain(['.'] + d)]) && D.Built(g.listing, s)
    ensures g.nets == []
    ensures var t := Target(d, port, network);
      && Evaluate(Or([Domain(['.'] + d)]), t, ip, c) == Some(false)
      && Evaluate(Or(Grouped(g, s)), t, ip, c) == Some(true)
  {
    hide NameHits, IsClean, Normalized, Gathers, Has, Grouped, SomeSays, AllKept, NoNames;
    hide D.PackedMatches, D.Built, D.Collides, D.OnlyADot;
    var ms, t := [Domain(['.'] + d)], Target(d, port, network);
    assert |['.'] + d| != |d|;
    assert Evaluate(ms[0], t, ip, c) == Some(false);
    Verdict(ms, false, false, t, ip, c);
    DotIsDropped(d);
    OneName(g, ['.'] + d, d, t);
    PackedMeans(g, ms, s, t);
    GroupSays(g, s, t, ip, c);
    OrSays(Grouped(g, s), t, ip, c);
  }
}
