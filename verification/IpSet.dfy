/** Sets of IP networks as sorted, merged ranges searched by bisection. */
module IpSet {
  import opened Common
  import opened Addresses

  datatype Range = Range(lo: nat, hi: nat)

  datatype Ranges = Ranges(v4: seq<Range>, v6: seq<Range>, inverse: bool) {
    function Family(v6Side: bool): seq<Range> { if v6Side then v6 else v4 }
  }

  /** The largest u128, where the source's addition saturates. */
  function MaxAddress(): nat { Pow2(128) - 1 }

  ghost predicate Within(r: Range) { r.lo <= r.hi <= MaxAddress() }

  ghost predicate Covers(s: seq<Range>, n: nat) { exists i :: 0 <= i < |s| && s[i].lo <= n <= s[i].hi }

  /** Sorted, disjoint and not adjacent. */
  ghost predicate Separated(s: seq<Range>) {
    && (forall i :: 0 <= i < |s| ==> Within(s[i]))
    && (forall i, j :: 0 <= i < j < |s| ==> s[i].hi + 1 < s[j].lo)
  }

  ghost predicate ByLow(s: seq<Range>) { forall i, j :: 0 <= i < j < |s| ==> s[i].lo <= s[j].lo }

  predicate Less(a: Range, b: Range) { a.lo < b.lo || (a.lo == b.lo && a.hi < b.hi) }

  /** The ranges of the networks of one family. */
  function RangesOf(nets: seq<Network>, v6: bool): seq<Range>
    requires forall i :: 0 <= i < |nets| ==> nets[i].prefix <= Width(nets[i].v6)
  {
    if nets == [] then []
    else
      var n := nets[|nets| - 1];
      RangesOf(nets[..|nets| - 1], v6) + if n.v6 == v6 then [Range(n.Base(), n.Broadcast())] else []
  }

  method InsertRange(s: seq<Range>, r: Range) returns (t: seq<Range>)
    requires ByLow(s)
    ensures ByLow(t) && forall x :: x in t <==> x in s || x == r
  {
    var i := 0;
    while i < |s| && Less(s[i], r)
      invariant 0 <= i <= |s| && forall j :: 0 <= j < i ==> s[j].lo <= r.lo
    {
      i := i + 1;
    }
    t := s[..i] + [r] + s[i..];
    assert s == s[..i] + s[i..] && t[i] == r;
  }

  method Sort(s: seq<Range>) returns (t: seq<Range>)
    ensures ByLow(t) && forall x :: x in t <==> x in s
  {
    t := [];
    for i := 0 to |s|
      invariant ByLow(t) && forall x :: x in t <==> x in s[..i]
    {
      assert s[..i + 1] == s[..i] + [s[i]];
      t := InsertRange(t, s[i]);
    }
    assert s[..|s|] == s;
  }

  lemma ExtendLast(merged: seq<Range>, r: Range, n: nat)
    requires merged != [] && merged[|merged| - 1].lo <= r.lo <= merged[|merged| - 1].hi + 1
    ensures var last := merged[|merged| - 1];
      Covers(merged[..|merged| - 1] + [Range(last.lo, Max(last.hi, r.hi))], n) <==>
      Covers(merged, n) || r.lo <= n <= r.hi
  {
    var k := |merged| - 1;
    var longer := merged[..k] + [Range(merged[k].lo, Max(merged[k].hi, r.hi))];
    if Covers(longer, n) {
      var i :| 0 <= i < |longer| && longer[i].lo <= n <= longer[i].hi;
      if i < k { assert merged[i] == longer[i]; }
      assert i == k && n <= merged[k].hi ==> merged[k].lo <= n <= merged[k].hi;
    }
    if Covers(merged, n) {
      var i :| 0 <= i < |merged| && merged[i].lo <= n <= merged[i].hi;
      assert longer[i].lo <= n <= longer[i].hi;
    }
    if r.lo <= n <= r.hi { assert longer[k].lo <= n <= longer[k].hi; }
  }

  lemma CoversAppend(a: seq<Range>, r: Range, n: nat)
    ensures Covers(a + [r], n) <==> Covers(a, n) || r.lo <= n <= r.hi
  {
    var b := a + [r];
    if Covers(a, n) {
      var i :| 0 <= i < |a| && a[i].lo <= n <= a[i].hi;
      assert b[i].lo <= n <= b[i].hi;
    }
    if r.lo <= n <= r.hi { assert b[|a|].lo <= n <= b[|a|].hi; }
  }

  ghost predicate SameCover(a: seq<Range>, b: seq<Range>) { forall n: nat :: Covers(a, n) <==> Covers(b, n) }

  /** A range merged into the last one, or appended, covers what appending it to the input covers. */
  lemma CoverStep(merged: seq<Range>, s: seq<Range>, r: Range)
    requires SameCover(merged, s)
    ensures SameCover(merged + [r], s + [r])
    ensures merged != [] && merged[|merged| - 1].lo <= r.lo <= merged[|merged| - 1].hi + 1 ==>
      var last := merged[|merged| - 1];
      SameCover(merged[..|merged| - 1] + [Range(last.lo, Max(last.hi, r.hi))], s + [r])
  {
    hide Covers;
    forall n: nat ensures Covers(merged + [r], n) <==> Covers(s + [r], n) {
      CoversAppend(merged, r, n);
      CoversAppend(s, r, n);
    }
    if merged != [] && merged[|merged| - 1].lo <= r.lo <= merged[|merged| - 1].hi + 1 {
      var last := merged[|merged| - 1];
      var longer := merged[..|merged| - 1] + [Range(last.lo, Max(last.hi, r.hi))];
      forall n: nat ensures Covers(longer, n) <==> Covers(s + [r], n) {
        ExtendLast(merged, r, n);
        CoversAppend(s, r, n);
      }
    }
  }

  lemma NothingCovered()
    ensures SameCover([], [])
  {}

  /** Merges sorted ranges that overlap or touch. */
  method Merge(s: seq<Range>) returns (merged: seq<Range>)
    requires ByLow(s) && forall i :: 0 <= i < |s| ==> Within(s[i])
    ensures Separated(merged) && SameCover(merged, s)
  {
    hide Pow2, Covers, SameCover;
    NothingCovered();
    merged := [];
    for i := 0 to |s|
      invariant Separated(merged) && SameCover(merged, s[..i])
      invariant forall j, k :: 0 <= j < |merged| && i <= k < |s| ==> merged[j].lo <= s[k].lo
    {
      assert s[..i + 1] == s[..i] + [s[i]];
      CoverStep(merged, s[..i], s[i]);
      var k := |merged| - 1;
      if merged != [] && s[i].lo <= Min(merged[k].hi + 1, MaxAddress()) {
        merged := merged[..k] + [Range(merged[k].lo, Max(merged[k].hi, s[i].hi))];
      } else {
        merged := merged + [s[i]];
      }
    }
    assert s[..|s|] == s;
  }

  ghost predicate ValidNets(nets: seq<Network>) { forall i :: 0 <= i < |nets| ==> nets[i].Valid() }

  lemma BroadcastFits(net: Network)
    requires net.Valid()
    ensures Within(Range(net.Base(), net.Broadcast()))
  {
    hide Pow2;
    OffsetFits(net, net.Size() - 1);
    Pow2Sum(32, 96);
    Scale(1, Pow2(96), Pow2(32));
  }

  lemma {:induction false} RangesFit(nets: seq<Network>, v6: bool)
    requires ValidNets(nets)
    ensures forall i :: 0 <= i < |RangesOf(nets, v6)| ==> Within(RangesOf(nets, v6)[i])
    ensures forall n: nat :: Covers(RangesOf(nets, v6), n) <==> InSome(nets, Ip(v6, n))
    decreases |nets|
  {
    if nets != [] {
      var init, last := nets[..|nets| - 1], nets[|nets| - 1];
      RangesFit(init, v6);
      BroadcastFits(last);
      assert RangesOf(init, v6) + [] == RangesOf(init, v6);
      hide Pow2, Covers, Within, InSome;
      forall n: nat ensures Covers(RangesOf(nets, v6), n) <==> InSome(nets, Ip(v6, n)) {
        ContainsIsInterval(last, Ip(v6, n));
        CoversAppend(RangesOf(init, v6), Range(last.Base(), last.Broadcast()), n);
        LastOrEarlier(nets, Ip(v6, n));
      }
    } else {
      NothingCovered();
    }
  }

  lemma LastOrEarlier(nets: seq<Network>, ip: IpAddr)
    requires ValidNets(nets) && nets != []
    ensures var init := nets[..|nets| - 1];
      InSome(nets, ip) <==> InSome(init, ip) || nets[|nets| - 1].Contains(ip)
  {
    var init := nets[..|nets| - 1];
    if i :| 0 <= i < |init| && init[i].Contains(ip) { assert nets[i].Contains(ip); }
    if i :| 0 <= i < |nets| && nets[i].Contains(ip) { assert i < |init| ==> init[i].Contains(ip); }
  }

  /** Some network of the list contains the address. */
  ghost predicate InSome(nets: seq<Network>, ip: IpAddr)
    requires ValidNets(nets)
  {
    exists i :: 0 <= i < |nets| && nets[i].Contains(ip)
  }

  /** The ranges of both families are separated and cover exactly the networks. */
  ghost predicate Packs(s: Ranges, nets: seq<Network>, inverse: bool)
    requires ValidNets(nets)
  {
    && s.inverse == inverse && Separated(s.v4) && Separated(s.v6)
    && forall n: nat :: (Covers(s.v4, n) <==> InSome(nets, V4(n))) && (Covers(s.v6, n) <==> InSome(nets, V6(n)))
  }

  lemma SameElements(a: seq<Range>, b: seq<Range>, n: nat)
    requires forall x :: x in a <==> x in b
    ensures Covers(a, n) <==> Covers(b, n)
  {
    if i :| 0 <= i < |a| && a[i].lo <= n <= a[i].hi {
      assert a[i] in b;
    }
    if i :| 0 <= i < |b| && b[i].lo <= n <= b[i].hi {
      assert b[i] in a;
    }
  }

  method SortAndMerge(s: seq<Range>) returns (merged: seq<Range>)
    requires forall i :: 0 <= i < |s| ==> Within(s[i])
    ensures Separated(merged) && forall n: nat :: Covers(merged, n) <==> Covers(s, n)
  {
    hide Within, Covers;
    var sorted := Sort(s);
    forall i | 0 <= i < |sorted| ensures Within(sorted[i]) {
      assert sorted[i] in s;
    }
    forall n: nat ensures Covers(sorted, n) <==> Covers(s, n) { SameElements(sorted, s, n); }
    merged := Merge(sorted);
  }

  method New(nets: seq<Network>, inverse: bool) returns (s: Ranges)
    requires ValidNets(nets)
    ensures Packs(s, nets, inverse)
  {
    RangesFit(nets, false);
    RangesFit(nets, true);
    hide Within, Covers, Separated, RangesOf;
    var v4 := SortAndMerge(RangesOf(nets, false));
    var v6 := SortAndMerge(RangesOf(nets, true));
    s := Ranges(v4, v6, inverse);
  }

  /** Bisection: some range covers the address, negated when the set is inverse. */
  method Matches(s: Ranges, ip: IpAddr) returns (r: bool)
    requires Separated(s.v4) && Separated(s.v6)
    ensures r <==> Covers(s.Family(ip.V6?), ip.bits) != s.inverse
  {
    var ranges, n := if ip.V4? then s.v4 else s.v6, ip.bits;
    var lo, hi := 0, |ranges|;
    while lo < hi
      invariant 0 <= lo <= hi <= |ranges|
      invariant forall i :: 0 <= i < lo ==> ranges[i].lo <= n
      invariant forall i :: hi <= i < |ranges| ==> ranges[i].lo > n
    {
      var mid := (lo + hi) / 2;
      if ranges[mid].lo <= n {
        lo := mid + 1;
      } else {
        hi := mid;
      }
    }
    BisectionIsCover(ranges, n, lo);
    r := (lo > 0 && n <= ranges[lo - 1].hi) != s.inverse;
  }

  lemma BisectionIsCover(s: seq<Range>, n: nat, i: nat)
    requires Separated(s) && i <= |s|
    requires (forall j :: 0 <= j < i ==> s[j].lo <= n) && (forall j :: i <= j < |s| ==> s[j].lo > n)
    ensures Covers(s, n) <==> i > 0 && n <= s[i - 1].hi
  {
    if j :| 0 <= j < |s| && s[j].lo <= n <= s[j].hi {
      assert j < i - 1 ==> s[j].hi + 1 < s[i - 1].lo;
    }
  }

  /** Building and searching: some network contains the address, negated when the set is inverse. */
  method NewThenMatches(nets: seq<Network>, inverse: bool, ip: IpAddr) returns (r: bool)
    requires ValidNets(nets)
    ensures r <==> InSome(nets, ip) != inverse
  {
    hide Covers, InSome;
    var s := New(nets, inverse);
    r := Matches(s, ip);
  }
}
