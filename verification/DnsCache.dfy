/** The byte-bounded DNS response cache: oldest-first eviction and ageing of record lifetimes. */
module DnsCache {
  import opened Common

  const CACHE_ENTRIES: nat := 4096
  const CACHE_BYTES: nat := 1048576
  const CACHE_OVERHEAD: nat := 256
  const MAX_TTL: nat := 3600
  const SECOND: nat := 1_000_000_000
  const U32_MAX: nat := 4294967295

  datatype Code = NoError | NxDomain | Failure

  /** A record of the authority section; `soaMinimum` for a start of authority. */
  datatype Authority = Authority(ttl: nat, soaMinimum: Option<nat>)

  /** What the cache looks at in a response; `length` is its encoded size. */
  datatype Response = Response(code: Code, truncated: bool, answers: seq<nat>, authorities: seq<Authority>,
                               additionals: seq<nat>, length: nat)

  datatype Entry = Entry(response: Response, inserted: nat, expires: nat, size: nat)

  type Key = seq<int>

  predicate Answered(r: Response) { r.code != Failure }

  predicate Negative(r: Response) { r.code == NxDomain || r.answers == [] }

  /** The smallest number, or zero when there is none. */
  function Least(s: seq<nat>): (m: nat)
    ensures s == [] ==> m == 0
    ensures s != [] ==> m in s && forall i :: 0 <= i < |s| ==> m <= s[i]
  {
    if s == [] then 0
    else if |s| == 1 then s[0]
    else
      var rest := Least(s[1..]);
      assert forall i :: 0 < i < |s| ==> s[i] == s[1..][i - 1];
      Min(s[0], rest)
  }

  function SoaTtls(a: seq<Authority>): seq<nat> {
    if a == [] then []
    else (if a[0].soaMinimum.Some? then [Min(a[0].ttl, a[0].soaMinimum.value)] else []) + SoaTtls(a[1..])
  }

  function AuthorityTtls(a: seq<Authority>): seq<nat> {
    seq(|a|, i requires 0 <= i < |a| => a[i].ttl)
  }

  /** The lifetimes of all records, section by section. */
  function AllTtls(r: Response): seq<nat> { r.answers + AuthorityTtls(r.authorities) + r.additionals }

  /** How long a response may be kept, in seconds; zero is not at all. */
  function Ttl(r: Response): (t: nat)
    ensures t <= MAX_TTL
  {
    Min(if Negative(r) then Least(SoaTtls(r.authorities)) else Least(AllTtls(r)), MAX_TTL)
  }

  predicate Cacheable(r: Response) { Ttl(r) > 0 && !r.truncated && Answered(r) }

  /** The lifetimes of the starts of authority: both numbers of each, whichever is smaller. */
  lemma {:induction false} SoaMembers(a: seq<Authority>, x: nat)
    ensures x in SoaTtls(a) <==>
      exists i :: 0 <= i < |a| && a[i].soaMinimum.Some? && x == Min(a[i].ttl, a[i].soaMinimum.value)
  {
    if a == [] {
    } else {
      SoaMembers(a[1..], x);
      assert forall i :: 0 < i < |a| ==> a[i] == a[1..][i - 1];
      if i :| 0 <= i < |a[1..]| && a[1..][i].soaMinimum.Some? && x == Min(a[1..][i].ttl, a[1..][i].soaMinimum.value) {
        assert a[i + 1] == a[1..][i];
      }
    }
  }

  lemma SoaBound(a: seq<Authority>, n: nat)
    requires n > 0
    ensures n <= Least(SoaTtls(a)) <==>
      && (exists i :: 0 <= i < |a| && a[i].soaMinimum.Some?)
      && (forall i :: 0 <= i < |a| && a[i].soaMinimum.Some? ==> n <= a[i].ttl && n <= a[i].soaMinimum.value)
  {
    hide SoaTtls;
    var s := SoaTtls(a);
    if s != [] { SoaMembers(a, Least(s)); }
    forall i | 0 <= i < |a| && a[i].soaMinimum.Some? ensures Min(a[i].ttl, a[i].soaMinimum.value) in s {
      SoaMembers(a, Min(a[i].ttl, a[i].soaMinimum.value));
    }
  }

  lemma AllBound(r: Response, n: nat)
    requires n > 0
    ensures AllTtls(r) != [] ==> (n <= Least(AllTtls(r)) <==>
      && (forall i :: 0 <= i < |r.answers| ==> n <= r.answers[i])
      && (forall i :: 0 <= i < |r.authorities| ==> n <= r.authorities[i].ttl)
      && (forall i :: 0 <= i < |r.additionals| ==> n <= r.additionals[i]))
    ensures r.answers != [] ==> AllTtls(r) != []
  {
    var all, a, b := AllTtls(r), |r.answers|, |r.answers| + |r.authorities|;
    assert forall i :: 0 <= i < a ==> all[i] == r.answers[i];
    assert forall i :: 0 <= i < |r.authorities| ==> all[a + i] == r.authorities[i].ttl;
    assert forall i :: 0 <= i < |r.additionals| ==> all[b + i] == r.additionals[i];
    assert forall i :: a <= i < b ==> all[i] == r.authorities[i - a].ttl;
    assert forall i :: b <= i < |all| ==> all[i] == r.additionals[i - b];
    hide AllTtls, Least;
  }

  /**
  A response may be kept for `n` seconds exactly when that is at most an hour and, for one that says
  there is nothing, at most the lifetime and minimum of every start of authority, of which there is
  one; for any other, at most the lifetime of every record.
  */
  lemma KeptFor(r: Response, n: nat)
    requires n > 0
    ensures n <= Ttl(r) <==>
      && n <= 3600
      && if r.code == NxDomain || r.answers == [] then
           && (exists i :: 0 <= i < |r.authorities| && r.authorities[i].soaMinimum.Some?)
           && (forall i :: 0 <= i < |r.authorities| && r.authorities[i].soaMinimum.Some? ==>
                 n <= r.authorities[i].ttl && n <= r.authorities[i].soaMinimum.value)
         else
           && (forall i :: 0 <= i < |r.answers| ==> n <= r.answers[i])
           && (forall i :: 0 <= i < |r.authorities| ==> n <= r.authorities[i].ttl)
           && (forall i :: 0 <= i < |r.additionals| ==> n <= r.additionals[i])
  {
    hide SoaTtls, AllTtls;
    SoaBound(r.authorities, n);
    AllBound(r, n);
  }

  /** It is kept at all exactly when it is whole, is no failure, and may be kept for one second. */
  lemma CacheableExactly(r: Response)
    ensures Cacheable(r) <==>
      && !r.truncated && (r.code == NoError || r.code == NxDomain)
      && if r.code == NxDomain || r.answers == [] then
           && (exists i :: 0 <= i < |r.authorities| && r.authorities[i].soaMinimum.Some?)
           && (forall i :: 0 <= i < |r.authorities| && r.authorities[i].soaMinimum.Some? ==>
                 0 < r.authorities[i].ttl && 0 < r.authorities[i].soaMinimum.value)
         else
           && (forall i :: 0 <= i < |r.answers| ==> 0 < r.answers[i])
           && (forall i :: 0 <= i < |r.authorities| ==> 0 < r.authorities[i].ttl)
           && (forall i :: 0 <= i < |r.additionals| ==> 0 < r.additionals[i])
  {
    KeptFor(r, 1);
  }

  lemma CacheableHasRecords(r: Response)
    requires Cacheable(r)
    ensures AllTtls(r) != []
  {}

  // ----- ageing

  function Sub(ttl: nat, elapsed: nat): nat { if ttl < elapsed then 0 else ttl - elapsed }

  function AgeAll(ttls: seq<nat>, elapsed: nat): seq<nat> {
    seq(|ttls|, i requires 0 <= i < |ttls| => Sub(ttls[i], elapsed))
  }

  function Aged(r: Response, elapsed: nat): Response {
    r.(answers := AgeAll(r.answers, elapsed),
       authorities := seq(|r.authorities|, i requires 0 <= i < |r.authorities| =>
                            r.authorities[i].(ttl := Sub(r.authorities[i].ttl, elapsed))),
       additionals := AgeAll(r.additionals, elapsed))
  }

  /** Whole seconds since an instant, as a u32. */
  function ElapsedSeconds(now: nat, since: nat): nat {
    Min(if now < since then 0 else (now - since) / SECOND, U32_MAX)
  }

  /** The seconds that have elapsed are those that fit between the two instants and into 32 bits. */
  lemma ElapsedExactly(now: nat, since: nat, n: nat)
    requires n > 0
    ensures n <= ElapsedSeconds(now, since) <==> n <= U32_MAX && since + n * 1_000_000_000 <= now
  {}

  /** The two responses differ in lifetimes at most. */
  ghost predicate SameRecords(a: Response, b: Response) {
    && a.code == b.code && a.truncated == b.truncated && a.length == b.length
    && |a.answers| == |b.answers| && |a.authorities| == |b.authorities| && |a.additionals| == |b.additionals|
    && forall i :: 0 <= i < |a.authorities| ==> a.authorities[i].soaMinimum == b.authorities[i].soaMinimum
  }

  /** Each record is aged on its own, and all stay alive exactly when less than the shortest lifetime has elapsed. */
  lemma ServedTtls(r: Response, elapsed: nat)
    ensures SameRecords(r, Aged(r, elapsed))
    ensures var ttls, aged := AllTtls(r), AllTtls(Aged(r, elapsed));
      && |aged| == |ttls| && (forall i :: 0 <= i < |aged| ==> aged[i] == Sub(ttls[i], elapsed))
      && (ttls != [] ==> ((forall i :: 0 <= i < |aged| ==> aged[i] > 0) <==> elapsed < Least(ttls)))
  {
    var ttls, aged := AllTtls(r), AllTtls(Aged(r, elapsed));
    forall i | 0 <= i < |aged| ensures aged[i] == Sub(ttls[i], elapsed) {
      var a, b := |r.answers|, |r.authorities|;
      if i < a {
      } else if i < a + b {
        assert ttls[i] == r.authorities[i - a].ttl;
      } else {
        assert ttls[i] == r.additionals[i - a - b];
      }
    }
    if ttls != [] {
      var k :| 0 <= k < |ttls| && ttls[k] == Least(ttls);
      assert aged[k] == Sub(ttls[k], elapsed);
    }
  }

  lemma ElapsedBelow(later: nat, inserted: nat, ttl: nat)
    requires 0 < ttl <= MAX_TTL
    ensures ElapsedSeconds(later, inserted) < ttl <==> later < inserted + ttl * SECOND
  {}

  /** Checked and aged at one instant, and stamped at one instant, a positive answer has only live records. */
  lemma OneInstantIsAlive(e: Entry, now: nat)
    requires Cacheable(e.response) && !Negative(e.response)
    requires e.expires == e.inserted + Ttl(e.response) * SECOND && e.expires > now
    ensures var aged := AllTtls(Aged(e.response, ElapsedSeconds(now, e.inserted)));
      forall i :: 0 <= i < |aged| ==> aged[i] > 0
  {
    ElapsedBelow(now, e.inserted, Ttl(e.response));
    ServedTtls(e.response, ElapsedSeconds(now, e.inserted));
  }

  /**
  Checked just before it expires and aged just after, an answer is still served, with a record
  whose lifetime is zero: every positive answer has such an instant, unless the cap on lifetimes
  cut it short.
  */
  lemma LateAgeing(e: Entry) returns (now: nat)
    requires Cacheable(e.response) && !Negative(e.response) && Least(AllTtls(e.response)) <= MAX_TTL
    requires e.expires == e.inserted + Ttl(e.response) * SECOND
    ensures e.expires > now && 0 in AllTtls(Aged(e.response, ElapsedSeconds(now + 1, e.inserted)))
  {
    now := e.expires - 1;
    var ttls, elapsed := AllTtls(e.response), ElapsedSeconds(now + 1, e.inserted);
    assert elapsed == Least(ttls);
    ServedTtls(e.response, elapsed);
    var k :| 0 <= k < |ttls| && ttls[k] == Least(ttls);
    assert AllTtls(Aged(e.response, elapsed))[k] == 0;
  }

  // ----- the recorded size

  ghost function Sum(m: map<Key, Entry>): nat
    decreases |m|
  {
    if m == map[] then 0
    else
      var k :| k in m;
      assert |m - {k}| < |m| by { SmallerMap(m, k); }
      m[k].size + Sum(m - {k})
  }

  lemma SmallerMap(m: map<Key, Entry>, k: Key)
    requires k in m
    ensures |m - {k}| == |m| - 1
  {
    assert (m - {k}).Keys == m.Keys - {k};
    assert |m - {k}| == |(m - {k}).Keys| && |m| == |m.Keys|;
  }

  /** The sum does not depend on the order entries are taken in. */
  lemma {:induction false} SumWithout(m: map<Key, Entry>, k: Key)
    requires k in m
    ensures Sum(m) == m[k].size + Sum(m - {k})
    decreases |m|
  {
    var j :| j in m && Sum(m) == m[j].size + Sum(m - {j});
    if j != k {
      SmallerMap(m, j);
      SmallerMap(m, k);
      SumWithout(m - {j}, k);
      SumWithout(m - {k}, j);
      assert m - {j} - {k} == m - {k} - {j};
    }
  }

  lemma SumWith(m: map<Key, Entry>, k: Key, e: Entry)
    requires k !in m
    ensures Sum(m[k := e]) == Sum(m) + e.size
  {
    SumWithout(m[k := e], k);
    assert m[k := e] - {k} == m;
  }

  ghost predicate EntryOk(k: Key, e: Entry) {
    && Cacheable(e.response) && e.expires >= e.inserted + Ttl(e.response) * SECOND
    && e.size == |k| + e.response.length + CACHE_OVERHEAD
  }

  ghost predicate AllOk(m: map<Key, Entry>) { forall k :: k in m ==> EntryOk(k, m[k]) }

  /** Every entry was inserted and stamped at one instant. */
  ghost predicate StampedAtOnce(m: map<Key, Entry>) {
    forall k :: k in m ==> m[k].expires == m[k].inserted + Ttl(m[k].response) * SECOND
  }

  /** What has not expired at the instant `checked` says it is looked at, and is not stored under `key`. */
  function Retained(m: map<Key, Entry>, checked: Key -> nat, key: Key): map<Key, Entry> {
    map k | k in m && m[k].expires > checked(k) && k != key :: m[k]
  }

  lemma RetainedOk(m: map<Key, Entry>, checked: Key -> nat, key: Key)
    requires AllOk(m)
    ensures var r := Retained(m, checked, key); AllOk(r) && |r| <= |m| && key !in r
  {
    hide EntryOk;
    SubsetSize(Retained(m, checked, key).Keys, m.Keys);
  }

  predicate Fits(m: map<Key, Entry>, size: nat, extra: nat) { |m| < CACHE_ENTRIES && size + extra <= CACHE_BYTES }

  /** With `k` put back there would be no room. */
  ghost predicate NoRoomWith(before: map<Key, Entry>, after: map<Key, Entry>, extra: nat, k: Key) {
    && k in before && k !in after
    && !Fits(after[k := before[k]], Sum(after[k := before[k]]), extra)
  }

  /** `after` is `before` without some of its oldest entries, the last of which stood in the way. */
  ghost predicate Dropping(before: map<Key, Entry>, after: map<Key, Entry>, extra: nat) {
    && after.Keys <= before.Keys && (forall k :: k in after ==> after[k] == before[k])
    && (forall k, j :: k in before && k !in after && j in after ==> before[k].inserted <= after[j].inserted)
    && (after != before ==> exists k :: NoRoomWith(before, after, extra, k))
  }

  /** The oldest entries are gone, and only as many of them as room for `extra` bytes needs. */
  ghost predicate OldestDropped(before: map<Key, Entry>, after: map<Key, Entry>, extra: nat) {
    Dropping(before, after, extra) && (Fits(after, Sum(after), extra) || after == map[])
  }

  lemma DropStep(before: map<Key, Entry>, now: map<Key, Entry>, extra: nat, oldest: Key)
    requires Dropping(before, now, extra) && oldest in now && !Fits(now, Sum(now), extra)
    requires forall j :: j in now ==> now[oldest].inserted <= now[j].inserted
    ensures Dropping(before, now - {oldest}, extra)
  {
    hide Sum;
    var after := now - {oldest};
    assert after[oldest := before[oldest]] == now;
    assert NoRoomWith(before, after, extra, oldest);
  }

  lemma SumNone()
    ensures Sum(map[]) == 0
  {}

  lemma DroppedOk(before: map<Key, Entry>, after: map<Key, Entry>, extra: nat, key: Key)
    requires OldestDropped(before, after, extra) && AllOk(before) && |before| <= CACHE_ENTRIES && key !in before
    ensures AllOk(after) && |after| <= CACHE_ENTRIES && key !in after && after - {key} == after
    ensures extra <= CACHE_BYTES ==> |after| < CACHE_ENTRIES && Sum(after) + extra <= CACHE_BYTES
    ensures extra > CACHE_BYTES ==> Sum(after) == 0
  {
    hide EntryOk, NoRoomWith, Sum;
    SubsetSize(after.Keys, before.Keys);
    assert |after| == |after.Keys| && |before| == |before.Keys|;
    SumNone();
  }

  lemma StoredOk(m: map<Key, Entry>, key: Key, e: Entry)
    requires AllOk(m) && key !in m && Cacheable(e.response) && e.expires >= e.inserted + Ttl(e.response) * SECOND
    requires e.size == |key| + e.response.length + CACHE_OVERHEAD
    ensures var n := m[key := e]; AllOk(n) && Sum(n) == Sum(m) + e.size && |n| == |m| + 1 && n - {key} == m
  {
    hide Sum, Ttl, Cacheable;
    SumWith(m, key, e);
    assert m[key := e].Keys == m.Keys + {key};
    assert |m[key := e]| == |m[key := e].Keys| && |m| == |m.Keys|;
  }

  lemma RetainedStamps(m: map<Key, Entry>, checked: Key -> nat, key: Key)
    ensures StampedAtOnce(m) ==> StampedAtOnce(Retained(m, checked, key))
  {}

  lemma DroppedStamps(before: map<Key, Entry>, after: map<Key, Entry>, extra: nat)
    requires OldestDropped(before, after, extra)
    ensures StampedAtOnce(before) ==> StampedAtOnce(after)
  {
    hide NoRoomWith, Fits, Sum;
  }

  lemma StoredStamps(m: map<Key, Entry>, key: Key, e: Entry)
    ensures StampedAtOnce(m) && e.expires == e.inserted + Ttl(e.response) * SECOND ==> StampedAtOnce(m[key := e])
  {}

  class Cache {
    var entries: map<Key, Entry>
    var size: nat

    ghost predicate Valid()
      reads this
    {
      && size == Sum(entries) && size <= CACHE_BYTES && |entries| <= CACHE_ENTRIES
      && AllOk(entries)
    }

    constructor ()
      ensures Valid() && entries == map[] && StampedAtOnce(entries)
    {
      entries, size := map[], 0;
    }

    method Clear()
      modifies this
      ensures Valid() && entries == map[] && StampedAtOnce(entries)
    {
      entries, size := map[], 0;
    }

    /**
    The stored response with its lifetimes aged. The clock is read twice, at `now` to see whether
    the entry has expired and at `later` for its age, so an answer can be served with records
    whose lifetime is over: exactly when their shortest lifetime has elapsed at `later`. It is
    not, for a positive answer, when each insertion and this lookup read the clock once.
    */
    method Lookup(key: Key, now: nat, later: nat) returns (r: Option<Response>)
      requires Valid()
      ensures r.Some? <==> key in entries && entries[key].expires > now
      ensures r.Some? ==>
        var stored, elapsed := entries[key].response, ElapsedSeconds(later, entries[key].inserted);
        var ttls, served := AllTtls(stored), AllTtls(r.value);
        && r.value == Aged(stored, elapsed) && SameRecords(stored, r.value) && |served| == |ttls|
        && (forall i :: 0 <= i < |served| ==> served[i] == Sub(ttls[i], elapsed))
        && ((forall i :: 0 <= i < |served| ==> served[i] > 0) <==> elapsed < Least(ttls))
        && (StampedAtOnce(entries) && now == later && !Negative(stored) ==>
              forall i :: 0 <= i < |served| ==> served[i] > 0)
    {
      hide Sum, AllTtls, AgeAll;
      if key !in entries || entries[key].expires <= now {
        return None;
      }
      var e := entries[key];
      var elapsed := ElapsedSeconds(later, e.inserted);
      ServedTtls(e.response, elapsed);
      CacheableHasRecords(e.response);
      if StampedAtOnce(entries) && now == later && !Negative(e.response) { OneInstantIsAlive(e, now); }
      r := Some(Aged(e.response, elapsed));
    }

    /**
    Keeps an upstream answer: drops what has expired and what was stored under the key, makes
    room oldest first, and stores it unless it alone is too large. The clock is read at
    `checked(k)` for each entry, then at `inserted` and at `stamped` for the new one.
    */
    method Store(key: Key, response: Response, checked: Key -> nat, inserted: nat, stamped: nat)
      requires Valid() && inserted <= stamped
      modifies this
      ensures Valid()
      ensures old(StampedAtOnce(entries)) && inserted == stamped ==> StampedAtOnce(entries)
      ensures |entries| <= 4096 && size <= 1_048_576
      ensures !Cacheable(response) ==> entries == old(entries)
      ensures Cacheable(response) ==>
        var alive := map k | k in old(entries) && k != key && checked(k) < old(entries)[k].expires :: old(entries)[k];
        var extra := |key| + response.length + 256;
        && OldestDropped(alive, entries - {key}, extra)
        && (key in entries <==> extra <= 1_048_576)
        && (key in entries ==> entries[key] == Entry(response, inserted, stamped + Ttl(response) * SECOND, extra))
    {
      hide Sum, Ttl, Cacheable, OldestDropped, AllOk, StampedAtOnce;
      if !Cacheable(response) {
        return;
      }
      var extra := |key| + response.length + CACHE_OVERHEAD;
      RetainedOk(entries, checked, key);
      RetainedStamps(entries, checked, key);
      ghost var was := entries;
      entries := Retained(entries, checked, key);
      assert entries == map k | k in was && k != key && checked(k) < was[k].expires :: was[k];
      SumEntries();
      ghost var retained := entries;
      MakeRoom(extra);
      DroppedOk(retained, entries, extra, key);
      DroppedStamps(retained, entries, extra);
      if extra <= CACHE_BYTES {
        var e := Entry(response, inserted, stamped + Ttl(response) * SECOND, extra);
        StoredOk(entries, key, e);
        StoredStamps(entries, key, e);
        entries := entries[key := e];
        size := size + extra;
      }
    }

    /** Recomputes the recorded size from the entries. */
    method SumEntries()
      modifies this`size
      ensures size == Sum(entries)
    {
      size := 0;
      var rest := entries;
      while rest != map[]
        modifies this`size
        invariant size + Sum(rest) == Sum(entries)
        decreases |rest|
      {
        var k :| k in rest;
        SumWithout(rest, k);
        SmallerMap(rest, k);
        size := size + rest[k].size;
        rest := rest - {k};
      }
    }

    /** Drops the oldest entry until the new one fits or nothing is left. */
    method MakeRoom(extra: nat)
      requires size == Sum(entries)
      modifies this
      ensures size == Sum(entries) && OldestDropped(old(entries), entries, extra)
    {
      ghost var before := entries;
      while |entries| >= CACHE_ENTRIES || size + extra > CACHE_BYTES
        invariant size == Sum(entries)
        invariant Dropping(before, entries, extra)
        decreases |entries|
      {
        if entries == map[] {
          break;
        }
        var oldest := Oldest();
        SumWithout(entries, oldest);
        SmallerMap(entries, oldest);
        DropStep(before, entries, extra, oldest);
        hide Sum;
        size := size - entries[oldest].size;
        entries := entries - {oldest};
      }
    }

    method Oldest() returns (k: Key)
      requires entries != map[]
      ensures k in entries && forall j :: j in entries ==> entries[k].inserted <= entries[j].inserted
    {
      k :| k in entries;
      var rest := entries.Keys - {k};
      while rest != {}
        invariant rest <= entries.Keys && k in entries
        invariant forall j :: j in entries && j !in rest ==> entries[k].inserted <= entries[j].inserted
        decreases |rest|
      {
        var j :| j in rest;
        if entries[j].inserted < entries[k].inserted {
          k := j;
        }
        rest := rest - {j};
      }
    }
  }
}
