/**
The value-level invariant of the fake-IP tables: two hash maps and a queue of use stamps
against one list of live entries, least recently used first.
*/
module FakeIpTables {
  import opened Common
  import opened Addresses
  import opened FakeIpSpec

  type Key = (string, bool)

  /** A mapping and when it was used last. */
  datatype Entry = Entry(name: string, ip: IpAddr, stamp: nat)

  function KeyOf(e: Entry): Key { (e.name, e.ip.V6?) }

  function Recency(live: seq<Entry>): (r: seq<Mapping>)
    ensures |r| == |live|
    ensures forall i :: 0 <= i < |live| ==> r[i] == Mapping(live[i].name, live[i].ip)
  {
    seq(|live|, i requires 0 <= i < |live| => Mapping(live[i].name, live[i].ip))
  }

  ghost predicate ByStamp(live: seq<Entry>) {
    forall i, j :: 0 <= i < j < |live| ==> live[i].stamp < live[j].stamp
  }

  /** Both maps list every live entry. */
  ghost predicate Listed(byName: map<Key, (IpAddr, nat)>, byIp: map<IpAddr, string>, live: seq<Entry>) {
    forall i {:trigger KeyOf(live[i])} :: 0 <= i < |live| ==>
      && KeyOf(live[i]) in byName && byName[KeyOf(live[i])] == (live[i].ip, live[i].stamp)
      && live[i].ip in byIp && byIp[live[i].ip] == live[i].name
  }

  ghost predicate NamesLive(byName: map<Key, (IpAddr, nat)>, live: seq<Entry>) {
    forall k :: k in byName ==> k.1 == byName[k].0.V6? && Entry(k.0, byName[k].0, byName[k].1) in live
  }

  ghost predicate IpsNamed(byName: map<Key, (IpAddr, nat)>, byIp: map<IpAddr, string>) {
    forall ip :: ip in byIp ==> (byIp[ip], ip.V6?) in byName && byName[(byIp[ip], ip.V6?)].0 == ip
  }

  /** The two maps are inverse to each other per family, and both list exactly the live entries. */
  ghost predicate Tables(byName: map<Key, (IpAddr, nat)>, byIp: map<IpAddr, string>, live: seq<Entry>) {
    ByStamp(live) && Listed(byName, byIp, live) && NamesLive(byName, live) && IpsNamed(byName, byIp)
  }

  ghost predicate Unique(live: seq<Entry>) {
    forall i, j :: 0 <= i < j < |live| ==> live[i].ip != live[j].ip && KeyOf(live[i]) != KeyOf(live[j])
  }

  /** The queue lists uses in order; the latest use of every live entry is still in it. */
  ghost predicate Queue(order: seq<(IpAddr, nat)>, live: seq<Entry>, stamp: nat) {
    && (forall i, j :: 0 <= i < j < |order| ==> order[i].1 < order[j].1)
    && (forall i :: 0 <= i < |order| ==> order[i].1 <= stamp)
    && (forall i :: 0 <= i < |live| ==> (live[i].ip, live[i].stamp) in order)
  }

  /** A queue entry is current when its address is mapped and its stamp is the latest one. */
  predicate Current(byName: map<Key, (IpAddr, nat)>, byIp: map<IpAddr, string>, use: (IpAddr, nat)) {
    && use.0 in byIp
    && (byIp[use.0], use.0.V6?) in byName
    && byName[(byIp[use.0], use.0.V6?)].1 == use.1
  }

  lemma LiveOneToOne(byName: map<Key, (IpAddr, nat)>, byIp: map<IpAddr, string>, live: seq<Entry>)
    requires Tables(byName, byIp, live)
    ensures Unique(live) && OneToOne(Recency(live))
  {
    forall i, j | 0 <= i < j < |live|
      ensures live[i].ip != live[j].ip && KeyOf(live[i]) != KeyOf(live[j])
    {
      assert live[i].stamp < live[j].stamp;
      assert byName[KeyOf(live[i])] == (live[i].ip, live[i].stamp);
      assert byName[KeyOf(live[j])] == (live[j].ip, live[j].stamp);
    }
  }

  lemma Sizes(byName: map<Key, (IpAddr, nat)>, byIp: map<IpAddr, string>, live: seq<Entry>)
    requires Tables(byName, byIp, live)
    ensures |byName| == |byIp| == |live|
    ensures byIp.Keys == Ips(Recency(live))
  {
    LiveOneToOne(byName, byIp, live);
    IpsSize(Recency(live));
    AddressKeys(byName, byIp, live);
    KeyCount(byName, byIp, live);
    hide Tables, Ips, OneToOne;
    assert |byIp.Keys| == |byIp|;
  }

  lemma AddressKeys(byName: map<Key, (IpAddr, nat)>, byIp: map<IpAddr, string>, live: seq<Entry>)
    requires Tables(byName, byIp, live)
    ensures byIp.Keys == Ips(Recency(live))
  {
    forall ip | ip in byIp ensures ip in Ips(Recency(live)) {
      var k := (byIp[ip], ip.V6?);
      var i :| 0 <= i < |live| && live[i] == Entry(k.0, byName[k].0, byName[k].1);
      assert Recency(live)[i].ip == ip;
    }
    forall ip | ip in Ips(Recency(live)) ensures ip in byIp {
      var m :| m in Recency(live) && m.ip == ip;
      var i :| 0 <= i < |live| && Recency(live)[i] == m;
      assert KeyOf(live[i]) in byName;
    }
  }

  lemma KeyCount(byName: map<Key, (IpAddr, nat)>, byIp: map<IpAddr, string>, live: seq<Entry>)
    requires Listed(byName, byIp, live) && NamesLive(byName, live) && Unique(live)
    ensures |byName| == |live|
  {
    var keys := seq(|live|, i requires 0 <= i < |live| => KeyOf(live[i]));
    DistinctSize(keys);
    assert byName.Keys == (set k | k in keys) by {
      forall k | k in byName ensures k in keys {
        var i :| 0 <= i < |live| && live[i] == Entry(k.0, byName[k].0, byName[k].1);
        assert keys[i] == k;
      }
    }
    assert |byName.Keys| == |byName|;
  }

  /** Where the live list holds a mapped key, and where it is in the recency list. */
  lemma Locate(byName: map<Key, (IpAddr, nat)>, byIp: map<IpAddr, string>, live: seq<Entry>, k: Key)
    returns (i: nat)
    requires Tables(byName, byIp, live)
    ensures i == IndexOf(Recency(live), k.0, k.1)
    ensures k in byName <==> i < |live|
    ensures i < |live| ==> live[i] == Entry(k.0, byName[k].0, byName[k].1)
  {
    i := IndexOf(Recency(live), k.0, k.1);
    if k in byName {
      var j :| 0 <= j < |live| && live[j] == Entry(k.0, byName[k].0, byName[k].1);
      assert Recency(live)[j].name == k.0 && Recency(live)[j].ip.V6? == k.1;
      assert KeyOf(live[i]) == k;
    }
    if i < |live| { assert KeyOf(live[i]) == k; }
  }

  // ----- one use of a mapped name

  function TouchLive(live: seq<Entry>, i: nat, stamp: nat): seq<Entry>
    requires i < |live|
  {
    live[..i] + live[i + 1..] + [live[i].(stamp := stamp)]
  }

  /** Where position `j` of the touched list comes from. */
  function Source(n: nat, i: nat, j: nat): nat
    requires i < n && j < n
  {
    if j < i then j else if j == n - 1 then i else j + 1
  }

  lemma TouchListed(byName: map<Key, (IpAddr, nat)>, byIp: map<IpAddr, string>, live: seq<Entry>, i: nat, stamp: nat)
    requires Listed(byName, byIp, live) && Unique(live) && i < |live|
    ensures Listed(byName[KeyOf(live[i]) := (live[i].ip, stamp)], byIp, TouchLive(live, i, stamp))
  {
    var e, t := live[i], TouchLive(live, i, stamp);
    var names := byName[KeyOf(e) := (e.ip, stamp)];
    forall j | 0 <= j < |t|
      ensures KeyOf(t[j]) in names && names[KeyOf(t[j])] == (t[j].ip, t[j].stamp)
      ensures t[j].ip in byIp && byIp[t[j].ip] == t[j].name
    {
      var from := Source(|t|, i, j);
      assert from != i ==> t[j] == live[from] && KeyOf(live[from]) != KeyOf(e);
      assert from == i ==> t[j] == e.(stamp := stamp);
    }
  }

  lemma TouchTables(byName: map<Key, (IpAddr, nat)>, byIp: map<IpAddr, string>, live: seq<Entry>, i: nat, stamp: nat)
    requires Tables(byName, byIp, live) && i < |live|
    requires forall j :: 0 <= j < |live| ==> live[j].stamp < stamp
    ensures Tables(byName[KeyOf(live[i]) := (live[i].ip, stamp)], byIp, TouchLive(live, i, stamp))
  {
    LiveOneToOne(byName, byIp, live);
    TouchListed(byName, byIp, live, i, stamp);
    TouchNamesLive(byName, live, i, stamp);
    TouchIpsNamed(byName, byIp, KeyOf(live[i]), stamp);
    TouchByStamp(live, i, stamp);
  }

  lemma TouchByStamp(live: seq<Entry>, i: nat, stamp: nat)
    requires ByStamp(live) && i < |live| && forall j :: 0 <= j < |live| ==> live[j].stamp < stamp
    ensures ByStamp(TouchLive(live, i, stamp))
  {}

  lemma TouchIpsNamed(byName: map<Key, (IpAddr, nat)>, byIp: map<IpAddr, string>, k: Key, stamp: nat)
    requires IpsNamed(byName, byIp) && k in byName
    ensures IpsNamed(byName[k := (byName[k].0, stamp)], byIp)
  {}

  lemma TouchNamesLive(byName: map<Key, (IpAddr, nat)>, live: seq<Entry>, i: nat, stamp: nat)
    requires NamesLive(byName, live) && i < |live|
    ensures NamesLive(byName[KeyOf(live[i]) := (live[i].ip, stamp)], TouchLive(live, i, stamp))
  {
    var e, t := live[i], TouchLive(live, i, stamp);
    var names := byName[KeyOf(e) := (e.ip, stamp)];
    forall k | k in names ensures k.1 == names[k].0.V6? && Entry(k.0, names[k].0, names[k].1) in t {
      if k == KeyOf(e) {
        assert t[|t| - 1] == Entry(k.0, names[k].0, names[k].1);
      } else {
        var j :| 0 <= j < |live| && live[j] == Entry(k.0, byName[k].0, byName[k].1);
        assert t[if j < i then j else j - 1] == live[j];
      }
    }
  }

  lemma TouchQueue(order: seq<(IpAddr, nat)>, live: seq<Entry>, stamp: nat, i: nat)
    requires Queue(order, live, stamp) && i < |live|
    ensures Queue(order + [(live[i].ip, stamp + 1)], TouchLive(live, i, stamp + 1), stamp + 1)
  {
    var longer, t := order + [(live[i].ip, stamp + 1)], TouchLive(live, i, stamp + 1);
    forall j | 0 <= j < |t| ensures (t[j].ip, t[j].stamp) in longer {
      var j' := if j < i then j else if j == |t| - 1 then i else j + 1;
      if j' == i {
        assert longer[|order|] == (t[j].ip, t[j].stamp);
      } else {
        assert t[j] == live[j'];
      }
    }
  }

  // ----- a new mapping

  lemma InsertNamesLive(byName: map<Key, (IpAddr, nat)>, live: seq<Entry>, e: Entry)
    requires NamesLive(byName, live)
    ensures NamesLive(byName[KeyOf(e) := (e.ip, e.stamp)], live + [e])
  {
    var names, longer := byName[KeyOf(e) := (e.ip, e.stamp)], live + [e];
    forall k | k in names ensures k.1 == names[k].0.V6? && Entry(k.0, names[k].0, names[k].1) in longer {
      if k == KeyOf(e) { assert longer[|live|] == e; }
    }
  }

  lemma InsertListed(byName: map<Key, (IpAddr, nat)>, byIp: map<IpAddr, string>, live: seq<Entry>, e: Entry)
    requires Listed(byName, byIp, live) && KeyOf(e) !in byName && e.ip !in byIp
    ensures Listed(byName[KeyOf(e) := (e.ip, e.stamp)], byIp[e.ip := e.name], live + [e])
  {
    var names, ips, longer := byName[KeyOf(e) := (e.ip, e.stamp)], byIp[e.ip := e.name], live + [e];
    forall i {:trigger KeyOf(longer[i])} | 0 <= i < |longer|
      ensures KeyOf(longer[i]) in names && names[KeyOf(longer[i])] == (longer[i].ip, longer[i].stamp)
      ensures longer[i].ip in ips && ips[longer[i].ip] == longer[i].name
    {
      assert i < |live| ==> longer[i] == live[i] && KeyOf(live[i]) in byName;
    }
  }

  lemma InsertIpsNamed(byName: map<Key, (IpAddr, nat)>, byIp: map<IpAddr, string>, e: Entry)
    requires IpsNamed(byName, byIp) && KeyOf(e) !in byName && e.ip !in byIp
    ensures IpsNamed(byName[KeyOf(e) := (e.ip, e.stamp)], byIp[e.ip := e.name])
  {}

  lemma InsertTables(byName: map<Key, (IpAddr, nat)>, byIp: map<IpAddr, string>, live: seq<Entry>, e: Entry)
    requires Tables(byName, byIp, live)
    requires KeyOf(e) !in byName && e.ip !in byIp
    requires forall j :: 0 <= j < |live| ==> live[j].stamp < e.stamp
    ensures Tables(byName[KeyOf(e) := (e.ip, e.stamp)], byIp[e.ip := e.name], live + [e])
  {
    InsertListed(byName, byIp, live, e);
    InsertNamesLive(byName, live, e);
    InsertIpsNamed(byName, byIp, e);
  }

  // ----- dropping the oldest

  /** The first current queue entry is the least recently used live entry. */
  lemma CurrentIsOldest(byName: map<Key, (IpAddr, nat)>, byIp: map<IpAddr, string>,
                        order: seq<(IpAddr, nat)>, live: seq<Entry>, stamp: nat)
    requires Tables(byName, byIp, live) && Queue(order, live, stamp) && order != []
    ensures Current(byName, byIp, order[0]) ==> live != [] && order[0] == (live[0].ip, live[0].stamp)
    ensures !Current(byName, byIp, order[0]) ==> Queue(order[1..], live, stamp)
  {
    var use := order[0];
    if Current(byName, byIp, use) {
      var k := (byIp[use.0], use.0.V6?);
      var i :| 0 <= i < |live| && live[i] == Entry(k.0, byName[k].0, byName[k].1);
      assert live[i].stamp == use.1;
      assert (live[0].ip, live[0].stamp) in order;
    } else {
      forall i | 0 <= i < |live| ensures (live[i].ip, live[i].stamp) in order[1..] {
        var j :| 0 <= j < |order| && order[j] == (live[i].ip, live[i].stamp);
        assert KeyOf(live[i]) in byName;
        assert order[1..][j - 1] == order[j];
      }
    }
  }

  lemma EvictListed(byName: map<Key, (IpAddr, nat)>, byIp: map<IpAddr, string>, live: seq<Entry>)
    requires Listed(byName, byIp, live) && Unique(live) && live != []
    ensures Listed(byName - {KeyOf(live[0])}, byIp - {live[0].ip}, live[1..])
  {
    assert forall i :: 0 <= i < |live[1..]| ==> live[1..][i] == live[i + 1];
  }

  lemma EvictNamesLive(byName: map<Key, (IpAddr, nat)>, live: seq<Entry>)
    requires NamesLive(byName, live) && live != []
    ensures NamesLive(byName - {KeyOf(live[0])}, live[1..])
  {
    var names := byName - {KeyOf(live[0])};
    forall k | k in names ensures Entry(k.0, names[k].0, names[k].1) in live[1..] {
      var i :| 0 <= i < |live| && live[i] == Entry(k.0, byName[k].0, byName[k].1);
      assert KeyOf(live[i]) == k;
      assert live[1..][i - 1] == live[i];
    }
  }

  lemma EvictIpsNamed(byName: map<Key, (IpAddr, nat)>, byIp: map<IpAddr, string>, k: Key)
    requires IpsNamed(byName, byIp) && k in byName
    ensures IpsNamed(byName - {k}, byIp - {byName[k].0})
  {}

  lemma EvictTables(byName: map<Key, (IpAddr, nat)>, byIp: map<IpAddr, string>, live: seq<Entry>)
    requires Tables(byName, byIp, live) && live != []
    ensures Tables(byName - {KeyOf(live[0])}, byIp - {live[0].ip}, live[1..])
  {
    LiveOneToOne(byName, byIp, live);
    EvictListed(byName, byIp, live);
    EvictNamesLive(byName, live);
    EvictIpsNamed(byName, byIp, KeyOf(live[0]));
  }

  lemma EvictQueue(order: seq<(IpAddr, nat)>, live: seq<Entry>, stamp: nat)
    requires Queue(order, live, stamp) && live != [] && order != []
    requires forall i :: 0 < i < |live| ==> live[i].stamp != live[0].stamp
    requires order[0] == (live[0].ip, live[0].stamp)
    ensures Queue(order[1..], live[1..], stamp)
  {
    forall i | 0 <= i < |live[1..]| ensures (live[1..][i].ip, live[1..][i].stamp) in order[1..] {
      assert live[1..][i] == live[i + 1];
      var j :| 0 <= j < |order| && order[j] == (live[i + 1].ip, live[i + 1].stamp);
      assert order[1..][j - 1] == order[j];
    }
  }

  // ----- sorting the live entries

  lemma SortedLast(a: seq<Entry>, e: Entry)
    requires ByStamp(a) && a != [] && e in a
    ensures e.stamp <= a[|a| - 1].stamp
    ensures e.stamp == a[|a| - 1].stamp ==> e == a[|a| - 1]
  {
    var i :| 0 <= i < |a| && a[i] == e;
    assert i < |a| - 1 ==> a[i].stamp < a[|a| - 1].stamp;
  }

  lemma InitMember(a: seq<Entry>, e: Entry)
    requires ByStamp(a) && a != []
    ensures e in a[..|a| - 1] <==> e in a && e != a[|a| - 1]
  {
    var m := |a| - 1;
    assert a == a[..m] + [a[m]];
    if e in a[..m] {
      var i :| 0 <= i < m && a[i] == e;
      assert a[i].stamp < a[m].stamp;
    }
  }

  lemma SameLast(a: seq<Entry>, b: seq<Entry>)
    requires ByStamp(a) && ByStamp(b) && a != [] && b != [] && (forall e :: e in a <==> e in b)
    ensures a[|a| - 1] == b[|b| - 1]
  {
    hide ByStamp;
    assert a[|a| - 1] in a && b[|b| - 1] in b;
    SortedLast(a, b[|b| - 1]);
    SortedLast(b, a[|a| - 1]);
  }

  /** A strictly sorted list is determined by its elements. */
  lemma {:induction false} SortedIsUnique(a: seq<Entry>, b: seq<Entry>)
    requires ByStamp(a) && ByStamp(b) && (forall e :: e in a <==> e in b)
    ensures a == b
    decreases |a|
  {
    assert a != [] ==> a[0] in b;
    assert b != [] ==> b[0] in a;
    if a == [] {
    } else {
      var m, n := |a| - 1, |b| - 1;
      SameLast(a, b);
      assert ByStamp(a[..m]) && ByStamp(b[..n]);
      hide ByStamp;
      forall e ensures e in a[..m] <==> e in b[..n] {
        InitMember(a, e);
        InitMember(b, e);
      }
      SortedIsUnique(a[..m], b[..n]);
      assert a == a[..m] + [a[m]] && b == b[..n] + [b[n]];
    }
  }

  // ----- the whole invariant, one operation at a time

  ghost predicate Inv(byName: map<Key, (IpAddr, nat)>, byIp: map<IpAddr, string>, order: seq<(IpAddr, nat)>,
                      live: seq<Entry>, stamp: nat)
  {
    Tables(byName, byIp, live) && Queue(order, live, stamp) && forall i :: 0 <= i < |live| ==> live[i].stamp <= stamp
  }

  /** A use of a mapped name: a new stamp, a new queue entry, and the name becomes the most recent. */
  lemma TouchInv(byName: map<Key, (IpAddr, nat)>, byIp: map<IpAddr, string>, order: seq<(IpAddr, nat)>,
                 live: seq<Entry>, stamp: nat, k: Key) returns (i: nat)
    requires Inv(byName, byIp, order, live, stamp) && k in byName
    ensures i == IndexOf(Recency(live), k.0, k.1) && i < |live| && live[i].ip == byName[k].0
    ensures Inv(byName[k := (byName[k].0, stamp + 1)], byIp, order + [(byName[k].0, stamp + 1)],
                TouchLive(live, i, stamp + 1), stamp + 1)
    ensures Recency(TouchLive(live, i, stamp + 1)) == Touch(Recency(live), i)
  {
    hide Queue, Tables;
    i := Locate(byName, byIp, live, k);
    assert KeyOf(live[i]) == k by { KeyIsListed(byName, live, i, k); }
    TouchTables(byName, byIp, live, i, stamp + 1);
    TouchQueue(order, live, stamp, i);
    assert Recency(TouchLive(live, i, stamp + 1)) == Touch(Recency(live), i);
  }

  lemma KeyIsListed(byName: map<Key, (IpAddr, nat)>, live: seq<Entry>, i: nat, k: Key)
    requires k in byName && i < |live| && live[i] == Entry(k.0, byName[k].0, byName[k].1)
    requires i == IndexOf(Recency(live), k.0, k.1)
    ensures KeyOf(live[i]) == k
  {
    assert Recency(live)[i].ip.V6? == k.1;
  }

  lemma InsertInv(byName: map<Key, (IpAddr, nat)>, byIp: map<IpAddr, string>, order: seq<(IpAddr, nat)>,
                  live: seq<Entry>, stamp: nat, name: string, ip: IpAddr)
    requires Inv(byName, byIp, order, live, stamp) && (name, ip.V6?) !in byName && ip !in byIp
    ensures Inv(byName[(name, ip.V6?) := (ip, stamp + 1)], byIp[ip := name], order + [(ip, stamp + 1)],
                live + [Entry(name, ip, stamp + 1)], stamp + 1)
    ensures Recency(live + [Entry(name, ip, stamp + 1)]) == Recency(live) + [Mapping(name, ip)]
  {
    hide Tables;
    var e, longer := Entry(name, ip, stamp + 1), order + [(ip, stamp + 1)];
    InsertTables(byName, byIp, live, e);
    assert longer[|order|] == (e.ip, e.stamp);
    assert Recency(live + [e]) == Recency(live) + [Mapping(name, ip)];
  }

  /** Popping the queue: a current entry is the oldest live one and goes; a stale one does not matter. */
  lemma PopInv(byName: map<Key, (IpAddr, nat)>, byIp: map<IpAddr, string>, order: seq<(IpAddr, nat)>,
               live: seq<Entry>, stamp: nat)
    requires Inv(byName, byIp, order, live, stamp) && order != []
    ensures !Current(byName, byIp, order[0]) ==> Inv(byName, byIp, order[1..], live, stamp)
    ensures Current(byName, byIp, order[0]) ==>
      && live != []
      && Inv(byName - {(byIp[order[0].0], order[0].0.V6?)}, byIp - {order[0].0}, order[1..], live[1..], stamp)
      && Recency(live[1..]) == Recency(live)[1..]
  {
    hide Queue, Tables;
    CurrentIsOldest(byName, byIp, order, live, stamp);
    if Current(byName, byIp, order[0]) {
      OldestIsListed(byName, byIp, live);
      EvictTables(byName, byIp, live);
      EvictQueue(order, live, stamp);
    }
  }

  lemma OldestIsListed(byName: map<Key, (IpAddr, nat)>, byIp: map<IpAddr, string>, live: seq<Entry>)
    requires Tables(byName, byIp, live) && live != []
    ensures live[0].ip in byIp && KeyOf(live[0]) == (byIp[live[0].ip], live[0].ip.V6?)
    ensures forall i :: 0 < i < |live| ==> live[i].stamp != live[0].stamp
  {
    assert KeyOf(live[0]) in byName;
  }

  lemma DrainedIsEmpty(byName: map<Key, (IpAddr, nat)>, byIp: map<IpAddr, string>, order: seq<(IpAddr, nat)>,
                       live: seq<Entry>, stamp: nat)
    requires Inv(byName, byIp, order, live, stamp)
    ensures order == [] ==> live == []
  {
    hide Tables;
    if live != [] { assert (live[0].ip, live[0].stamp) in order; }
  }

  /** The live entries themselves are a queue without stale entries. */
  lemma CompactInv(byName: map<Key, (IpAddr, nat)>, byIp: map<IpAddr, string>, order: seq<(IpAddr, nat)>,
                   live: seq<Entry>, stamp: nat, uses: seq<(IpAddr, nat)>)
    requires Inv(byName, byIp, order, live, stamp) && |uses| == |live|
    requires forall j :: 0 <= j < |live| ==> uses[j] == (live[j].ip, live[j].stamp)
    ensures Inv(byName, byIp, uses, live, stamp)
  {
    assert ByStamp(live);
    hide Tables;
    forall j | 0 <= j < |live| ensures (live[j].ip, live[j].stamp) in uses {
      assert uses[j] == (live[j].ip, live[j].stamp);
    }
  }

  lemma InvSizes(byName: map<Key, (IpAddr, nat)>, byIp: map<IpAddr, string>, order: seq<(IpAddr, nat)>,
                 live: seq<Entry>, stamp: nat)
    requires Inv(byName, byIp, order, live, stamp)
    ensures |byName| == |byIp| == |live| && byIp.Keys == Ips(Recency(live))
  {
    hide Tables;
    Sizes(byName, byIp, live);
  }

  lemma InvLookup(byName: map<Key, (IpAddr, nat)>, byIp: map<IpAddr, string>, order: seq<(IpAddr, nat)>,
                  live: seq<Entry>, stamp: nat, k: Key)
    requires Inv(byName, byIp, order, live, stamp)
    ensures k in byName <==> IndexOf(Recency(live), k.0, k.1) < |live|
  {
    hide Tables;
    var i := Locate(byName, byIp, live, k);
  }

  lemma InvNameOf(byName: map<Key, (IpAddr, nat)>, byIp: map<IpAddr, string>, order: seq<(IpAddr, nat)>,
                  live: seq<Entry>, stamp: nat, ip: IpAddr)
    requires Inv(byName, byIp, order, live, stamp) && ip in byIp
    ensures Mapping(byIp[ip], ip) in Recency(live)
  {
    var k := (byIp[ip], ip.V6?);
    var i :| 0 <= i < |live| && live[i] == Entry(k.0, byName[k].0, byName[k].1);
    assert Recency(live)[i] == Mapping(byIp[ip], ip);
  }
}
