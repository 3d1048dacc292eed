/**
The record of received byte ranges: maximal runs kept by their starts and by their ends, so
that a new range merges with the run before it and the run after it.
*/
module Assembler {
  import opened Common

  /** `ends` maps the start of each run to its end, `starts` the other way round. */
  datatype Runs = Runs(ends: map<int, int>, starts: map<int, int>)

  const NO_RUNS := Runs(map[], map[])

  /** The runs after receiving `[s, e)`, which holds nothing received before. */
  function Merge(r: Runs, s: int, e: int): Runs {
    var from := if s in r.starts then r.starts[s] else s;
    var to := if e in r.ends then r.ends[e] else e;
    Runs((r.ends - {e})[from := to], (r.starts - {s})[to := from])
  }

  /** None when more than `maxRuns` separate runs would have to be kept. */
  function Add(r: Runs, s: int, e: int, maxRuns: nat): Option<Runs> {
    if |Merge(r, s, e).ends| > maxRuns then None else Some(Merge(r, s, e))
  }

  /** Length of the run that starts at zero. */
  function PeekFront(r: Runs): int { if 0 in r.ends then r.ends[0] else 0 }

  /** The positions from `s` up to but not including `e`. */
  function Span(s: int, e: int): (r: set<int>)
    ensures forall p :: p in r <==> s <= p < e
    decreases e - s
  {
    if s >= e then {} else Span(s, e - 1) + {e - 1}
  }

  // ----- what the runs mean

  ghost predicate InRun(r: Runs, p: int) { exists s :: s in r.ends && s <= p < r.ends[s] }

  /** A run from `s`: all received, and neither neighbour is. */
  ghost predicate MaximalRun(c: set<int>, s: int, e: int) {
    s < e && Span(s, e) <= c && e !in c && s - 1 !in c
  }

  /** `r` lists exactly the maximal runs of the received positions `c`. */
  ghost predicate Matches(r: Runs, c: set<int>) {
    && (forall s :: s in r.ends ==> MaximalRun(c, s, r.ends[s]) && r.ends[s] in r.starts && r.starts[r.ends[s]] == s)
    && (forall e :: e in r.starts ==> r.starts[e] in r.ends && r.ends[r.starts[e]] == e)
    && (forall p {:trigger InRun(r, p)} :: p in c ==> InRun(r, p))
  }

  /** A run that reaches up to a position not received ends there. */
  lemma RunEndsAt(r: Runs, c: set<int>, s: int)
    requires Matches(r, c) && s !in c
    ensures s - 1 in c <==> s in r.starts
    ensures s in r.starts ==> MaximalRun(c, r.starts[s], s)
  {
    hide Span;
    if s - 1 in c {
      assert InRun(r, s - 1);
      var a :| a in r.ends && a <= s - 1 < r.ends[a];
      assert s in Span(a, r.ends[a]) <==> s < r.ends[a];
    }
    if s in r.starts { assert s - 1 in Span(r.starts[s], s); }
  }

  lemma RunStartsAt(r: Runs, c: set<int>, e: int)
    requires Matches(r, c) && e - 1 !in c
    ensures e in c <==> e in r.ends
    ensures e in r.ends ==> MaximalRun(c, e, r.ends[e])
  {
    hide Span;
    if e in c {
      assert InRun(r, e);
      var a :| a in r.ends && a <= e < r.ends[a];
      assert e - 1 !in Span(a, r.ends[a]);
    }
    if e in r.ends { assert e in Span(e, r.ends[e]); }
  }

  /** The merged range is a maximal run of the received positions with the new ones. */
  lemma MergedIsMaximal(r: Runs, c: set<int>, s: int, e: int)
    requires Matches(r, c) && s < e && Span(s, e) !! c
    ensures var from, to := if s in r.starts then r.starts[s] else s, if e in r.ends then r.ends[e] else e;
      MaximalRun(c + Span(s, e), from, to)
  {
    hide Span;
    assert s in Span(s, e) && e - 1 in Span(s, e);
    RunEndsAt(r, c, s);
    RunStartsAt(r, c, e);
    var from, to := if s in r.starts then r.starts[s] else s, if e in r.ends then r.ends[e] else e;
    assert Span(from, to) == Span(from, s) + Span(s, e) + Span(e, to);
  }

  /** Another run keeps its distance from a range that holds nothing received. */
  lemma OtherRunStays(r: Runs, c: set<int>, s: int, e: int, a: int)
    requires Matches(r, c) && s < e && Span(s, e) !! c
    requires a in r.ends && a != e && r.ends[a] != s
    ensures MaximalRun(c + Span(s, e), a, r.ends[a])
    ensures r.ends[a] < s || e < a
  {
    hide Span;
    assert a in Span(a, r.ends[a]) && s in Span(s, e);
    assert a !in Span(s, e) && s !in Span(a, r.ends[a]);
  }

  /** A run that does not touch the new range is indexed by its start and end as before. */
  lemma OtherRunIndexed(r: Runs, c: set<int>, s: int, e: int, a: int)
    requires Matches(r, c) && s < e && Span(s, e) !! c
    requires a in r.ends && a != e && r.ends[a] != s
    ensures var m := Merge(r, s, e);
      && a in m.ends && m.ends[a] == r.ends[a] && r.ends[a] in m.starts && m.starts[r.ends[a]] == a
      && MaximalRun(c + Span(s, e), a, r.ends[a])
  {
    hide Span, InRun;
    OtherRunStays(r, c, s, e, a);
    hide MaximalRun;
    assert r.starts[r.ends[a]] == a;
    assert s in r.starts ==> r.ends[r.starts[s]] == s;
    assert e in r.ends ==> r.starts[r.ends[e]] == e;
  }

  lemma MergeIndexes(r: Runs, c: set<int>, s: int, e: int)
    requires Matches(r, c) && s < e && Span(s, e) !! c
    ensures var m := Merge(r, s, e);
      && (forall a :: a in m.ends ==>
            MaximalRun(c + Span(s, e), a, m.ends[a]) && m.ends[a] in m.starts && m.starts[m.ends[a]] == a)
      && (forall b :: b in m.starts ==> m.starts[b] in m.ends && m.ends[m.starts[b]] == b)
  {
    hide Span, InRun, MaximalRun;
    var m := Merge(r, s, e);
    MergedIsMaximal(r, c, s, e);
    var from, to := if s in r.starts then r.starts[s] else s, if e in r.ends then r.ends[e] else e;
    forall a | a in m.ends
      ensures MaximalRun(c + Span(s, e), a, m.ends[a]) && m.ends[a] in m.starts && m.starts[m.ends[a]] == a
    {
      if a != from { OtherRunIndexed(r, c, s, e, a); }
    }
    forall b | b in m.starts ensures m.starts[b] in m.ends && m.ends[m.starts[b]] == b {
      if b != to { OtherRunIndexed(r, c, s, e, r.starts[b]); }
    }
  }

  /** Every received position, old or new, is in some run after merging. */
  lemma MergedCovers(r: Runs, c: set<int>, s: int, e: int, p: int)
    requires Matches(r, c) && s < e && Span(s, e) !! c && p in c + Span(s, e)
    ensures InRun(Merge(r, s, e), p)
  {
    var m := Merge(r, s, e);
    var from, to := if s in r.starts then r.starts[s] else s, if e in r.ends then r.ends[e] else e;
    hide Span, MaximalRun;
    RunLengths(r, c, s, e);
    assert from in m.ends && m.ends[from] == to;
    if p in c {
      assert InRun(r, p);
      var a :| a in r.ends && a <= p < r.ends[a];
      if a != e && r.ends[a] != s {
        OtherRunIndexed(r, c, s, e, a);
      } else if a != e {
        assert r.starts[s] == a;
      }
    } else {
      SpanBounds(s, e, p);
    }
  }

  lemma SpanBounds(s: int, e: int, p: int)
    ensures p in Span(s, e) <==> s <= p < e
  {}

  lemma RunLengths(r: Runs, c: set<int>, s: int, e: int)
    requires Matches(r, c)
    ensures s in r.starts ==> r.starts[s] < s
    ensures e in r.ends ==> e < r.ends[e]
  {
    if s in r.starts { assert r.ends[r.starts[s]] == s; }
  }

  /** Merging keeps the runs maximal and complete. */
  lemma MergeMatches(r: Runs, c: set<int>, s: int, e: int)
    requires Matches(r, c) && s < e && Span(s, e) !! c
    ensures Matches(Merge(r, s, e), c + Span(s, e))
  {
    hide Span, MaximalRun, InRun, Merge;
    MergeIndexes(r, c, s, e);
    forall p | p in c + Span(s, e) ensures InRun(Merge(r, s, e), p) {
      MergedCovers(r, c, s, e, p);
    }
  }

  /** The starts of the runs are the received positions whose predecessor was not received. */
  lemma StartsAreEdges(r: Runs, c: set<int>)
    requires Matches(r, c)
    ensures forall p {:trigger p in r.ends} :: p in r.ends <==> p in c && p - 1 !in c
  {
    hide Span;
    forall p | p in c && p - 1 !in c ensures p in r.ends {
      RunStartsAt(r, c, p);
    }
    forall s | s in r.ends ensures s in c && s - 1 !in c {
      assert s in Span(s, r.ends[s]);
    }
  }

  /** The front run is everything exactly when no position below `total` is missing. */
  lemma FrontIsWhole(r: Runs, c: set<int>, total: int)
    requires Matches(r, c) && total > 0 && forall p :: p in c ==> 0 <= p < total
    ensures PeekFront(r) == total <==> Span(0, total) <= c
  {
    hide Span;
    assert -1 !in c;
    RunStartsAt(r, c, 0);
    if Span(0, total) <= c {
      assert 0 in Span(0, total);
      var e := r.ends[0];
      assert e - 1 in Span(0, e);
      assert e < total ==> e in Span(0, total);
    }
  }

  /** A range touches a run exactly when it holds a received position. */
  lemma OverlapIsReceived(r: Runs, c: set<int>, s: int, e: int)
    requires Matches(r, c) && s < e
    ensures (exists a :: a in r.ends && s < r.ends[a] && e > a) <==> !(Span(s, e) !! c)
  {
    hide Span;
    if a :| a in r.ends && s < r.ends[a] && e > a {
      var p := Max(s, a);
      assert p in Span(s, e) && p in Span(a, r.ends[a]);
    }
    if p :| p in Span(s, e) && p in c {
      assert InRun(r, p);
      var a :| a in r.ends && a <= p < r.ends[a];
      assert s < r.ends[a] && e > a;
    }
  }

  /** Some run ends past `e` exactly when a position at or past `e` was received. */
  lemma PastEnd(r: Runs, c: set<int>, e: int)
    requires Matches(r, c)
    ensures (exists a :: a in r.ends && r.ends[a] > e) <==> exists p :: p in c && p >= e
  {
    hide Span;
    if a :| a in r.ends && r.ends[a] > e {
      assert r.ends[a] - 1 in Span(a, r.ends[a]);
    }
    if p :| p in c && p >= e {
      assert InRun(r, p);
      var a :| a in r.ends && a <= p < r.ends[a];
      assert r.ends[a] > e;
    }
  }
}
