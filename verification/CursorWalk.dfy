/** Cyclic walks of one allocation cursor over the offsets of a pool, step by step. */
module CursorWalk {

  const FIRST_OFFSET: nat := 2

  /** Where a cursor at `next` looks: past `last` it starts over. */
  function Probe(next: nat, last: nat): nat { if next > last then FIRST_OFFSET else next }

  /** Offsets visited one after the other, wrapping from `last` to the first usable one. */
  ghost predicate Cyclic(v: seq<nat>, last: nat) {
    && (forall i :: 0 <= i < |v| ==> FIRST_OFFSET <= v[i] <= last)
    && (forall i :: 0 < i < |v| ==> v[i] == Probe(v[i - 1] + 1, last))
  }

  /** A step that visits `v` takes the cursor from `before` to `after`. */
  ghost predicate StepOk(before: nat, v: seq<nat>, after: nat, last: nat) {
    && Cyclic(v, last)
    && (v == [] ==> after == before)
    && (v != [] ==> v[0] == Probe(before, last) && after == v[|v| - 1] + 1)
  }

  ghost predicate WalkOk(nexts: seq<nat>, steps: seq<seq<nat>>, last: nat) {
    && |nexts| == |steps| + 1
    && (forall i :: 0 <= i < |steps| ==> StepOk(nexts[i], steps[i], nexts[i + 1], last))
  }

  lemma {:induction false} CyclicStep(v: seq<nat>, last: nat, i: nat, k: nat)
    requires last >= FIRST_OFFSET && Cyclic(v, last) && i + k < |v| && k < last - 1
    ensures v[i + k] == if v[i] + k <= last then v[i] + k else v[i] + k - (last - 1)
    decreases k
  {
    if k == 0 {
    } else {
      CyclicStep(v, last, i, k - 1);
    }
  }

  lemma CyclicAppend(a: seq<nat>, b: seq<nat>, last: nat)
    requires Cyclic(a, last) && Cyclic(b, last)
    requires a != [] && b != [] ==> b[0] == Probe(a[|a| - 1] + 1, last)
    ensures Cyclic(a + b, last)
  {
    var c := a + b;
    forall i | 0 < i < |c| ensures c[i] == Probe(c[i - 1] + 1, last) {
      if i > |a| { assert c[i] == b[i - |a|] && c[i - 1] == b[i - |a| - 1]; }
    }
  }

  /** A walk that returns to its first offset has visited all the others. */
  lemma CyclicReturn(v: seq<nat>, last: nat)
    requires last >= FIRST_OFFSET && Cyclic(v, last) && |v| > 1 && v[0] == v[|v| - 1]
    ensures forall o: nat :: FIRST_OFFSET <= o <= last ==> o in v
  {
    if |v| < last { CyclicStep(v, last, 0, |v| - 1); }
    forall o: nat | FIRST_OFFSET <= o <= last ensures o in v {
      var k := if o >= v[0] then o - v[0] else o - v[0] + last - 1;
      CyclicStep(v, last, 0, k);
      assert v[k] == o;
    }
  }

  function Concat(steps: seq<seq<nat>>): seq<nat> {
    if steps == [] then [] else steps[0] + Concat(steps[1..])
  }

  lemma {:induction false} ConcatWalk(nexts: seq<nat>, steps: seq<seq<nat>>, last: nat)
    requires WalkOk(nexts, steps, last)
    ensures StepOk(nexts[0], Concat(steps), nexts[|steps|], last)
  {
    if steps == [] {
    } else {
      var tail := nexts[1..];
      assert WalkOk(tail, steps[1..], last) by {
        forall i | 0 <= i < |steps[1..]| ensures StepOk(tail[i], steps[1..][i], tail[i + 1], last) {
          assert StepOk(nexts[i + 1], steps[i + 1], nexts[i + 2], last);
        }
      }
      ConcatWalk(tail, steps[1..], last);
      assert StepOk(nexts[0], steps[0], nexts[1], last);
      CyclicAppend(steps[0], Concat(steps[1..]), last);
    }
  }

  /** Some step after `from` and up to `to` visited `o`. */
  ghost predicate VisitedIn(steps: seq<seq<nat>>, from: int, to: nat, o: nat) {
    exists r :: 0 <= r && from < r <= to < |steps| && o in steps[r]
  }

  lemma {:induction false} ConcatMember(steps: seq<seq<nat>>, from: nat, to: nat, o: nat)
    requires from <= to < |steps| && o in Concat(steps[from..to + 1])
    ensures VisitedIn(steps, from - 1, to, o)
    decreases |steps| - from
  {
    assert steps[from..to + 1][0] == steps[from];
    if o !in steps[from] {
      assert steps[from..to + 1][1..] == steps[from + 1..to + 1];
      ConcatMember(steps, from + 1, to, o);
      var r :| from < r <= to && o in steps[r];
    }
  }

  lemma {:induction false} ConcatEnd(steps: seq<seq<nat>>)
    requires steps != [] && steps[|steps| - 1] != []
    ensures var v, end := Concat(steps), steps[|steps| - 1]; v != [] && v[|v| - 1] == end[|end| - 1]
  {
    if |steps| > 1 { ConcatEnd(steps[1..]); }
  }

  lemma SliceWalk(nexts: seq<nat>, steps: seq<seq<nat>>, last: nat, from: nat, to: nat)
    requires WalkOk(nexts, steps, last) && from <= to < |steps| && steps[to] != []
    ensures var v := Concat(steps[from..to + 1]);
      StepOk(nexts[from], v, nexts[to + 1], last) && v != [] && v[|v| - 1] == steps[to][|steps[to]| - 1]
  {
    var ns, ss := nexts[from..to + 2], steps[from..to + 1];
    assert WalkOk(ns, ss, last) by {
      forall i | 0 <= i < |ss| ensures StepOk(ns[i], ss[i], ns[i + 1], last) {
        assert StepOk(nexts[from + i], steps[from + i], nexts[from + i + 1], last);
      }
    }
    ConcatWalk(ns, ss, last);
    ConcatEnd(ss);
  }

  /** Two steps that end at the same offset: every offset was visited after the first of them. */
  lemma ReturnVisitsAll(nexts: seq<nat>, steps: seq<seq<nat>>, last: nat, s: nat, t: nat)
    requires WalkOk(nexts, steps, last) && last >= FIRST_OFFSET && s < t < |steps|
    requires steps[s] != [] && steps[t] != [] && steps[s][|steps[s]| - 1] == steps[t][|steps[t]| - 1]
    ensures forall o: nat :: FIRST_OFFSET <= o <= last ==> VisitedIn(steps, s, t, o)
  {
    var start := steps[s][|steps[s]| - 1];
    SliceWalk(nexts, steps, last, s + 1, t);
    var v := Concat(steps[s + 1..t + 1]);
    assert StepOk(nexts[s], steps[s], nexts[s + 1], last);
    CyclicAppend([start], v, last);
    CyclicReturn([start] + v, last);
    forall o: nat | FIRST_OFFSET <= o <= last ensures VisitedIn(steps, s, t, o) {
      assert o in [start] + v;
      assert v[|v| - 1] == start;
      ConcatMember(steps, s + 1, t, o);
    }
  }

  /** Reaching an offset behind the starting cursor takes a visit to everything ahead of it. */
  lemma BehindVisitsAhead(nexts: seq<nat>, steps: seq<seq<nat>>, last: nat, t: nat)
    requires WalkOk(nexts, steps, last) && last >= FIRST_OFFSET && t < |steps|
    requires steps[t] != [] && steps[t][|steps[t]| - 1] < nexts[0]
    ensures forall o: nat :: nexts[0] <= o <= last && FIRST_OFFSET <= o ==> VisitedIn(steps, -1, t, o)
  {
    SliceWalk(nexts, steps, last, 0, t);
    var v := Concat(steps[0..t + 1]);
    forall o: nat | nexts[0] <= o <= last && FIRST_OFFSET <= o ensures VisitedIn(steps, -1, t, o) {
      var k := o - nexts[0];
      if |v| <= k { CyclicStep(v, last, 0, |v| - 1); }
      CyclicStep(v, last, 0, k);
      assert v[k] == o;
      ConcatMember(steps, 0, t, o);
    }
  }
}
