/** Small value types and sequence facts shared by the other modules. */
module Common {

  datatype Option<+T> = None | Some(value: T)

  function Max(a: int, b: int): int { if a < b then b else a }

  function Min(a: int, b: int): int { if a < b then a else b }

  function Pow2(n: nat): (r: nat)
    ensures r >= 1
  {
    if n == 0 then 1 else 2 * Pow2(n - 1)
  }

  lemma {:induction false} Pow2Grows(a: nat, b: nat)
    requires a <= b
    ensures Pow2(a) <= Pow2(b) && (a < b ==> 2 * Pow2(a) <= Pow2(b))
    decreases b
  {
    if a == b {
    } else {
      Pow2Grows(a, b - 1);
    }
  }

  lemma {:induction false} Pow2Sum(a: nat, b: nat)
    ensures Pow2(a + b) == Pow2(a) * Pow2(b)
  {
    if a == 0 {
    } else {
      Pow2Sum(a - 1, b);
      assert Pow2(a + b) == 2 * Pow2(a + b - 1);
      assert 2 * (Pow2(a - 1) * Pow2(b)) == (2 * Pow2(a - 1)) * Pow2(b);
    }
  }

  ghost predicate Distinct<T(!new)>(s: seq<T>) {
    forall i, j :: 0 <= i < j < |s| ==> s[i] != s[j]
  }

  /** A sequence of pairwise different elements has as many of them as its length. */
  lemma {:induction false} DistinctSize<T(!new)>(s: seq<T>)
    requires Distinct(s)
    ensures |set x | x in s| == |s|
  {
    if s == [] {
      assert (set x | x in s) == {};
    } else {
      var init, last := s[..|s| - 1], s[|s| - 1];
      DistinctSize(init);
      assert (set x | x in s) == (set x | x in init) + {last} by {
        assert s == init + [last];
      }
    }
  }

  lemma SubsetSize<T>(a: set<T>, b: set<T>)
    requires a <= b
    ensures |a| <= |b|
  {
    assert b == a + (b - a);
  }

  /** The numbers below `n`. */
  function UpTo(n: nat): (r: set<nat>)
    ensures |r| == n && forall j: nat :: j in r <==> j < n
  {
    if n == 0 then {} else UpTo(n - 1) + {n - 1}
  }

  /** `n` different numbers below `n` are all of them. */
  lemma NoneMissing(s: seq<nat>, n: nat, j: nat)
    requires Distinct(s) && |s| == n && j < n && forall i :: 0 <= i < |s| ==> s[i] < n
    ensures j in s
  {
    DistinctSize(s);
    var elements := set x | x in s;
    if j !in s {
      SubsetSize(elements, UpTo(n) - {j});
    }
  }

  lemma InsertedMembers<T(!new)>(s: seq<T>, i: nat, x: T)
    requires i <= |s|
    ensures forall y :: y in s[..i] + [x] + s[i..] <==> y in s || y == x
  {
    assert s == s[..i] + s[i..];
    assert (s[..i] + [x] + s[i..])[i] == x;
  }
}
