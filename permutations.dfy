/**
 * Permutations: quickPerm, Fuchs's counting QuickPerm, as a state machine
 * over the arrangement a, the control array p and the cursor i. The state
 * is a value here; the program's in-place loop is Game.QuickPerm.
 */
module Permutations {
  import opened Counting

  /** The arrangement, the control array (its first n entries) and the cursor. */
  datatype PermState = PermState(a: seq<real>, p: seq<nat>, i: nat)

  /**
   * One arrangement visited after a swap: the arrangement, the two indices
   * swapped, and whether it is handed to testCombination.
   */
  datatype Visit = Visit(a: seq<real>, i: nat, j: nat, tested: bool)

  /** swap(i, j, arr) on a sequence. */
  function Swapped<T>(a: seq<T>, i: nat, j: nat): (b: seq<T>)
    requires i < |a| && j < |a|
    ensures |b| == |a| && b[i] == a[j] && b[j] == a[i]
    ensures forall k :: 0 <= k < |a| && k != i && k != j ==> b[k] == a[k]
  {
    a[i := a[j]][j := a[i]]
  }

  /** A swap rearranges the numbers and changes none of them. */
  lemma SwappedMultiset<T>(a: seq<T>, i: nat, j: nat)
    requires i < |a| && j < |a|
    ensures multiset(Swapped(a, i, j)) == multiset(a)
  {
  }

  /**
   * The start of quickPerm: p all zero, cursor 1. The loop invariant holds,
   * and one arrangement, the numbers as given, counts as visited.
   */
  function Start(a: seq<real>): (s: PermState)
    ensures s.a == a && s.i == 1
    ensures |a| >= 1 ==> Inv(s, |a|) && VisitedCount(s, |a|) == 1
  {
    var p := seq(|a|, k => 0);
    FactSumZero(p, |a|);
    PermState(a, p, 1)
  }

  /**
   * What holds between steps: p[k] <= k everywhere, p[k] == 0 below the
   * cursor (and at 0, which the loop never touches), cursor in 1 .. n.
   */
  ghost predicate Inv(s: PermState, n: nat)
  {
    n >= 1 && |s.a| == n && |s.p| == n && 1 <= s.i <= n &&
    (forall k :: 0 <= k < n ==> s.p[k] <= k) &&
    (forall k :: 0 <= k < s.i ==> s.p[k] == 0)
  }

  /** The control array read as a factorial-base number: sum of p[k] * k! for k < m. */
  function FactSum(p: seq<nat>, m: nat): nat
    requires m <= |p|
  {
    if m == 0 then 0 else FactSum(p, m - 1) + p[m - 1] * Fact(m - 1)
  }

  /**
   * The number of arrangements visited so far, the first one included:
   * the counter p plus the i! - 1 swaps that the cursor's climb to i stands for.
   */
  function VisitedCount(s: PermState, n: nat): nat
    requires |s.p| >= n
  {
    FactSum(s.p, n) + Fact(s.i)
  }

  /** The swap partner: p[i] when i is odd, 0 when i is even; never above p[i], so below i when p[i] < i. */
  function Partner(s: PermState): (j: nat)
    requires s.i < |s.p|
    ensures j <= s.p[s.i]
  {
    if s.i % 2 == 1 then s.p[s.i] else 0
  }

  /** One pass of the while loop. */
  function Step(s: PermState, n: nat): (t: PermState)
    requires Inv(s, n) && s.i < n
    ensures Inv(t, n)
    ensures s.p[s.i] < s.i ==> t.a == Swapped(s.a, s.i, Partner(s)) && t.i == 1
    ensures s.p[s.i] >= s.i ==> t.a == s.a && t.i == s.i + 1
    ensures VisitedCount(t, n) == VisitedCount(s, n) + (if s.p[s.i] < s.i then 1 else 0)
  {
    var i := s.i;
    if s.p[i] < i then
      SwapStep(s, n);
      PermState(Swapped(s.a, i, Partner(s)), s.p[i := s.p[i] + 1], 1)
    else
      ResetStep(s, n);
      PermState(s.a, s.p[i := 0], i + 1)
  }

  /** The swap branch: p[i] goes up by one and the cursor returns to 1, one more arrangement visited. */
  lemma SwapStep(s: PermState, n: nat)
    requires Inv(s, n) && s.i < n && s.p[s.i] < s.i
    ensures var t := PermState(Swapped(s.a, s.i, Partner(s)), s.p[s.i := s.p[s.i] + 1], 1);
      Inv(t, n) && VisitedCount(t, n) == VisitedCount(s, n) + 1
  {
    var i := s.i;
    FactSumUpdate(s.p, i, s.p[i] + 1, n);
    MulSucc(s.p[i], Fact(i));
  }

  /** The other branch: p[i] back to 0 and the cursor up by one; nothing visited. */
  lemma ResetStep(s: PermState, n: nat)
    requires Inv(s, n) && s.i < n && s.p[s.i] >= s.i
    ensures var t := PermState(s.a, s.p[s.i := 0], s.i + 1);
      Inv(t, n) && VisitedCount(t, n) == VisitedCount(s, n)
  {
    var i, f := s.i, Fact(s.i);
    var q := s.p[i := 0];
    FactSumUpdate(s.p, i, 0, n);
    assert FactSum(q, n) + i * f == FactSum(s.p, n) by {
      assert s.p[i] == i;
    }
    calc {
      Fact(i + 1);
      (i + 1) * f;
      { MulSucc(i, f); }
      i * f + f;
    }
  }

  /** Changing p[k] to x changes the factorial-base number by (x - p[k]) * k!. */
  lemma {:induction false} FactSumUpdate(p: seq<nat>, k: nat, x: nat, m: nat)
    requires k < m <= |p|
    ensures FactSum(p[k := x], m) + p[k] * Fact(k) == FactSum(p, m) + x * Fact(k)
  {
    if m - 1 != k {
      FactSumUpdate(p, k, x, m - 1);
    } else {
      FactSumPrefix(p, p[k := x], k);
    }
  }

  /** FactSum over the first m entries reads only those entries. */
  lemma {:induction false} FactSumPrefix(p: seq<nat>, q: seq<nat>, m: nat)
    requires m <= |p| && m <= |q| && p[..m] == q[..m]
    ensures FactSum(p, m) == FactSum(q, m)
  {
    if m > 0 {
      assert p[m - 1] == p[..m][m - 1] == q[..m][m - 1] == q[m - 1];
      assert p[..m - 1] == p[..m][..m - 1];
      assert q[..m - 1] == q[..m][..m - 1];
      FactSumPrefix(p, q, m - 1);
    }
  }

  /** Entries at most their index and zero below i bound FactSum by m! - i!. */
  lemma {:induction false} FactSumBound(p: seq<nat>, i: nat, m: nat)
    requires 1 <= i <= m <= |p|
    requires forall k :: 0 <= k < |p| ==> p[k] <= k
    requires forall k :: 0 <= k < i ==> p[k] == 0
    ensures FactSum(p, m) + Fact(i) <= Fact(m)
  {
    if m == i {
      FactSumZero(p, i);
    } else {
      FactSumBound(p, i, m - 1);
      var f := Fact(m - 1);
      MulMonotone(p[m - 1], m - 1, f);
      assert Fact(m) == m * f == (m - 1) * f + f;
    }
  }

  lemma {:induction false} FactSumZero(p: seq<nat>, m: nat)
    requires m <= |p| && forall k :: 0 <= k < m ==> p[k] == 0
    ensures FactSum(p, m) == 0
  {
    if m > 0 {
      FactSumZero(p, m - 1);
    }
  }

  /** QuickPerm never visits more than n! arrangements: this bounds the loop. */
  lemma VisitedBound(s: PermState, n: nat)
    requires Inv(s, n)
    ensures VisitedCount(s, n) <= Fact(n)
  {
    FactSumBound(s.p, s.i, n);
  }

  /**
   * The arrangements visited after state s, in order, with whether each is
   * tested: under DONT_LIST_DUPLICATES (dedup) a swap of two equal numbers
   * is not tested, though the state still advances.
   */
  function Visits(s: PermState, n: nat, dedup: bool): seq<Visit>
    requires Inv(s, n)
    decreases Fact(n) - VisitedCount(s, n), n - s.i
  {
    VisitedBound(s, n);
    if s.i >= n then []
    else
      var t := Step(s, n);
      VisitedBound(t, n);
      if s.p[s.i] < s.i then
        var j := Partner(s);
        [Visit(t.a, s.i, j, !dedup || t.a[s.i] != t.a[j])] + Visits(t, n, dedup)
      else Visits(t, n, dedup)
  }

  /** The state the loop ends in. */
  function Final(s: PermState, n: nat): (f: PermState)
    requires Inv(s, n)
    ensures Inv(f, n) && f.i == n
    decreases Fact(n) - VisitedCount(s, n), n - s.i
  {
    VisitedBound(s, n);
    if s.i >= n then s
    else
      var t := Step(s, n);
      VisitedBound(t, n);
      Final(t, n)
  }

  /** The arrangements handed to testCombination, in order. */
  function TestedOf(vs: seq<Visit>): seq<seq<real>>
  {
    if vs == [] then [] else (if vs[0].tested then [vs[0].a] else []) + TestedOf(vs[1..])
  }

  /** Everything quickPerm(a) tests: the starting arrangement first, then every tested visit. */
  function Arrangements(a: seq<real>, dedup: bool): (xs: seq<seq<real>>)
    requires |a| >= 1
    ensures |xs| >= 1 && xs[0] == a
  {
    [a] + TestedOf(Visits(Start(a), |a|, dedup))
  }

  // ---------------------------------------------------------------------
  // Properties

  /** From any state, the visits still to come are n! minus those already made. */
  lemma {:induction false} VisitsCount(s: PermState, n: nat, dedup: bool)
    requires Inv(s, n)
    ensures VisitedCount(s, n) + |Visits(s, n, dedup)| == Fact(n)
    decreases Fact(n) - VisitedCount(s, n), n - s.i
  {
    VisitedBound(s, n);
    if s.i >= n {
      assert s.i == n;
      FactSumZero(s.p, n);
    } else {
      var t := Step(s, n);
      VisitedBound(t, n);
      VisitsCount(t, n, dedup);
    }
  }

  /** quickPerm visits exactly n! arrangements: the first and one after each swap. */
  lemma QuickPermVisitsFactorial(a: seq<real>, dedup: bool)
    requires |a| >= 1
    ensures 1 + |Visits(Start(a), |a|, dedup)| == Fact(|a|)
  {
    var n := |a|;
    FactSumZero(Start(a).p, n);
    VisitsCount(Start(a), n, dedup);
  }

  /** What every visit satisfies, relative to the numbers a0 quickPerm started with. */
  ghost predicate VisitOk(w: Visit, n: nat, dedup: bool, a0: seq<real>)
  {
    w.j < w.i < n && |w.a| == n &&
    (w.i % 2 == 0 ==> w.j == 0) &&
    (w.tested <==> !dedup || w.a[w.i] != w.a[w.j]) &&
    multiset(w.a) == multiset(a0)
  }

  /** One step of the visit list: the visit the step makes, if it swaps, then the rest. */
  lemma VisitsUnfold(s: PermState, n: nat, dedup: bool)
    requires Inv(s, n) && s.i < n
    ensures var t := Step(s, n);
      Visits(s, n, dedup) ==
        (if s.p[s.i] < s.i then [Visit(t.a, s.i, Partner(s), !dedup || t.a[s.i] != t.a[Partner(s)])] else [])
        + Visits(t, n, dedup)
  {
  }

  /**
   * One pass of quickPerm's loop, in terms of what is tested: the swapped
   * arrangement when this pass swaps and the duplicate rule does not skip it,
   * then whatever is tested from the next state on; the loop ends in the same state.
   */
  lemma TestedStep(s: PermState, n: nat, dedup: bool)
    requires Inv(s, n) && s.i < n
    ensures var b := Swapped(s.a, s.i, Partner(s));
      TestedOf(Visits(s, n, dedup)) ==
        (if s.p[s.i] < s.i && (!dedup || b[s.i] != b[Partner(s)]) then [b] else [])
        + TestedOf(Visits(Step(s, n), n, dedup))
    ensures Final(Step(s, n), n) == Final(s, n)
  {
    var t := Step(s, n);
    VisitsUnfold(s, n, dedup);
    var vs := Visits(s, n, dedup);
    if s.p[s.i] < s.i {
      assert vs[1..] == Visits(t, n, dedup);
    } else {
      assert vs == Visits(t, n, dedup);
    }
  }

  /** The visit a swap makes. */
  lemma SwapVisitOk(s: PermState, n: nat, dedup: bool)
    requires Inv(s, n) && s.i < n && s.p[s.i] < s.i
    ensures var b := Swapped(s.a, s.i, Partner(s));
      VisitOk(Visit(b, s.i, Partner(s), !dedup || b[s.i] != b[Partner(s)]), n, dedup, s.a)
  {
    SwappedMultiset(s.a, s.i, Partner(s));
  }

  /**
   * Each visit swaps i with j, 0 <= j < i < n, with j = 0 for even i;
   * it is skipped only under the duplicate rule and only when the two swapped
   * numbers are equal; and it holds the same numbers as the state it came from.
   */
  lemma {:induction false} VisitsFacts(s: PermState, n: nat, dedup: bool, k: nat)
    requires Inv(s, n) && k < |Visits(s, n, dedup)|
    ensures VisitOk(Visits(s, n, dedup)[k], n, dedup, s.a)
    decreases Fact(n) - VisitedCount(s, n), n - s.i
  {
    VisitedBound(s, n);
    assert s.i < n;
    var t := Step(s, n);
    VisitedBound(t, n);
    if s.p[s.i] < s.i && k == 0 {
      VisitsUnfold(s, n, dedup);
      SwapVisitOk(s, n, dedup);
    } else {
      VisitsLater(s, n, dedup, k);
      VisitsFacts(t, n, dedup, if s.p[s.i] < s.i then k - 1 else k);
    }
  }

  /** Past the visit a pass makes, if any, the visits are those from the next state on, over the same numbers. */
  lemma VisitsLater(s: PermState, n: nat, dedup: bool, k: nat)
    requires Inv(s, n) && s.i < n && k < |Visits(s, n, dedup)|
    requires s.p[s.i] < s.i ==> k > 0
    ensures var k' := if s.p[s.i] < s.i then k - 1 else k;
      k' < |Visits(Step(s, n), n, dedup)| && Visits(s, n, dedup)[k] == Visits(Step(s, n), n, dedup)[k']
    ensures multiset(Step(s, n).a) == multiset(s.a)
  {
    VisitsUnfold(s, n, dedup);
    if s.p[s.i] < s.i {
      SwappedMultiset(s.a, s.i, Partner(s));
    }
  }

  /**
   * The duplicate rule only skips repeats: a visit left untested holds the
   * arrangement visited just before it (s.a for the first), since the two
   * numbers it swapped were equal and the swap changed nothing.
   */
  lemma {:induction false} SkippedVisitRepeats(s: PermState, n: nat, dedup: bool, k: nat)
    requires Inv(s, n) && k < |Visits(s, n, dedup)|
    ensures var vs := Visits(s, n, dedup);
      !vs[k].tested ==> vs[k].a == (if k == 0 then s.a else vs[k - 1].a)
    decreases Fact(n) - VisitedCount(s, n), n - s.i
  {
    VisitedBound(s, n);
    assert s.i < n;
    var t := Step(s, n);
    VisitedBound(t, n);
    var vs := Visits(s, n, dedup);
    if s.p[s.i] < s.i && k == 0 {
      VisitsUnfold(s, n, dedup);
      SwapOfEqual(s.a, s.i, Partner(s));
    } else {
      VisitsLater(s, n, dedup, k);
      var k' := if s.p[s.i] < s.i then k - 1 else k;
      SkippedVisitRepeats(t, n, dedup, k');
      if k' > 0 {
        VisitsLater(s, n, dedup, k - 1);
      } else if s.p[s.i] < s.i {
        VisitsUnfold(s, n, dedup);
      }
    }
  }

  /** Swapping two positions holding equal numbers leaves the arrangement as it was, and only then. */
  lemma SwapOfEqual<T>(a: seq<T>, i: nat, j: nat)
    requires i < |a| && j < |a|
    ensures Swapped(a, i, j)[i] == Swapped(a, i, j)[j] <==> Swapped(a, i, j) == a
  {
    if Swapped(a, i, j)[i] == Swapped(a, i, j)[j] {
      assert forall m :: 0 <= m < |a| ==> Swapped(a, i, j)[m] == a[m];
    }
  }

  /** Without the duplicate rule every visit is tested. */
  lemma {:induction false} TestedAll(vs: seq<Visit>)
    requires forall k :: 0 <= k < |vs| ==> vs[k].tested
    ensures |TestedOf(vs)| == |vs|
  {
    if vs != [] {
      TestedAll(vs[1..]);
    }
  }

  lemma {:induction false} TestedAtMost(vs: seq<Visit>)
    ensures |TestedOf(vs)| <= |vs|
  {
    if vs != [] {
      TestedAtMost(vs[1..]);
    }
  }

  /**
   * quickPerm hands n! arrangements to testCombination without the duplicate
   * rule and at most n! with it.
   */
  lemma ArrangementsCount(a: seq<real>, dedup: bool)
    requires |a| >= 1
    ensures !dedup ==> |Arrangements(a, dedup)| == Fact(|a|)
    ensures |Arrangements(a, dedup)| <= Fact(|a|)
  {
    var vs := Visits(Start(a), |a|, dedup);
    QuickPermVisitsFactorial(a, dedup);
    TestedAtMost(vs);
    if !dedup {
      forall k | 0 <= k < |vs|
        ensures vs[k].tested
      {
        VisitsFacts(Start(a), |a|, dedup, k);
      }
      TestedAll(vs);
    }
  }

  /** Every arrangement handed to testCombination comes from a visit marked as tested. */
  lemma {:induction false} TestedOfMembers(vs: seq<Visit>, x: seq<real>)
    requires x in TestedOf(vs)
    ensures exists k :: 0 <= k < |vs| && vs[k].a == x && vs[k].tested
  {
    if vs[0].tested && x == vs[0].a {
    } else {
      TestedOfMembers(vs[1..], x);
      var k :| 0 <= k < |vs[1..]| && vs[1..][k].a == x && vs[1..][k].tested;
      assert vs[k + 1].a == x;
    }
  }

  /** Every arrangement quickPerm tests is a rearrangement of the numbers it started with. */
  lemma ArrangementsArePermutations(a: seq<real>, dedup: bool, x: seq<real>)
    requires |a| >= 1 && x in Arrangements(a, dedup)
    ensures |x| == |a| && multiset(x) == multiset(a)
  {
    if x != a {
      var vs := Visits(Start(a), |a|, dedup);
      TestedOfMembers(vs, x);
      var k :| 0 <= k < |vs| && vs[k].a == x && vs[k].tested;
      VisitsFacts(Start(a), |a|, dedup, k);
    }
  }

  /** The loop ends with the cursor at n, p back to all zeros, and the same numbers in a. */
  lemma {:induction false} FinalFacts(s: PermState, n: nat)
    requires Inv(s, n)
    ensures Final(s, n).i == n
    ensures forall k :: 0 <= k < n ==> Final(s, n).p[k] == 0
    ensures multiset(Final(s, n).a) == multiset(s.a)
    decreases Fact(n) - VisitedCount(s, n), n - s.i
  {
    VisitedBound(s, n);
    if s.i < n {
      var t := Step(s, n);
      VisitedBound(t, n);
      if s.p[s.i] < s.i {
        SwappedMultiset(s.a, s.i, Partner(s));
      }
      FinalFacts(t, n);
    }
  }
}
