/**
 * Search: what testCombination and the opVector loop of main do with the
 * root-level candidates, as a fold over the stream of candidates the
 * search produces. The counters are numPossibilities and numSolutions; the
 * flag stopped stands for the exit(EXIT_SUCCESS) of modes 0 and 2; the
 * printed texts are the solutions printf writes.
 */
module Search {
  import opened Counting
  import opened Operators
  import opened Expressions
  import opened Brackets
  import opened Permutations

  /** One root-level candidate: solutions.list[i] and solutions.visual[i]. */
  datatype Candidate = Candidate(value: Value, text: string)

  /** The search's running state. */
  datatype Counters = Counters(possibilities: nat, solutions: nat, stopped: bool, printed: seq<string>)

  /** The counters before the search. */
  function Initial(): Counters
  {
    Counters(0, 0, false, [])
  }

  /**
   * One pass of testCombination's loop: a candidate equal to the target is
   * printed and counted as a solution, and in the stop-at-first modes ends
   * the search before it is counted as a possibility; every other candidate
   * examined is counted as a possibility. Once stopped nothing changes.
   */
  function Examine(c: Counters, x: Candidate, target: int, stopAtFirst: bool): Counters
  {
    if c.stopped then c
    else if x.value == Num(target as real) then
      if stopAtFirst then Counters(c.possibilities, c.solutions + 1, true, c.printed + [x.text])
      else Counters(c.possibilities + 1, c.solutions + 1, false, c.printed + [x.text])
    else Counters(c.possibilities + 1, c.solutions, false, c.printed)
  }

  /** Examining candidates in order. */
  function Scan(c: Counters, xs: seq<Candidate>, target: int, stopAtFirst: bool): Counters
  {
    if xs == [] then c else Examine(Scan(c, xs[..|xs| - 1], target, stopAtFirst), xs[|xs| - 1], target, stopAtFirst)
  }

  /** The candidates of trees under operator vector v: each tree's value and text, in order. */
  function Stored(ts: seq<Expr>, v: nat): (xs: seq<Candidate>)
    ensures |xs| == |ts|
  {
    if ts == [] then [] else Stored(ts[..|ts| - 1], v) + [Candidate(Eval(ts[|ts| - 1], v), Render(ts[|ts| - 1], v))]
  }

  /** Entry k of the stored candidates is tree k's value and text. */
  lemma {:induction false} StoredAt(ts: seq<Expr>, v: nat, k: nat)
    requires k < |ts|
    ensures Stored(ts, v)[k] == Candidate(Eval(ts[k], v), Render(ts[k], v))
  {
    if k < |ts| - 1 {
      StoredAt(ts[..|ts| - 1], v, k);
    }
  }

  /** What testCombination examines for one arrangement: bracketTree over it at base 0. */
  function RootCandidates(a: seq<real>, v: nat, dedup: bool): seq<Candidate>
    requires |a| >= 1
  {
    Stored(Candidates(a, 0, v, dedup), v)
  }

  /** testCombination on each arrangement in turn. */
  function ArrangementCandidates(arrs: seq<seq<real>>, v: nat, dedup: bool): seq<Candidate>
    requires forall k :: 0 <= k < |arrs| ==> |arrs[k]| >= 1
  {
    if arrs == [] then []
    else RootCandidates(arrs[0], v, dedup) + ArrangementCandidates(arrs[1..], v, dedup)
  }

  /**
   * The counters after testCombination on each arrangement in turn, from c
   * on (an empty arrangement, which quickPerm never produces, examines nothing).
   */
  function ScanArrangements(c: Counters, arrs: seq<seq<real>>, v: nat, dedup: bool, target: int, stopAtFirst: bool): Counters
    decreases |arrs|
  {
    if arrs == [] then c
    else
      var c' := if |arrs[0]| >= 1 then Scan(c, RootCandidates(arrs[0], v, dedup), target, stopAtFirst) else c;
      ScanArrangements(c', arrs[1..], v, dedup, target, stopAtFirst)
  }

  /** What quickPerm examines with operator vector v: every arrangement it tests, in order. */
  function QuickPermCandidates(a: seq<real>, v: nat, dedup: bool): seq<Candidate>
    requires |a| >= 1
  {
    ArrangementsArePermutationsAll(a, dedup);
    ArrangementCandidates(Arrangements(a, dedup), v, dedup)
  }

  /** The arrangement quickPerm leaves the numbers in. */
  function AfterQuickPerm(a: seq<real>): (b: seq<real>)
    requires |a| >= 1
    ensures |b| == |a|
  {
    Final(Start(a), |a|).a
  }

  /** The arrangement quickPerm leaves the numbers in is a rearrangement of them. */
  lemma AfterQuickPermIsPermutation(a: seq<real>)
    requires |a| >= 1
    ensures multiset(AfterQuickPerm(a)) == multiset(a)
  {
    FinalFacts(Start(a), |a|);
  }

  /**
   * Everything the opVector loop examines from vector v on: quickPerm with
   * vector v, then, from the arrangement it leaves, the vectors after it.
   */
  function Stream(a: seq<real>, v: nat, ops: nat, dedup: bool): seq<Candidate>
    requires |a| >= 1
    decreases ops - v
  {
    if v >= ops then []
    else QuickPermCandidates(a, v, dedup) + Stream(AfterQuickPerm(a), v + 1, ops, dedup)
  }

  /** Every arrangement quickPerm tests has all the numbers. */
  lemma ArrangementsArePermutationsAll(a: seq<real>, dedup: bool)
    requires |a| >= 1
    ensures forall k :: 0 <= k < |Arrangements(a, dedup)| ==> |Arrangements(a, dedup)[k]| == |a|
  {
    var arrs := Arrangements(a, dedup);
    forall k | 0 <= k < |arrs|
      ensures |arrs[k]| == |a|
    {
      ArrangementsArePermutations(a, dedup, arrs[k]);
    }
  }

  // ---------------------------------------------------------------------
  // The counter discipline

  /**
   * What one examination does: nothing once stopped; otherwise the candidate
   * is a solution exactly when its value is the target, a solution adds one
   * solution and prints its text, every candidate adds one possibility
   * except the one that stops the search, and only a solution in the
   * stop-at-first modes stops it.
   */
  lemma ExamineCounts(c: Counters, x: Candidate, target: int, stopAtFirst: bool)
    ensures var d := Examine(c, x, target, stopAtFirst);
      (c.stopped ==> d == c) &&
      (!c.stopped ==>
        var hit := x.value == Num(target as real);
        d.solutions == c.solutions + (if hit then 1 else 0) &&
        d.printed == c.printed + (if hit then [x.text] else []) &&
        (d.stopped <==> hit && stopAtFirst) &&
        d.possibilities == c.possibilities + (if d.stopped then 0 else 1))
  {
  }

  /** Once the search has stopped, nothing it examines changes anything. */
  lemma {:induction false} ScanStopped(c: Counters, xs: seq<Candidate>, target: int, stopAtFirst: bool)
    requires c.stopped
    ensures Scan(c, xs, target, stopAtFirst) == c
  {
    if xs != [] {
      ScanStopped(c, xs[..|xs| - 1], target, stopAtFirst);
    }
  }

  /** Examining one more candidate of xs. */
  lemma ScanNext(c: Counters, xs: seq<Candidate>, i: nat, target: int, stopAtFirst: bool)
    requires i < |xs|
    ensures Scan(c, xs[..i + 1], target, stopAtFirst) == Examine(Scan(c, xs[..i], target, stopAtFirst), xs[i], target, stopAtFirst)
  {
    assert xs[..i + 1][..i] == xs[..i];
  }

  /** Once examining a prefix of xs has stopped the search, the rest of xs changes nothing. */
  lemma ScanStopsEarly(c: Counters, xs: seq<Candidate>, i: nat, target: int, stopAtFirst: bool)
    requires i <= |xs| && Scan(c, xs[..i], target, stopAtFirst).stopped
    ensures Scan(c, xs, target, stopAtFirst) == Scan(c, xs[..i], target, stopAtFirst)
  {
    ScanAppend(c, xs[..i], xs[i..], target, stopAtFirst);
    ScanStopped(Scan(c, xs[..i], target, stopAtFirst), xs[i..], target, stopAtFirst);
    assert xs[..i] + xs[i..] == xs;
  }

  /** Examining xs then ys is examining xs + ys. */
  lemma {:induction false} ScanAppend(c: Counters, xs: seq<Candidate>, ys: seq<Candidate>, target: int, stopAtFirst: bool)
    ensures Scan(c, xs + ys, target, stopAtFirst) == Scan(Scan(c, xs, target, stopAtFirst), ys, target, stopAtFirst)
    decreases |ys|
  {
    if ys == [] {
      assert xs + ys == xs;
    } else {
      assert (xs + ys)[..|xs + ys| - 1] == xs + ys[..|ys| - 1];
      ScanAppend(c, xs, ys[..|ys| - 1], target, stopAtFirst);
    }
  }

  /** Testing the arrangements one by one examines their candidates one by one. */
  lemma {:induction false} ScanArrangementsIsScan(c: Counters, arrs: seq<seq<real>>, v: nat, dedup: bool, target: int, stopAtFirst: bool)
    requires forall k :: 0 <= k < |arrs| ==> |arrs[k]| >= 1
    ensures ScanArrangements(c, arrs, v, dedup, target, stopAtFirst) == Scan(c, ArrangementCandidates(arrs, v, dedup), target, stopAtFirst)
    decreases |arrs|
  {
    if arrs != [] {
      var xs := RootCandidates(arrs[0], v, dedup);
      ScanAppend(c, xs, ArrangementCandidates(arrs[1..], v, dedup), target, stopAtFirst);
      ScanArrangementsIsScan(Scan(c, xs, target, stopAtFirst), arrs[1..], v, dedup, target, stopAtFirst);
    }
  }

  /** Testing one arrangement, then the rest. */
  lemma ScanArrangementsCons(c: Counters, a: seq<real>, rest: seq<seq<real>>, v: nat, dedup: bool, target: int, stopAtFirst: bool)
    requires |a| >= 1
    ensures ScanArrangements(c, [a] + rest, v, dedup, target, stopAtFirst) ==
      ScanArrangements(Scan(c, RootCandidates(a, v, dedup), target, stopAtFirst), rest, v, dedup, target, stopAtFirst)
  {
    assert ([a] + rest)[1..] == rest;
  }

  /**
   * The counters after main's opVector loop from vector v below ops:
   * quickPerm with each vector in turn, each starting from the arrangement
   * the one before left, until the search stops.
   */
  function SearchFrom(c: Counters, a: seq<real>, v: nat, ops: nat, dedup: bool, target: int, stopAtFirst: bool): Counters
    requires |a| >= 1
    decreases ops - v
  {
    if v >= ops || c.stopped then c
    else SearchFrom(ScanArrangements(c, Arrangements(a, dedup), v, dedup, target, stopAtFirst), AfterQuickPerm(a),
      v + 1, ops, dedup, target, stopAtFirst)
  }

  /**
   * One turn of the opVector loop: from counters c and numbers a, quickPerm
   * with vector v leaves counters c' and, unless it stopped the search, the
   * numbers in the arrangement AfterQuickPerm(a); what remains of the search
   * from there is what remained before the turn.
   */
  lemma SearchFromAdvance(c: Counters, a: seq<real>, v: nat, ops: nat, c': Counters, a': seq<real>,
                          dedup: bool, target: int, stopAtFirst: bool)
    requires |a| >= 1 && |a'| >= 1 && v < ops && !c.stopped
    requires c' == ScanArrangements(c, Arrangements(a, dedup), v, dedup, target, stopAtFirst)
    requires !c'.stopped ==> a' == AfterQuickPerm(a)
    ensures SearchFrom(c', a', v + 1, ops, dedup, target, stopAtFirst) == SearchFrom(c, a, v, ops, dedup, target, stopAtFirst)
  {
  }

  /** The opVector loop examines the candidate stream Stream, one candidate after another. */
  lemma {:induction false} SearchFromIsScan(c: Counters, a: seq<real>, v: nat, ops: nat, dedup: bool, target: int, stopAtFirst: bool)
    requires |a| >= 1
    ensures SearchFrom(c, a, v, ops, dedup, target, stopAtFirst) == Scan(c, Stream(a, v, ops, dedup), target, stopAtFirst)
    decreases ops - v
  {
    if c.stopped {
      ScanStopped(c, Stream(a, v, ops, dedup), target, stopAtFirst);
    } else if v < ops {
      var b := AfterQuickPerm(a);
      var c' := ScanArrangements(c, Arrangements(a, dedup), v, dedup, target, stopAtFirst);
      ArrangementsArePermutationsAll(a, dedup);
      ScanArrangementsIsScan(c, Arrangements(a, dedup), v, dedup, target, stopAtFirst);
      ScanAppend(c, QuickPermCandidates(a, v, dedup), Stream(b, v + 1, ops, dedup), target, stopAtFirst);
      SearchFromIsScan(c', b, v + 1, ops, dedup, target, stopAtFirst);
    }
  }

  /** Once the search has stopped, no arrangement tested changes anything. */
  lemma {:induction false} ScanArrangementsStopped(c: Counters, arrs: seq<seq<real>>, v: nat, dedup: bool, target: int, stopAtFirst: bool)
    requires c.stopped
    ensures ScanArrangements(c, arrs, v, dedup, target, stopAtFirst) == c
    decreases |arrs|
  {
    if arrs != [] {
      if |arrs[0]| >= 1 {
        ScanStopped(c, RootCandidates(arrs[0], v, dedup), target, stopAtFirst);
      }
      ScanArrangementsStopped(c, arrs[1..], v, dedup, target, stopAtFirst);
    }
  }

  /** The texts of the candidates equal to the target, in order. */
  function Matches(xs: seq<Candidate>, target: int): seq<string>
  {
    if xs == [] then []
    else Matches(xs[..|xs| - 1], target) + (if xs[|xs| - 1].value == Num(target as real) then [xs[|xs| - 1].text] else [])
  }

  /**
   * Finding all solutions (modes 1 and 3): every candidate is one more
   * possibility, every candidate equal to the target one more solution, and
   * its text is printed; the search never stops early.
   */
  lemma {:induction false} ScanExhaustive(c: Counters, xs: seq<Candidate>, target: int)
    requires !c.stopped
    ensures Scan(c, xs, target, false) ==
      Counters(c.possibilities + |xs|, c.solutions + |Matches(xs, target)|, false, c.printed + Matches(xs, target))
  {
    if xs != [] {
      ScanExhaustive(c, xs[..|xs| - 1], target);
    }
  }

  /**
   * Stopping after the first solution (modes 0 and 2): without a match the
   * search examines everything; with a first match at index m it stops there
   * with m possibilities counted, one solution and that one text printed.
   */
  lemma {:induction false} ScanFirstMatch(c: Counters, xs: seq<Candidate>, target: int, m: nat)
    requires !c.stopped
    requires m < |xs| && xs[m].value == Num(target as real)
    requires forall k :: 0 <= k < m ==> xs[k].value != Num(target as real)
    ensures Scan(c, xs, target, true) == Counters(c.possibilities + m, c.solutions + 1, true, c.printed + [xs[m].text])
  {
    if |xs| - 1 > m {
      ScanFirstMatch(c, xs[..|xs| - 1], target, m);
    } else {
      ScanNoMatch(c, xs[..m], target);
    }
  }

  lemma {:induction false} ScanNoMatch(c: Counters, xs: seq<Candidate>, target: int)
    requires !c.stopped
    requires forall k :: 0 <= k < |xs| ==> xs[k].value != Num(target as real)
    ensures Scan(c, xs, target, true) == Counters(c.possibilities + |xs|, c.solutions, false, c.printed)
  {
    if xs != [] {
      ScanNoMatch(c, xs[..|xs| - 1], target);
    }
  }

  // ---------------------------------------------------------------------
  // How many possibilities there are

  /** Each arrangement of n numbers yields C(n - 1) root candidates without the duplicate rule, at most that with it. */
  lemma {:induction false} ArrangementCandidatesCount(arrs: seq<seq<real>>, v: nat, dedup: bool, n: nat)
    requires n >= 1 && forall k :: 0 <= k < |arrs| ==> |arrs[k]| == n
    ensures !dedup ==> |ArrangementCandidates(arrs, v, dedup)| == |arrs| * Catalan(n - 1)
    ensures |ArrangementCandidates(arrs, v, dedup)| <= |arrs| * Catalan(n - 1)
  {
    if arrs != [] {
      ArrangementCandidatesCount(arrs[1..], v, dedup, n);
      CandidatesCount(arrs[0], 0, v);
      DedupCountBound(arrs[0], 0, v);
      MulSucc(|arrs| - 1, Catalan(n - 1));
    }
  }

  /** One operator vector: n! arrangements of C(n - 1) candidates each, or at most that with the duplicate rule. */
  lemma QuickPermCount(a: seq<real>, v: nat, dedup: bool)
    requires |a| >= 1
    ensures !dedup ==> |QuickPermCandidates(a, v, dedup)| == PerVector(|a|)
    ensures |QuickPermCandidates(a, v, dedup)| <= PerVector(|a|)
  {
    var arrs := Arrangements(a, dedup);
    ArrangementsArePermutationsAll(a, dedup);
    ArrangementsCount(a, dedup);
    ArrangementCandidatesCount(arrs, v, dedup, |a|);
    MulMonotone(|arrs|, Fact(|a|), Catalan(|a| - 1));
  }

  /** How many candidates one operator vector yields over n numbers without the duplicate rule. */
  function PerVector(n: nat): nat
    requires n >= 1
  {
    Fact(n) * Catalan(n - 1)
  }

  /**
   * The opVector loop from v below ops examines (ops - v) * n! * C(n - 1)
   * candidates without the duplicate rule, at most that with it.
   */
  lemma StreamCount(a: seq<real>, v: nat, ops: nat, dedup: bool)
    requires |a| >= 1 && v <= ops
    ensures !dedup ==> |Stream(a, v, ops, dedup)| == (ops - v) * PerVector(|a|)
    ensures |Stream(a, v, ops, dedup)| <= (ops - v) * PerVector(|a|)
  {
    StreamCountSum(a, v, ops, dedup);
    SumIsProduct(PerVector(|a|), ops - v);
  }

  /** PerVector(n) added up once per operator vector. */
  lemma {:induction false} StreamCountSum(a: seq<real>, v: nat, ops: nat, dedup: bool)
    requires |a| >= 1 && v <= ops
    ensures !dedup ==> |Stream(a, v, ops, dedup)| == Sum(PerVector(|a|), ops - v)
    ensures |Stream(a, v, ops, dedup)| <= Sum(PerVector(|a|), ops - v)
    decreases ops - v
  {
    if v < ops {
      var b := AfterQuickPerm(a);
      var xs, ys := QuickPermCandidates(a, v, dedup), Stream(b, v + 1, ops, dedup);
      var per := PerVector(|a|);
      assert Stream(a, v, ops, dedup) == xs + ys;
      assert (!dedup ==> |xs| == per) && |xs| <= per by {
        QuickPermCount(a, v, dedup);
      }
      assert (!dedup ==> |ys| == Sum(per, ops - v - 1)) && |ys| <= Sum(per, ops - v - 1) by {
        StreamCountSum(b, v + 1, ops, dedup);
        assert PerVector(|b|) == per;
      }
    } else {
      assert Stream(a, v, ops, dedup) == [];
    }
  }

  /** x added up m times. */
  function Sum(x: nat, m: nat): nat
  {
    if m == 0 then 0 else Sum(x, m - 1) + x
  }

  lemma {:induction false} SumIsProduct(x: nat, m: nat)
    ensures Sum(x, m) == m * x
  {
    if m > 0 {
      SumIsProduct(x, m - 1);
      MulSucc(m - 1, x);
    }
  }

  /**
   * Without DONT_LIST_DUPLICATES, an exhaustive search over N numbers tries
   * exactly C(N - 1) * 4^(N - 1) * N! possibilities.
   */
  lemma TotalPossibilities(a: seq<real>, target: int)
    requires |a| >= 1
    ensures Scan(Initial(), Stream(a, 0, IPow(4, |a| - 1), false), target, false).possibilities
      == Catalan(|a| - 1) * IPow(4, |a| - 1) * Fact(|a|)
  {
    var ops := IPow(4, |a| - 1);
    var xs := Stream(a, 0, ops, false);
    StreamCount(a, 0, ops, false);
    ScanExhaustive(Initial(), xs, target);
    assert Scan(Initial(), xs, target, false).possibilities == ops * PerVector(|a|);
    Rearrange(ops, Fact(|a|), Catalan(|a| - 1));
  }

  /** With DONT_LIST_DUPLICATES, at most that many. */
  lemma TotalPossibilitiesDedup(a: seq<real>, target: int, stopAtFirst: bool)
    requires |a| >= 1
    ensures Scan(Initial(), Stream(a, 0, IPow(4, |a| - 1), true), target, stopAtFirst).possibilities
      <= Catalan(|a| - 1) * IPow(4, |a| - 1) * Fact(|a|)
  {
    var ops := IPow(4, |a| - 1);
    var xs := Stream(a, 0, ops, true);
    StreamCount(a, 0, ops, true);
    ScanPossibilitiesBound(Initial(), xs, target, stopAtFirst);
    var total, per := Scan(Initial(), xs, target, stopAtFirst).possibilities, PerVector(|a|);
    assert total <= |xs| <= ops * per;
    Rearrange(ops, Fact(|a|), Catalan(|a| - 1));
  }

  lemma Rearrange(x: nat, y: nat, z: nat)
    ensures x * (y * z) == z * x * y
  {
  }

  /**
   * Every candidate examined adds at most one possibility; the counters
   * never go down, and the texts printed before stay printed, followed by
   * one text per solution found.
   */
  lemma {:induction false} ScanPossibilitiesBound(c: Counters, xs: seq<Candidate>, target: int, stopAtFirst: bool)
    ensures c.possibilities <= Scan(c, xs, target, stopAtFirst).possibilities <= c.possibilities + |xs|
    ensures c.printed <= Scan(c, xs, target, stopAtFirst).printed
    ensures Scan(c, xs, target, stopAtFirst).solutions == c.solutions + |Scan(c, xs, target, stopAtFirst).printed| - |c.printed|
    ensures |Scan(c, xs, target, stopAtFirst).printed| >= |c.printed|
  {
    if xs != [] {
      ScanPossibilitiesBound(c, xs[..|xs| - 1], target, stopAtFirst);
    }
  }
}
