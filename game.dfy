/**
 * Game: the program's globals and its step-by-step procedures. The fields of
 * class Game are the globals opVector, numSolutions, numPossibilities,
 * programMode, totalNumber and numbersToAdd, plus the lines printed for
 * solutions and a flag for the exit that ends a stop-at-first search.
 * Each procedure is proved against the pure definitions of the other
 * modules.
 */
module Game {
  import opened Counting
  import opened Operators
  import opened Decimal
  import opened Expressions
  import opened Brackets
  import opened Permutations
  import opened Search

  /** DONT_LIST_DUPLICATES is defined. */
  const DontListDuplicates: bool := true

  /** How many numbers a game uses: main asks again until the count is 1 to 18. */
  type NumberCount = n: nat | 1 <= n <= MaxNumbers witness 1

  /**
   * The first |ts| entries of a values array and a texts array are the
   * values and texts of the trees ts under the operator vector v, entry by
   * entry.
   */
  ghost predicate Holds(values: seq<Value>, texts: seq<string>, ts: seq<Expr>, v: nat)
  {
    |ts| <= |values| && |ts| <= |texts| &&
    forall n {:trigger values[n]} :: 0 <= n < |ts| ==> values[n] == Eval(ts[n], v) && texts[n] == Render(ts[n], v)
  }

  /** Writing the value and text of one more tree just after the done ones keeps them in step. */
  lemma HoldsSnoc(values: seq<Value>, texts: seq<string>, ts: seq<Expr>, v: nat, value: Value, text: string, t: Expr)
    requires Holds(values, texts, ts, v) && |ts| < |values| && |ts| < |texts|
    requires value == Eval(t, v) && text == Render(t, v)
    ensures Holds(values[|ts| := value], texts[|ts| := text], ts + [t], v)
  {
  }

  /** swap(i, j, arr). */
  method Swap(i: nat, j: nat, arr: array<real>)
    requires i < arr.Length && j < arr.Length
    modifies arr
    ensures arr[..] == Swapped(old(arr[..]), i, j)
    ensures multiset(arr[..]) == multiset(old(arr[..]))
  {
    SwappedMultiset(arr[..], i, j);
    var h := arr[i];
    arr[i] := arr[j];
    arr[j] := h;
  }

  class Game {
    var opVector: nat
    var numSolutions: nat
    var numPossibilities: nat
    /** exit(EXIT_SUCCESS) has been reached. */
    var stopped: bool
    /** The solution texts printed so far. */
    var printed: seq<string>
    const programMode: int
    const totalNumber: int
    const numbersToAdd: NumberCount

    /** The search counters. */
    function Counts(): Counters
      reads this`numPossibilities, this`numSolutions, this`stopped, this`printed
    {
      Counters(numPossibilities, numSolutions, stopped, printed)
    }

    /** Modes 0 and 2 stop after the first solution. */
    predicate StopAtFirst()
    {
      programMode % 2 == 0
    }

    /**
     * The configuration main reads before searching: the mode (0 to 3, asked
     * again until it is in range); in the custom modes 2 and 3 the target and
     * the count of numbers (1 to 18, asked again until it is in range);
     * otherwise the Game of 24 with four numbers.
     */
    constructor (mode: int, customTarget: int, customCount: nat)
      requires 0 <= mode <= 3
      requires mode > 1 ==> 1 <= customCount <= MaxNumbers
      ensures programMode == mode
      ensures totalNumber == (if mode > 1 then customTarget else 24)
      ensures numbersToAdd == (if mode > 1 then customCount else 4)
      ensures opVector == 0 && Counts() == Initial()
    {
      programMode := mode;
      totalNumber := if mode > 1 then customTarget else 24;
      numbersToAdd := if mode > 1 then customCount else 4;
      opVector := 0;
      numSolutions := 0;
      numPossibilities := 0;
      stopped := false;
      printed := [];
    }

    /**
     * bracketTree over the numbers numlist (read only; the program passes a
     * pointer into the caller's array and a length) with its first operator
     * at position opNumber: fresh arrays of CATALAN[length] entries, the
     * first count of which hold the candidates' values and texts, in the
     * order of the enumeration Candidates.
     */
    method BracketTree(numlist: seq<real>, opNumber: nat, ghost v: nat) returns (list: array<Value>, visual: array<string>, count: nat)
      requires 1 <= |numlist| <= MaxNumbers && v == opVector
      ensures fresh(list) && fresh(visual)
      ensures list.Length == visual.Length == CatalanTable[|numlist|]
      ensures count == |Candidates(numlist, opNumber, v, DontListDuplicates)|
      ensures Holds(list[..], visual[..], Candidates(numlist, opNumber, v, DontListDuplicates), v)
      decreases |numlist|, 2
    {
      var length := |numlist|;
      CandidatesFit(numlist, opNumber, v, DontListDuplicates);
      list := new Value[CatalanTable[length]];
      visual := new string[CatalanTable[length]];
      if length <= 1 {
        list[0] := Num(numlist[0]);
        visual[0] := IntToString(Trunc(numlist[0]));
        count := 1;
        return;
      }
      count := SplitAll(numlist, opNumber, v, list, visual);
    }

    /** bracketTree's i loop over the split points, for two numbers or more. */
    method SplitAll(numlist: seq<real>, opNumber: nat, ghost v: nat, list: array<Value>, visual: array<string>) returns (count: nat)
      requires 2 <= |numlist| <= MaxNumbers && v == opVector
      requires |Candidates(numlist, opNumber, v, DontListDuplicates)| <= list.Length <= visual.Length
      modifies list, visual
      ensures count == |Candidates(numlist, opNumber, v, DontListDuplicates)|
      ensures Holds(list[..], visual[..], Candidates(numlist, opNumber, v, DontListDuplicates), v)
      decreases |numlist|, 1
    {
      var length := |numlist|;
      var operator := DigitAt(opVector, opNumber);
      count := 0;
      ghost var done: seq<Expr> := [];
      var i: nat := 1;
      while i < length
        invariant 1 <= i <= length
        invariant done == Splits(numlist, opNumber, v, DontListDuplicates, i) && count == |done|
        invariant Holds(list[..], visual[..], done, v)
      {
        count := SplitAt(numlist, opNumber, v, i, operator, list, visual, count, done);
        done := Splits(numlist, opNumber, v, DontListDuplicates, i + 1);
        i := i + 1;
      }
    }

    /**
     * One turn of bracketTree's i loop: the candidates of the i numbers on
     * the left and of the rest on the right, then their combinations
     * written after the done trees of the earlier split points.
     */
    method SplitAt(numlist: seq<real>, opNumber: nat, ghost v: nat, i: nat, operator: nat,
                   list: array<Value>, visual: array<string>, count0: nat, ghost done: seq<Expr>) returns (count: nat)
      requires 1 <= i < |numlist| <= MaxNumbers && v == opVector && operator == DigitAt(v, opNumber)
      requires done == Splits(numlist, opNumber, v, DontListDuplicates, i) && count0 == |done|
      requires Holds(list[..], visual[..], done, v)
      requires |Candidates(numlist, opNumber, v, DontListDuplicates)| <= list.Length <= visual.Length
      modifies list, visual
      ensures count == |Splits(numlist, opNumber, v, DontListDuplicates, i + 1)|
      ensures Holds(list[..], visual[..], Splits(numlist, opNumber, v, DontListDuplicates, i + 1), v)
      decreases |numlist|, 0
    {
      var left, leftVisual, leftCount := BracketTree(numlist[..i], opNumber + 1, v);
      var right, rightVisual, rightCount := BracketTree(numlist[i..], opNumber + i, v);
      ghost var ls := Candidates(numlist[..i], opNumber + 1, v, DontListDuplicates);
      ghost var rs := Candidates(numlist[i..], opNumber + i, v, DontListDuplicates);
      SplitsNext(numlist, opNumber, v, DontListDuplicates, i);
      count := CombineAll(list, visual, count0, operator, left[..], leftVisual[..], leftCount,
        right[..], rightVisual[..], rightCount, opNumber, ls, rs, done);
    }

    /**
     * The j and k loops of bracketTree at one split point: every left
     * candidate against every right candidate, in that order, each kept
     * combination written at the next free entry. done is what the entries
     * before count0 hold.
     */
    method CombineAll(list: array<Value>, visual: array<string>, count0: nat, operator: nat,
                      left: seq<Value>, leftVisual: seq<string>, leftCount: nat,
                      right: seq<Value>, rightVisual: seq<string>, rightCount: nat,
                      opNumber: nat, ghost ls: seq<Expr>, ghost rs: seq<Expr>, ghost done: seq<Expr>) returns (count: nat)
      requires operator == DigitAt(opVector, opNumber)
      requires leftCount == |ls| && Holds(left, leftVisual, ls, opVector)
      requires rightCount == |rs| && Holds(right, rightVisual, rs, opVector)
      requires count0 == |done| && Holds(list[..], visual[..], done, opVector)
      requires count0 + |Combine(opVector, opNumber, ls, rs, DontListDuplicates)| <= list.Length <= visual.Length
      modifies list, visual
      ensures count == |done + Combine(opVector, opNumber, ls, rs, DontListDuplicates)|
      ensures Holds(list[..], visual[..], done + Combine(opVector, opNumber, ls, rs, DontListDuplicates), opVector)
    {
      ghost var v := opVector;
      ghost var acc := done;
      count := count0;
      assert ls[..0] == [];
      var j := 0;
      while j < leftCount
        invariant 0 <= j <= leftCount
        invariant acc == done + Combine(v, opNumber, ls[..j], rs, DontListDuplicates) && count == |acc|
        invariant Holds(list[..], visual[..], acc, v)
        modifies list, visual
      {
        CombineStep(v, opNumber, ls, rs, j, DontListDuplicates, done);
        count := CombineRow(list, visual, count, operator, left[j], leftVisual[j], right, rightVisual, rightCount, opNumber, ls[j], rs, acc);
        acc := acc + Row(v, opNumber, ls[j], rs, DontListDuplicates);
        j := j + 1;
      }
      assert ls[..j] == ls;
    }

    /**
     * The k loop of bracketTree: the left candidate l, whose value and text
     * are lval and ltext, against each right candidate in turn; every
     * combination the duplicate rule keeps is written at the next free
     * entry. done is what the entries before count0 hold.
     */
    method CombineRow(list: array<Value>, visual: array<string>, count0: nat, operator: nat,
                      lval: Value, ltext: string, right: seq<Value>, rightVisual: seq<string>, rightCount: nat,
                      opNumber: nat, ghost l: Expr, ghost rs: seq<Expr>, ghost done: seq<Expr>) returns (count: nat)
      requires operator == DigitAt(opVector, opNumber)
      requires lval == Eval(l, opVector) && ltext == Render(l, opVector)
      requires rightCount == |rs| && Holds(right, rightVisual, rs, opVector)
      requires count0 == |done| && Holds(list[..], visual[..], done, opVector)
      requires count0 + |Row(opVector, opNumber, l, rs, DontListDuplicates)| <= list.Length <= visual.Length
      modifies list, visual
      ensures count == |done + Row(opVector, opNumber, l, rs, DontListDuplicates)|
      ensures Holds(list[..], visual[..], done + Row(opVector, opNumber, l, rs, DontListDuplicates), opVector)
    {
      ghost var v := opVector;
      ghost var acc := done;
      count := count0;
      assert rs[..0] == [];
      var k := 0;
      while k < rightCount
        invariant 0 <= k <= rightCount
        invariant acc == done + Row(v, opNumber, l, rs[..k], DontListDuplicates) && count == |acc|
        invariant Holds(list[..], visual[..], acc, v)
        modifies list, visual
      {
        RowStep(v, opNumber, l, rs, k, DontListDuplicates, done);
        count := RowTurn(list, visual, count, operator, lval, ltext, right[k], rightVisual[k], opNumber, l, rs[k], acc);
        acc := acc + if Emits(v, opNumber, l, rs[k], DontListDuplicates) then [Node(opNumber, l, rs[k])] else [];
        k := k + 1;
      }
      assert rs[..k] == rs;
    }

    /**
     * The body of the k loop: the combination of l and r is written at
     * entry count0 when the duplicate rule keeps it, and skipped otherwise.
     */
    method RowTurn(list: array<Value>, visual: array<string>, count0: nat, operator: nat, lval: Value, ltext: string,
                   rval: Value, rtext: string, opNumber: nat, ghost l: Expr, ghost r: Expr, ghost done: seq<Expr>)
      returns (count: nat)
      requires operator == DigitAt(opVector, opNumber)
      requires lval == Eval(l, opVector) && ltext == Render(l, opVector)
      requires rval == Eval(r, opVector) && rtext == Render(r, opVector)
      requires count0 == |done| && Holds(list[..], visual[..], done, opVector)
      requires count0 + (if Emits(opVector, opNumber, l, r, DontListDuplicates) then 1 else 0) <= list.Length <= visual.Length
      modifies list, visual
      ensures var kept := if Emits(opVector, opNumber, l, r, DontListDuplicates) then [Node(opNumber, l, r)] else [];
        count == count0 + |kept| && Holds(list[..], visual[..], done + kept, opVector)
    {
      if !DontListDuplicates || operator % 2 == 1 || LessEq(lval, rval) {
        count := Place(list, visual, count0, lval, ltext, rval, rtext, opNumber, l, r, done);
      } else {
        count := count0;
        assert done + [] == done;
      }
    }

    /**
     * The body of the k loop for a kept combination: op of the two values
     * and the text "(left glyph right)" written at entry count0, which then
     * holds the node over l and r.
     */
    method Place(list: array<Value>, visual: array<string>, count0: nat, lval: Value, ltext: string,
                 rval: Value, rtext: string, opNumber: nat, ghost l: Expr, ghost r: Expr, ghost done: seq<Expr>)
      returns (count: nat)
      requires lval == Eval(l, opVector) && ltext == Render(l, opVector)
      requires rval == Eval(r, opVector) && rtext == Render(r, opVector)
      requires count0 == |done| && Holds(list[..], visual[..], done, opVector)
      requires count0 < list.Length <= visual.Length
      modifies list, visual
      ensures count == count0 + 1
      ensures Holds(list[..], visual[..], done + [Node(opNumber, l, r)], opVector)
    {
      ghost var t := Node(opNumber, l, r);
      ghost var values, texts := list[..], visual[..];
      var value := OpValue(opVector, lval, rval, opNumber);
      var text := "(" + ltext + " " + [VisOp(opVector, opNumber)] + " " + rtext + ")";
      assert value == Eval(t, opVector) && text == Render(t, opVector);
      list[count0] := value;
      visual[count0] := text;
      assert list[..] == values[count0 := value] && visual[..] == texts[count0 := text];
      HoldsSnoc(values, texts, done, opVector, value, text, t);
      count := count0 + 1;
    }

    /**
     * testCombination: every root candidate of the arrangement a is compared
     * with the target in order, as Scan describes; the first match ends a
     * stop-at-first search.
     */
    method TestCombination(numlist: seq<real>)
      requires |numlist| == numbersToAdd
      requires !stopped
      modifies this
      ensures opVector == old(opVector)
      ensures Counts() == Scan(old(Counts()), RootCandidates(numlist, opVector, DontListDuplicates), totalNumber, StopAtFirst())
    {
      ghost var c0 := Counts();
      ghost var v := opVector;
      var list, visual, count := BracketTree(numlist, 0, v);
      ghost var ts := Candidates(numlist, 0, v, DontListDuplicates);
      ghost var xs := RootCandidates(numlist, v, DontListDuplicates);
      var i := 0;
      while i < count
        invariant 0 <= i <= count
        invariant !stopped && opVector == v
        invariant Counts() == Scan(c0, xs[..i], totalNumber, StopAtFirst())
        modifies this
      {
        StoredAt(ts, v, i);
        TestAt(list, visual, i, xs, c0);
        if stopped {
          return;
        }
        i := i + 1;
      }
      assert xs[..i] == xs;
      assert Counts() == Scan(c0, xs, totalNumber, StopAtFirst());
    }

    /**
     * One turn of testCombination's loop: the candidate stored at entry i is
     * examined; if that stops the search, the counters are where the whole
     * scan leaves them.
     */
    method TestAt(list: array<Value>, visual: array<string>, i: nat, ghost xs: seq<Candidate>, ghost c0: Counters)
      requires i < list.Length && i < visual.Length && i < |xs| && xs[i] == Candidate(list[i], visual[i])
      requires !stopped && Counts() == Scan(c0, xs[..i], totalNumber, StopAtFirst())
      modifies this
      ensures opVector == old(opVector)
      ensures Counts() == if stopped then Scan(c0, xs, totalNumber, StopAtFirst()) else Scan(c0, xs[..i + 1], totalNumber, StopAtFirst())
    {
      ScanNext(c0, xs, i, totalNumber, StopAtFirst());
      TestCandidate(list[i], visual[i]);
      if stopped {
        ScanStopsEarly(c0, xs, i + 1, totalNumber, StopAtFirst());
      }
    }

    /**
     * The body of testCombination's loop for one candidate: a match is
     * printed and counted as a solution and, in modes 0 and 2, ends the
     * program before it is counted as a possibility; otherwise the
     * candidate is counted as a possibility.
     */
    method TestCandidate(value: Value, text: string)
      requires !stopped
      modifies this
      ensures opVector == old(opVector)
      ensures Counts() == Examine(old(Counts()), Candidate(value, text), totalNumber, StopAtFirst())
    {
      if value == Num(totalNumber as real) {
        printed := printed + [text];
        numSolutions := numSolutions + 1;
        if programMode % 2 == 0 {
          stopped := true;
          return;
        }
      }
      numPossibilities := numPossibilities + 1;
    }

    /**
     * quickPerm: testCombination on the starting arrangement and after every
     * swap the duplicate rule does not skip. Unless the search stopped, the
     * numbers are left in the arrangement where the state machine ends.
     */
    method QuickPerm(a: array<real>)
      requires a.Length == numbersToAdd
      requires !stopped
      modifies this, a
      ensures opVector == old(opVector)
      ensures Counts() == ScanArrangements(old(Counts()), Arrangements(old(a[..]), DontListDuplicates), opVector,
        DontListDuplicates, totalNumber, StopAtFirst())
      ensures !stopped ==> a[..] == AfterQuickPerm(old(a[..]))
    {
      ghost var a0 := a[..];
      ghost var n := numbersToAdd;
      ghost var target := ScanArrangements(Counts(), Arrangements(a0, DontListDuplicates), opVector,
        DontListDuplicates, totalNumber, StopAtFirst());
      ScanArrangementsCons(Counts(), a0, TestedOf(Visits(Start(a0), n, DontListDuplicates)), opVector,
        DontListDuplicates, totalNumber, StopAtFirst());
      var p := new nat[MaxNumbers](_ => 0);
      TestCombination(a[..]);
      if stopped {
        ScanArrangementsStopped(Counts(), TestedOf(Visits(Start(a0), n, DontListDuplicates)), opVector,
          DontListDuplicates, totalNumber, StopAtFirst());
        return;
      }
      ghost var s := Start(a0);
      assert p[..n] == s.p;
      var i: nat := 1;
      while i < numbersToAdd
        invariant s == PermState(a[..], p[..n], i) && Inv(s, n)
        invariant Final(s, n) == Final(Start(a0), n)
        invariant ScanArrangements(Counts(), TestedOf(Visits(s, n, DontListDuplicates)), opVector,
          DontListDuplicates, totalNumber, StopAtFirst()) == target
        invariant !stopped && opVector == old(opVector)
        decreases Fact(n) - VisitedCount(s, n), n - i
      {
        VisitedBound(s, n);
        ghost var t := Step(s, n);
        VisitedBound(t, n);
        i := QuickPermPass(a, p, i, s);
        if stopped {
          return;
        }
        s := t;
      }
      assert Visits(s, n, DontListDuplicates) == [];
    }

    /**
     * The swap branch of quickPerm's loop: swap a[i] with a[j], then test the
     * new arrangement unless the duplicate rule skips it. What it examines is
     * the start of what is tested from here on, later after it.
     */
    method SwapAndTest(a: array<real>, i: nat, j: nat, ghost later: seq<seq<real>>)
      requires a.Length == numbersToAdd && i < numbersToAdd && j < numbersToAdd
      requires !stopped
      modifies this, a
      ensures a[..] == Swapped(old(a[..]), i, j) && opVector == old(opVector)
      ensures var b := a[..];
        var tested := if !DontListDuplicates || b[i] != b[j] then [b] else [];
        ScanArrangements(old(Counts()), tested + later, opVector, DontListDuplicates, totalNumber, StopAtFirst()) ==
          if stopped then Counts()
          else ScanArrangements(Counts(), later, opVector, DontListDuplicates, totalNumber, StopAtFirst())
    {
      Swap(i, j, a);
      if !DontListDuplicates || a[i] != a[j] {
        ScanArrangementsCons(Counts(), a[..], later, opVector, DontListDuplicates, totalNumber, StopAtFirst());
        TestCombination(a[..]);
        if stopped {
          ScanArrangementsStopped(Counts(), later, opVector, DontListDuplicates, totalNumber, StopAtFirst());
        }
      } else {
        assert [] + later == later;
      }
    }

    /**
     * One pass of quickPerm's while loop from state s: swap and test when
     * p[i] < i, otherwise reset p[i] and move i up. What it examines is the
     * start of what is tested from s on, and unless the search stops there
     * the arrays hold the next state.
     */
    method QuickPermPass(a: array<real>, p: array<nat>, i: nat, ghost s: PermState) returns (i': nat)
      requires a.Length == numbersToAdd && p.Length == MaxNumbers
      requires s == PermState(a[..], p[..numbersToAdd], i) && Inv(s, numbersToAdd) && i < numbersToAdd
      requires !stopped
      modifies this, a, p
      ensures opVector == old(opVector)
      ensures !stopped ==> Step(s, numbersToAdd) == PermState(a[..], p[..numbersToAdd], i')
      ensures !stopped ==>
        ScanArrangements(old(Counts()), TestedOf(Visits(s, numbersToAdd, DontListDuplicates)), opVector,
          DontListDuplicates, totalNumber, StopAtFirst()) ==
        ScanArrangements(Counts(), TestedOf(Visits(Step(s, numbersToAdd), numbersToAdd, DontListDuplicates)), opVector,
          DontListDuplicates, totalNumber, StopAtFirst())
      ensures stopped ==>
        ScanArrangements(old(Counts()), TestedOf(Visits(s, numbersToAdd, DontListDuplicates)), opVector,
          DontListDuplicates, totalNumber, StopAtFirst()) == Counts()
    {
      ghost var n := numbersToAdd;
      if p[i] < i {
        var j := if i % 2 == 1 then p[i] else 0;
        assert j == Partner(s);
        ghost var later := TestedOf(Visits(Step(s, n), n, DontListDuplicates));
        SwapAndTest(a, i, j, later);
        if stopped {
          TestedStep(s, n, DontListDuplicates);
          return 1;
        }
        SetControl(p, i, p[i] + 1, n);
        i' := 1;
        assert Step(s, n) == PermState(a[..], p[..n], i');
        TestedStep(s, n, DontListDuplicates);
      } else {
        SetControl(p, i, 0, n);
        i' := i + 1;
        assert Step(s, n) == PermState(a[..], p[..n], i');
        TestedStep(s, n, DontListDuplicates);
      }
    }

    /** An update of quickPerm's control array p, seen as its first n entries. */
    static method SetControl(p: array<nat>, i: nat, x: nat, ghost n: nat)
      requires i < n <= p.Length
      modifies p
      ensures p[..n] == old(p[..n])[i := x]
    {
      p[i] := x;
    }

    /** One turn of main's opVector loop: quickPerm with the current vector, then the next vector. */
    method AdvanceVector(nums: array<real>, ghost ops: nat)
      requires nums.Length == numbersToAdd && opVector < ops
      requires !stopped
      modifies this, nums
      ensures opVector == old(opVector) + 1
      ensures SearchFrom(Counts(), nums[..], opVector, ops, DontListDuplicates, totalNumber, StopAtFirst()) ==
        SearchFrom(old(Counts()), old(nums[..]), old(opVector), ops, DontListDuplicates, totalNumber, StopAtFirst())
    {
      ghost var c0, a0, v0 := Counts(), nums[..], opVector;
      QuickPerm(nums);
      ghost var c1, a1 := Counts(), nums[..];
      SearchFromAdvance(c0, a0, v0, ops, c1, a1, DontListDuplicates, totalNumber, StopAtFirst());
      opVector := opVector + 1;
    }

    /**
     * main's search after the input: opVector runs from 0 below 4^(N - 1),
     * quickPerm for each, until the search ends or stops at a solution.
     */
    method Solve(nums: array<real>)
      requires nums.Length == numbersToAdd
      requires !stopped
      modifies this, nums
      ensures Counts() == SearchFrom(old(Counts()), old(nums[..]), 0, IPow(4, numbersToAdd - 1), DontListDuplicates,
        totalNumber, StopAtFirst())
    {
      var operatorCombinations := IPow(4, numbersToAdd - 1);
      opVector := 0;
      while opVector < operatorCombinations && !stopped
        invariant opVector <= operatorCombinations
        invariant SearchFrom(Counts(), nums[..], opVector, operatorCombinations, DontListDuplicates, totalNumber, StopAtFirst()) ==
          SearchFrom(old(Counts()), old(nums[..]), 0, operatorCombinations, DontListDuplicates, totalNumber, StopAtFirst())
      {
        AdvanceVector(nums, operatorCombinations);
      }
    }
  }
}
