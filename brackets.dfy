/**
 * Brackets: what bracketTree(numlist, length, opNumber) returns, as a pure
 * enumeration of candidate trees in the order the program's three nested
 * loops produce them (split point i, then left candidate j, then right
 * candidate k). The flag dedup says whether DONT_LIST_DUPLICATES is defined.
 */
module Brackets {
  import opened Counting
  import opened Operators
  import opened Expressions

  /**
   * Whether the combination of l and r at a node consulting position pos is
   * kept: always without the duplicate rule; with it, when the digit is odd
   * (- or /) or the left value is at most the right one. A combination the
   * rule drops uses + or * and so has the value of its mirror image.
   */
  predicate Emits(v: nat, pos: nat, l: Expr, r: Expr, dedup: bool)
    ensures !dedup ==> Emits(v, pos, l, r, dedup)
    ensures !Emits(v, pos, l, r, dedup) ==>
      DigitAt(v, pos) % 2 == 0 && OpValue(v, Eval(r, v), Eval(l, v), pos) == OpValue(v, Eval(l, v), Eval(r, v), pos)
  {
    if !dedup || DigitAt(v, pos) % 2 == 1 then true
    else
      EvenDigitCommutes(v, pos, Eval(l, v), Eval(r, v));
      LessEq(Eval(l, v), Eval(r, v))
  }

  /** The k loop: l combined with each of rs in turn, those the rule keeps. */
  function Row(v: nat, pos: nat, l: Expr, rs: seq<Expr>, dedup: bool): seq<Expr>
    decreases |rs|
  {
    if rs == [] then []
    else
      var r := rs[|rs| - 1];
      Row(v, pos, l, rs[..|rs| - 1], dedup) + (if Emits(v, pos, l, r, dedup) then [Node(pos, l, r)] else [])
  }

  /** The j loop around the k loop: each of ls combined with each of rs. */
  function Combine(v: nat, pos: nat, ls: seq<Expr>, rs: seq<Expr>, dedup: bool): seq<Expr>
    decreases |ls|
  {
    if ls == [] then []
    else Combine(v, pos, ls[..|ls| - 1], rs, dedup) + Row(v, pos, ls[|ls| - 1], rs, dedup)
  }

  /**
   * bracketTree over nums at operator position base: the number itself for
   * one number, otherwise the combinations at every split point.
   */
  function Candidates(nums: seq<real>, base: nat, v: nat, dedup: bool): seq<Expr>
    requires |nums| >= 1
    decreases |nums|, 1
  {
    if |nums| == 1 then [Leaf(nums[0])] else Splits(nums, base, v, dedup, |nums|)
  }

  /**
   * The i loop up to, not including, split point i: split s puts s numbers
   * on the left, enumerated at base + 1, and the rest on the right, at base + s.
   */
  function Splits(nums: seq<real>, base: nat, v: nat, dedup: bool, i: nat): seq<Expr>
    requires 1 <= i <= |nums|
    decreases |nums|, 0, i
  {
    if i == 1 then []
    else
      var s := i - 1;
      Splits(nums, base, v, dedup, s) +
      Combine(v, base, Candidates(nums[..s], base + 1, v, dedup), Candidates(nums[s..], base + s, v, dedup), dedup)
  }

  // ---------------------------------------------------------------------
  // How many candidates there are

  /** Without the duplicate rule a row has one combination per right candidate. */
  lemma {:induction false} RowCount(v: nat, pos: nat, l: Expr, rs: seq<Expr>)
    ensures |Row(v, pos, l, rs, false)| == |rs|
  {
    if rs != [] {
      RowCount(v, pos, l, rs[..|rs| - 1]);
    }
  }

  /** Without the duplicate rule there are |ls| * |rs| combinations. */
  lemma {:induction false} CombineCount(v: nat, pos: nat, ls: seq<Expr>, rs: seq<Expr>)
    ensures |Combine(v, pos, ls, rs, false)| == |ls| * |rs|
  {
    if ls != [] {
      CombineCount(v, pos, ls[..|ls| - 1], rs);
      RowCount(v, pos, ls[|ls| - 1], rs);
      assert (|ls| - 1) * |rs| + |rs| == |ls| * |rs|;
    }
  }

  /**
   * Without the duplicate rule, bracketTree over L numbers returns exactly
   * C(L - 1) candidates, the number of binary tree shapes with L leaves.
   */
  lemma {:induction false} CandidatesCount(nums: seq<real>, base: nat, v: nat)
    requires |nums| >= 1
    ensures |Candidates(nums, base, v, false)| == Catalan(|nums| - 1)
    decreases |nums|, 1
  {
    if |nums| > 1 {
      SplitsCount(nums, base, v, |nums|);
    }
  }

  /** The split points before i contribute the first i - 1 terms of the Catalan convolution. */
  lemma {:induction false} SplitsCount(nums: seq<real>, base: nat, v: nat, i: nat)
    requires 1 <= i <= |nums| && |nums| >= 2
    ensures |Splits(nums, base, v, false, i)| == CatalanSum(|nums| - 2, i - 1)
    decreases |nums|, 0, i
  {
    if i > 1 {
      var s := i - 1;
      SplitsCount(nums, base, v, s);
      var ls := Candidates(nums[..s], base + 1, v, false);
      var rs := Candidates(nums[s..], base + s, v, false);
      CandidatesCount(nums[..s], base + 1, v);
      CandidatesCount(nums[s..], base + s, v);
      CombineCount(v, base, ls, rs);
    }
  }

  // ---------------------------------------------------------------------
  // The duplicate rule keeps exactly the canonical candidates

  /** The trees of ts that satisfy the duplicate rule at every node, in order. */
  ghost function CanonicalOnly(ts: seq<Expr>, v: nat): (r: seq<Expr>)
    ensures |r| <= |ts|
  {
    if ts == [] then []
    else CanonicalOnly(ts[..|ts| - 1], v) + (if Canonical(ts[|ts| - 1], v) then [ts[|ts| - 1]] else [])
  }

  /** Filtering one more tree. */
  lemma CanonicalOnlySnoc(ts: seq<Expr>, x: Expr, v: nat)
    ensures CanonicalOnly(ts + [x], v) == CanonicalOnly(ts, v) + (if Canonical(x, v) then [x] else [])
  {
    assert (ts + [x])[..|ts|] == ts;
  }

  lemma {:induction false} CanonicalOnlyAppend(a: seq<Expr>, b: seq<Expr>, v: nat)
    ensures CanonicalOnly(a + b, v) == CanonicalOnly(a, v) + CanonicalOnly(b, v)
    decreases |b|
  {
    if b == [] {
      assert a + b == a;
    } else {
      var init, x := b[..|b| - 1], b[|b| - 1];
      assert a + b == (a + init) + [x];
      assert b == init + [x];
      CanonicalOnlyAppend(a, init, v);
      CanonicalOnlySnoc(a + init, x, v);
      CanonicalOnlySnoc(init, x, v);
    }
  }

  /** One more right candidate for the k loop. */
  lemma RowSnoc(v: nat, pos: nat, l: Expr, rs: seq<Expr>, r: Expr, dedup: bool)
    ensures Row(v, pos, l, rs + [r], dedup)
      == Row(v, pos, l, rs, dedup) + (if Emits(v, pos, l, r, dedup) then [Node(pos, l, r)] else [])
  {
    assert (rs + [r])[..|rs|] == rs;
  }

  /** One more left candidate for the j loop. */
  lemma CombineSnoc(v: nat, pos: nat, ls: seq<Expr>, l: Expr, rs: seq<Expr>, dedup: bool)
    ensures Combine(v, pos, ls + [l], rs, dedup) == Combine(v, pos, ls, rs, dedup) + Row(v, pos, l, rs, dedup)
  {
    assert (ls + [l])[..|ls|] == ls;
  }

  /** Whether the rule keeps a node is decided at the node, once its parts are kept. */
  lemma CanonicalNode(v: nat, pos: nat, l: Expr, r: Expr)
    ensures Canonical(Node(pos, l, r), v) == (Canonical(l, v) && Canonical(r, v) && Emits(v, pos, l, r, true))
  {
  }

  /** Filtering a full row: nothing if l breaks the rule, else the rule-keeping row over the canonical right candidates. */
  lemma RowCanonical(v: nat, pos: nat, l: Expr, rs: seq<Expr>)
    ensures CanonicalOnly(Row(v, pos, l, rs, false), v)
      == if Canonical(l, v) then Row(v, pos, l, CanonicalOnly(rs, v), true) else []
  {
    if Canonical(l, v) {
      RowCanonicalKept(v, pos, l, rs);
    } else {
      RowCanonicalDropped(v, pos, l, rs);
    }
  }

  /** A left candidate that breaks the rule contributes nothing. */
  lemma {:induction false} RowCanonicalDropped(v: nat, pos: nat, l: Expr, rs: seq<Expr>)
    requires !Canonical(l, v)
    ensures CanonicalOnly(Row(v, pos, l, rs, false), v) == []
  {
    if rs != [] {
      var init, r := rs[..|rs| - 1], rs[|rs| - 1];
      assert rs == init + [r];
      RowCanonicalDropped(v, pos, l, init);
      RowSnoc(v, pos, l, init, r, false);
      CanonicalOnlySnoc(Row(v, pos, l, init, false), Node(pos, l, r), v);
      CanonicalNode(v, pos, l, r);
    }
  }

  /** A left candidate that keeps the rule is combined with the right candidates that keep it. */
  lemma {:induction false} RowCanonicalKept(v: nat, pos: nat, l: Expr, rs: seq<Expr>)
    requires Canonical(l, v)
    ensures CanonicalOnly(Row(v, pos, l, rs, false), v) == Row(v, pos, l, CanonicalOnly(rs, v), true)
  {
    if rs != [] {
      var init, r := rs[..|rs| - 1], rs[|rs| - 1];
      var n := Node(pos, l, r);
      assert rs == init + [r];
      RowCanonicalKept(v, pos, l, init);
      RowSnoc(v, pos, l, init, r, false);
      CanonicalOnlySnoc(Row(v, pos, l, init, false), n, v);
      CanonicalOnlySnoc(init, r, v);
      CanonicalNode(v, pos, l, r);
      if Canonical(r, v) {
        RowSnoc(v, pos, l, CanonicalOnly(init, v), r, true);
        assert CanonicalOnly(rs, v) == CanonicalOnly(init, v) + [r];
        assert CanonicalOnly(Row(v, pos, l, rs, false), v) == Row(v, pos, l, CanonicalOnly(init, v), true) + (if Emits(v, pos, l, r, true) then [n] else []);
      } else {
        assert CanonicalOnly(rs, v) == CanonicalOnly(init, v);
        assert CanonicalOnly(Row(v, pos, l, rs, false), v) == Row(v, pos, l, CanonicalOnly(init, v), true);
      }
    }
  }

  /** Filtering all combinations gives the rule-keeping combinations of the filtered candidates. */
  lemma {:induction false} CombineCanonical(v: nat, pos: nat, ls: seq<Expr>, rs: seq<Expr>)
    ensures CanonicalOnly(Combine(v, pos, ls, rs, false), v)
      == Combine(v, pos, CanonicalOnly(ls, v), CanonicalOnly(rs, v), true)
  {
    if ls != [] {
      var init, l := ls[..|ls| - 1], ls[|ls| - 1];
      var full, kept := Combine(v, pos, init, rs, false), Combine(v, pos, CanonicalOnly(init, v), CanonicalOnly(rs, v), true);
      assert ls == init + [l];
      CombineCanonical(v, pos, init, rs);
      CombineSnoc(v, pos, init, l, rs, false);
      CanonicalOnlyAppend(full, Row(v, pos, l, rs, false), v);
      RowCanonical(v, pos, l, rs);
      CanonicalOnlySnoc(init, l, v);
      if Canonical(l, v) {
        CombineSnoc(v, pos, CanonicalOnly(init, v), l, CanonicalOnly(rs, v), true);
        assert CanonicalOnly(ls, v) == CanonicalOnly(init, v) + [l];
        assert CanonicalOnly(Combine(v, pos, ls, rs, false), v) == kept + Row(v, pos, l, CanonicalOnly(rs, v), true);
      } else {
        assert CanonicalOnly(ls, v) == CanonicalOnly(init, v);
        assert CanonicalOnly(Combine(v, pos, ls, rs, false), v) == kept + [];
      }
    }
  }

  /**
   * With DONT_LIST_DUPLICATES, bracketTree returns exactly those candidates
   * of the full enumeration, in the same order, whose every + or * node has
   * its left value at most its right value.
   */
  lemma {:induction false} DedupIsCanonicalFilter(nums: seq<real>, base: nat, v: nat)
    requires |nums| >= 1
    ensures Candidates(nums, base, v, true) == CanonicalOnly(Candidates(nums, base, v, false), v)
    decreases |nums|, 1
  {
    if |nums| == 1 {
      assert CanonicalOnly([Leaf(nums[0])], v) == CanonicalOnly([], v) + [Leaf(nums[0])];
    } else {
      SplitsCanonical(nums, base, v, |nums|);
    }
  }

  lemma {:induction false} SplitsCanonical(nums: seq<real>, base: nat, v: nat, i: nat)
    requires 1 <= i <= |nums|
    ensures Splits(nums, base, v, true, i) == CanonicalOnly(Splits(nums, base, v, false, i), v)
    decreases |nums|, 0, i
  {
    if i > 1 {
      var s := i - 1;
      SplitsCanonical(nums, base, v, s);
      var ls := Candidates(nums[..s], base + 1, v, false);
      var rs := Candidates(nums[s..], base + s, v, false);
      DedupIsCanonicalFilter(nums[..s], base + 1, v);
      DedupIsCanonicalFilter(nums[s..], base + s, v);
      CombineCanonical(v, base, ls, rs);
      CanonicalOnlyAppend(Splits(nums, base, v, false, s), Combine(v, base, ls, rs, false), v);
    }
  }

  /** With the duplicate rule, bracketTree returns at most C(L - 1) candidates. */
  lemma DedupCountBound(nums: seq<real>, base: nat, v: nat)
    requires |nums| >= 1
    ensures |Candidates(nums, base, v, true)| <= Catalan(|nums| - 1)
  {
    DedupIsCanonicalFilter(nums, base, v);
    CandidatesCount(nums, base, v);
  }

  // ---------------------------------------------------------------------
  // Which trees are enumerated

  /** e is a tree over nums, left to right, with the positions bracketTree assigns at base b. */
  ghost predicate Shaped(e: Expr, nums: seq<real>, b: nat)
  {
    Leaves(e) == nums && Positioned(e, b)
  }

  /** Every combination in a row is a node at pos over the row's left candidate and one of rs. */
  lemma {:induction false} RowMembers(v: nat, pos: nat, l: Expr, rs: seq<Expr>, dedup: bool, e: Expr)
    requires e in Row(v, pos, l, rs, dedup)
    ensures e.Node? && e.pos == pos && e.left == l && e.right in rs && Emits(v, pos, l, e.right, dedup)
  {
    var init, r := rs[..|rs| - 1], rs[|rs| - 1];
    if e !in Row(v, pos, l, init, dedup) {
      assert e == Node(pos, l, r);
    } else {
      RowMembers(v, pos, l, init, dedup, e);
    }
  }

  /** Every combination is a node at pos over one of ls and one of rs. */
  lemma {:induction false} CombineMembers(v: nat, pos: nat, ls: seq<Expr>, rs: seq<Expr>, dedup: bool, e: Expr)
    requires e in Combine(v, pos, ls, rs, dedup)
    ensures e.Node? && e.pos == pos && e.left in ls && e.right in rs && Emits(v, pos, e.left, e.right, dedup)
  {
    var init, l := ls[..|ls| - 1], ls[|ls| - 1];
    if e in Combine(v, pos, init, rs, dedup) {
      CombineMembers(v, pos, init, rs, dedup, e);
    } else {
      RowMembers(v, pos, l, rs, dedup, e);
    }
  }

  /**
   * Every candidate bracketTree returns over nums at base b is a tree whose
   * leaves are nums in order, positioned as the recursion assigns them;
   * with the duplicate rule it also keeps the rule at every node.
   */
  lemma {:induction false} CandidatesShaped(nums: seq<real>, b: nat, v: nat, dedup: bool, e: Expr)
    requires |nums| >= 1 && e in Candidates(nums, b, v, dedup)
    ensures Shaped(e, nums, b)
    ensures dedup ==> Canonical(e, v)
    decreases |nums|, 1
  {
    if |nums| > 1 {
      SplitsShaped(nums, b, v, dedup, |nums|, e);
    }
  }

  /** The same for the trees of the split points before i. */
  lemma {:induction false} SplitsShaped(nums: seq<real>, b: nat, v: nat, dedup: bool, i: nat, e: Expr)
    requires 1 <= i <= |nums| && e in Splits(nums, b, v, dedup, i)
    ensures Shaped(e, nums, b)
    ensures dedup ==> Canonical(e, v)
    decreases |nums|, 0, i
  {
    assert i > 1;
    var s := i - 1;
    var earlier := Splits(nums, b, v, dedup, s);
    var last := Combine(v, b, Candidates(nums[..s], b + 1, v, dedup), Candidates(nums[s..], b + s, v, dedup), dedup);
    assert e in earlier + last;
    if e in earlier {
      SplitsShaped(nums, b, v, dedup, s, e);
    } else {
      CombineShaped(nums, b, v, dedup, s, e);
    }
  }

  /** Every combination at split point s is a tree over nums positioned at b. */
  lemma {:induction false} CombineShaped(nums: seq<real>, b: nat, v: nat, dedup: bool, s: nat, e: Expr)
    requires 1 <= s < |nums|
    requires e in Combine(v, b, Candidates(nums[..s], b + 1, v, dedup), Candidates(nums[s..], b + s, v, dedup), dedup)
    ensures Shaped(e, nums, b)
    ensures dedup ==> Canonical(e, v)
    decreases |nums|, 0, s
  {
    var ls := Candidates(nums[..s], b + 1, v, dedup);
    var rs := Candidates(nums[s..], b + s, v, dedup);
    CombineMembers(v, b, ls, rs, dedup, e);
    CandidatesShaped(nums[..s], b + 1, v, dedup, e.left);
    CandidatesShaped(nums[s..], b + s, v, dedup, e.right);
    NodeShaped(nums, b, v, dedup, s, e);
  }

  /** A node at b over a tree of the first s numbers and a tree of the rest is a tree over them all. */
  lemma NodeShaped(nums: seq<real>, b: nat, v: nat, dedup: bool, s: nat, e: Expr)
    requires s <= |nums| && e.Node? && e.pos == b
    requires Shaped(e.left, nums[..s], b + 1) && Shaped(e.right, nums[s..], b + s)
    requires dedup ==> Canonical(e.left, v) && Canonical(e.right, v) && Emits(v, b, e.left, e.right, dedup)
    ensures Shaped(e, nums, b)
    ensures dedup ==> Canonical(e, v)
  {
    assert nums == nums[..s] + nums[s..];
  }

  /** Every pairing of a left and a right candidate is among the full combinations. */
  lemma {:induction false} CombineHas(v: nat, pos: nat, ls: seq<Expr>, rs: seq<Expr>, l: Expr, r: Expr)
    requires l in ls && r in rs
    ensures Node(pos, l, r) in Combine(v, pos, ls, rs, false)
  {
    var init := ls[..|ls| - 1];
    if l == ls[|ls| - 1] {
      RowHas(v, pos, l, rs, r);
    } else {
      assert l in init;
      CombineHas(v, pos, init, rs, l, r);
    }
  }

  lemma {:induction false} RowHas(v: nat, pos: nat, l: Expr, rs: seq<Expr>, r: Expr)
    requires r in rs
    ensures Node(pos, l, r) in Row(v, pos, l, rs, false)
  {
    var init := rs[..|rs| - 1];
    if r != rs[|rs| - 1] {
      assert r in init;
      RowHas(v, pos, l, init, r);
    }
  }

  /** The combinations at split point s are among the split points before i, for every s < i. */
  lemma {:induction false} SplitsHas(nums: seq<real>, b: nat, v: nat, dedup: bool, i: nat, s: nat, e: Expr)
    requires 1 <= s < i <= |nums|
    requires e in Combine(v, b, Candidates(nums[..s], b + 1, v, dedup), Candidates(nums[s..], b + s, v, dedup), dedup)
    ensures e in Splits(nums, b, v, dedup, i)
  {
    if s < i - 1 {
      SplitsHas(nums, b, v, dedup, i - 1, s, e);
    }
  }

  /**
   * Conversely, bracketTree without the duplicate rule returns every tree
   * over nums positioned at base b: with the count, the enumeration is
   * exactly the C(L - 1) tree shapes.
   */
  lemma {:induction false} ShapedIsCandidate(nums: seq<real>, b: nat, v: nat, e: Expr)
    requires |nums| >= 1 && Shaped(e, nums, b)
    ensures e in Candidates(nums, b, v, false)
    decreases |nums|
  {
    match e
    case Leaf(x) =>
    case Node(p, l, r) =>
      var s := |Leaves(l)|;
      assert Leaves(l) == nums[..s] && Leaves(r) == nums[s..];
      ShapedIsCandidate(nums[..s], b + 1, v, l);
      ShapedIsCandidate(nums[s..], b + s, v, r);
      var ls := Candidates(nums[..s], b + 1, v, false);
      var rs := Candidates(nums[s..], b + s, v, false);
      CombineHas(v, b, ls, rs, l, r);
      SplitsHas(nums, b, v, false, |nums|, s, e);
  }

  /** The trees the filter keeps are those of the input that keep the rule. */
  lemma {:induction false} CanonicalOnlyMembers(ts: seq<Expr>, v: nat, e: Expr)
    ensures e in CanonicalOnly(ts, v) <==> e in ts && Canonical(e, v)
  {
    if ts != [] {
      var init := ts[..|ts| - 1];
      assert ts == init + [ts[|ts| - 1]];
      CanonicalOnlyMembers(init, v, e);
    }
  }

  /**
   * Which trees bracketTree returns: without the duplicate rule exactly the
   * trees over nums positioned at base b; with it exactly those of them that
   * keep the rule at every node.
   */
  lemma CandidatesExactly(nums: seq<real>, b: nat, v: nat, e: Expr)
    requires |nums| >= 1
    ensures e in Candidates(nums, b, v, false) <==> Shaped(e, nums, b)
    ensures e in Candidates(nums, b, v, true) <==> Shaped(e, nums, b) && Canonical(e, v)
  {
    if e in Candidates(nums, b, v, false) {
      CandidatesShaped(nums, b, v, false, e);
    }
    if Shaped(e, nums, b) {
      ShapedIsCandidate(nums, b, v, e);
    }
    DedupIsCanonicalFilter(nums, b, v);
    CanonicalOnlyMembers(Candidates(nums, b, v, false), v, e);
  }

  /**
   * Every candidate bracketTree(_, L, b) returns consults exactly the
   * operator positions b .. b + L - 2, each at one node only.
   */
  lemma CandidatePositions(nums: seq<real>, b: nat, v: nat, dedup: bool, e: Expr)
    requires |nums| >= 1 && e in Candidates(nums, b, v, dedup)
    ensures Positions(e) == Consecutive(b, |nums| - 1)
    ensures forall j, k :: 0 <= j < k < |Positions(e)| ==> Positions(e)[j] != Positions(e)[k]
  {
    CandidatesShaped(nums, b, v, dedup, e);
    PositionedPositions(e, b);
  }

  // ---------------------------------------------------------------------
  // What bracketTree allocates is enough

  /** The k loop keeps at most one combination per right candidate. */
  lemma {:induction false} RowAtMost(v: nat, pos: nat, l: Expr, rs: seq<Expr>, dedup: bool)
    ensures |Row(v, pos, l, rs, dedup)| <= |rs|
    decreases |rs|
  {
    if rs != [] {
      RowAtMost(v, pos, l, rs[..|rs| - 1], dedup);
    }
  }

  /** A row over a prefix of the right candidates is no longer than the whole row. */
  lemma {:induction false} RowPrefixLength(v: nat, pos: nat, l: Expr, rs: seq<Expr>, k: nat, dedup: bool)
    requires k <= |rs|
    ensures |Row(v, pos, l, rs[..k], dedup)| <= |Row(v, pos, l, rs, dedup)|
    decreases |rs|
  {
    if k < |rs| {
      assert rs[..|rs| - 1][..k] == rs[..k];
      RowPrefixLength(v, pos, l, rs[..|rs| - 1], k, dedup);
    } else {
      assert rs[..k] == rs;
    }
  }

  /** Combining a prefix of the left candidates gives no more than combining them all. */
  lemma {:induction false} CombinePrefixLength(v: nat, pos: nat, ls: seq<Expr>, rs: seq<Expr>, j: nat, dedup: bool)
    requires j <= |ls|
    ensures |Combine(v, pos, ls[..j], rs, dedup)| <= |Combine(v, pos, ls, rs, dedup)|
    decreases |ls|
  {
    if j < |ls| {
      assert ls[..|ls| - 1][..j] == ls[..j];
      CombinePrefixLength(v, pos, ls[..|ls| - 1], rs, j, dedup);
    } else {
      assert ls[..j] == ls;
    }
  }

  /** The earlier split points contribute no more than the later ones. */
  lemma {:induction false} SplitsPrefixLength(nums: seq<real>, base: nat, v: nat, dedup: bool, i: nat, m: nat)
    requires 1 <= i <= m <= |nums|
    ensures |Splits(nums, base, v, dedup, i)| <= |Splits(nums, base, v, dedup, m)|
    decreases m
  {
    if i < m {
      SplitsPrefixLength(nums, base, v, dedup, i, m - 1);
    }
  }

  /** The i loop one step further: the trees of split point i follow those of the earlier ones. */
  lemma SplitsNext(nums: seq<real>, base: nat, v: nat, dedup: bool, i: nat)
    requires 1 <= i < |nums|
    ensures Splits(nums, base, v, dedup, i + 1) ==
      Splits(nums, base, v, dedup, i) + Combine(v, base, Candidates(nums[..i], base + 1, v, dedup), Candidates(nums[i..], base + i, v, dedup), dedup)
    ensures |Splits(nums, base, v, dedup, i + 1)| <= |Candidates(nums, base, v, dedup)|
  {
    SplitsPrefixLength(nums, base, v, dedup, i + 1, |nums|);
  }

  /** The k loop one step further: the next right candidate is combined with l if the rule keeps it. */
  lemma RowNext(v: nat, pos: nat, l: Expr, rs: seq<Expr>, k: nat, dedup: bool)
    requires k < |rs|
    ensures Row(v, pos, l, rs[..k + 1], dedup) ==
      Row(v, pos, l, rs[..k], dedup) + (if Emits(v, pos, l, rs[k], dedup) then [Node(pos, l, rs[k])] else [])
  {
    assert rs[..k + 1][..k] == rs[..k];
  }

  /**
   * The k loop one step further, after the trees done stored before it:
   * the next right candidate is appended if the rule keeps it, and the row
   * so far stays within the whole row.
   */
  lemma RowStep(v: nat, pos: nat, l: Expr, rs: seq<Expr>, k: nat, dedup: bool, done: seq<Expr>)
    requires k < |rs|
    ensures done + Row(v, pos, l, rs[..k + 1], dedup) ==
      done + Row(v, pos, l, rs[..k], dedup) + (if Emits(v, pos, l, rs[k], dedup) then [Node(pos, l, rs[k])] else [])
    ensures |Row(v, pos, l, rs[..k + 1], dedup)| <= |Row(v, pos, l, rs, dedup)|
  {
    RowNext(v, pos, l, rs, k, dedup);
    RowPrefixLength(v, pos, l, rs, k + 1, dedup);
  }

  /** The j loop one step further: a whole row more. */
  lemma CombineNext(v: nat, pos: nat, ls: seq<Expr>, rs: seq<Expr>, j: nat, dedup: bool)
    requires j < |ls|
    ensures Combine(v, pos, ls[..j + 1], rs, dedup) == Combine(v, pos, ls[..j], rs, dedup) + Row(v, pos, ls[j], rs, dedup)
  {
    assert ls[..j + 1][..j] == ls[..j];
  }

  /**
   * The j loop one step further, after the trees done stored before it: a
   * whole row more, and the rows so far stay within the whole combination.
   */
  lemma CombineStep(v: nat, pos: nat, ls: seq<Expr>, rs: seq<Expr>, j: nat, dedup: bool, done: seq<Expr>)
    requires j < |ls|
    ensures done + Combine(v, pos, ls[..j + 1], rs, dedup) == done + Combine(v, pos, ls[..j], rs, dedup) + Row(v, pos, ls[j], rs, dedup)
    ensures |Combine(v, pos, ls[..j + 1], rs, dedup)| <= |Combine(v, pos, ls, rs, dedup)|
  {
    CombineNext(v, pos, ls, rs, j, dedup);
    CombinePrefixLength(v, pos, ls, rs, j + 1, dedup);
  }

  /**
   * The CATALAN[length] entries bracketTree allocates for its results are
   * enough: C(L - 1) <= C(L) and the table holds the Catalan numbers.
   */
  lemma CandidatesFit(nums: seq<real>, base: nat, v: nat, dedup: bool)
    requires 1 <= |nums| <= MaxNumbers
    ensures |Candidates(nums, base, v, dedup)| <= Catalan(|nums| - 1) <= CatalanTable[|nums|]
  {
    if dedup {
      DedupCountBound(nums, base, v);
    } else {
      CandidatesCount(nums, base, v);
    }
    CatalanMonotone(|nums| - 1);
    CatalanTableIsCatalan();
    assert CatalanTable[|nums|] == Catalan(|nums|);
  }
}
