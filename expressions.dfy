/**
 * Expressions: the candidates that bracketTree builds, as trees. A candidate
 * is stored by the program as a value (solutions.list) and a text
 * (solutions.visual); both are functions of the tree and the operator
 * vector, which is what makes them agree.
 */
module Expressions {
  import opened Operators
  import opened Decimal
  import opened Syntax

  /**
   * A leaf number, or a node combining two candidates with the operator at
   * position pos of the operator vector.
   */
  datatype Expr = Leaf(x: real) | Node(pos: nat, left: Expr, right: Expr)

  /** The value stored in solutions.list: a leaf's number, a node's op(left, right, pos). */
  function Eval(e: Expr, v: nat): Value
  {
    match e
    case Leaf(x) => Num(x)
    case Node(p, l, r) => OpValue(v, Eval(l, v), Eval(r, v), p)
  }

  /** No node of e selects the division operator under v. */
  predicate DivisionFree(e: Expr, v: nat)
  {
    match e
    case Leaf(_) => true
    case Node(p, l, r) => DigitAt(v, p) != 3 && DivisionFree(l, v) && DivisionFree(r, v)
  }

  /** Only a division can make a candidate's value Undefined. */
  lemma {:induction false} EvalDivisionFree(e: Expr, v: nat)
    requires DivisionFree(e, v)
    ensures Eval(e, v).Num?
  {
    match e
    case Leaf(_) =>
    case Node(p, l, r) =>
      EvalDivisionFree(l, v);
      EvalDivisionFree(r, v);
      OpValueByDigit(v, Eval(l, v), Eval(r, v), p);
  }

  /** The text stored in solutions.visual: "%ld" of a leaf, "(%s %c %s)" of a node. */
  function Render(e: Expr, v: nat): string
  {
    match e
    case Leaf(x) => IntToString(Trunc(x))
    case Node(p, l, r) => "(" + Render(l, v) + " " + [VisOp(v, p)] + " " + Render(r, v) + ")"
  }

  /** The numbers at the leaves, left to right. */
  function Leaves(e: Expr): (s: seq<real>)
    ensures |s| >= 1
  {
    match e
    case Leaf(x) => [x]
    case Node(_, l, r) => Leaves(l) + Leaves(r)
  }

  /** The number of internal nodes, that is, of operators in the expression. */
  function InternalCount(e: Expr): nat
  {
    match e
    case Leaf(_) => 0
    case Node(_, l, r) => 1 + InternalCount(l) + InternalCount(r)
  }

  /** The printed text of a candidate is never empty, and a node's text is enclosed in brackets. */
  lemma RenderShape(e: Expr, v: nat)
    ensures |Render(e, v)| >= 1
    ensures e.Node? ==> Render(e, v)[0] == '(' && Render(e, v)[|Render(e, v)| - 1] == ')'
  {
  }

  /** The printed text of a candidate holds one pair of brackets per operator; a number's text has none. */
  lemma {:induction false} RenderBrackets(e: Expr, v: nat)
    ensures multiset(Render(e, v))['('] == InternalCount(e) == multiset(Render(e, v))[')']
  {
    match e
    case Leaf(x) =>
      NumberTextUnbracketed(Trunc(x));
    case Node(p, l, r) =>
      RenderBrackets(l, v);
      RenderBrackets(r, v);
      BracketedCounts(Render(l, v), VisOp(v, p), Render(r, v));
  }

  /** "(left c right)" holds one more of each bracket than left and right together, for c not a bracket. */
  lemma BracketedCounts(sl: string, c: char, sr: string)
    requires c != '(' && c != ')'
    ensures multiset("(" + sl + " " + [c] + " " + sr + ")")['('] == 1 + multiset(sl)['('] + multiset(sr)['(']
    ensures multiset("(" + sl + " " + [c] + " " + sr + ")")[')'] == multiset(sl)[')'] + multiset(sr)[')'] + 1
  {
    var m := multiset("(" + sl + " " + [c] + " " + sr + ")");
    assert m == multiset("(") + multiset(sl) + multiset(" ") + multiset([c]) + multiset(" ") + multiset(sr) + multiset(")");
  }

  /** "%ld" prints a sign and digits, no bracket. */
  lemma NumberTextUnbracketed(n: int)
    ensures multiset(IntToString(n))['('] == 0 && multiset(IntToString(n))[')'] == 0
  {
    var s := IntToString(n);
    assert forall i :: 0 <= i < |s| ==> s[i] == '-' || IsDigit(s[i]);
    assert '(' !in s && ')' !in s;
  }

  /** The operator positions the internal nodes consult, root first, then the left part, then the right. */
  function Positions(e: Expr): seq<nat>
  {
    match e
    case Leaf(_) => []
    case Node(p, l, r) => [p] + Positions(l) + Positions(r)
  }

  /**
   * The positions bracketTree assigns when called at base b: the root takes
   * b, the left part base b + 1 and the right part base b + (leaves of the left part).
   */
  ghost predicate Positioned(e: Expr, b: nat)
  {
    match e
    case Leaf(_) => true
    case Node(p, l, r) => p == b && Positioned(l, b + 1) && Positioned(r, b + |Leaves(l)|)
  }

  /** The positions b, b + 1, .., b + n - 1. */
  function Consecutive(b: nat, n: nat): (s: seq<nat>)
    ensures |s| == n && forall k :: 0 <= k < n ==> s[k] == b + k
  {
    seq(n, k requires 0 <= k < n => b + k)
  }

  /**
   * The duplicate rule of DONT_LIST_DUPLICATES, at every node: where the
   * operator digit is even (+ or *) the left value is at most the right one.
   */
  ghost predicate Canonical(e: Expr, v: nat)
  {
    match e
    case Leaf(_) => true
    case Node(p, l, r) =>
      Canonical(l, v) && Canonical(r, v) &&
      (DigitAt(v, p) % 2 == 1 || LessEq(Eval(l, v), Eval(r, v)))
  }

  /** The expression with each position replaced by its operator and each leaf by its printed integer. */
  function ToTerm(e: Expr, v: nat): Term
  {
    match e
    case Leaf(x) => Lit(Trunc(x))
    case Node(p, l, r) => Bin(OpAt(v, p), ToTerm(l, v), ToTerm(r, v))
  }

  /** An expression over L numbers has L - 1 operators. */
  lemma {:induction false} InternalCountLeaves(e: Expr)
    ensures InternalCount(e) == |Leaves(e)| - 1
  {
    match e
    case Leaf(_) =>
    case Node(_, l, r) =>
      InternalCountLeaves(l);
      InternalCountLeaves(r);
  }

  /**
   * An expression positioned at base b over L numbers consults the positions
   * b .. b + L - 2, one per internal node and each at one node only.
   */
  lemma {:induction false} PositionedPositions(e: Expr, b: nat)
    requires Positioned(e, b)
    ensures Positions(e) == Consecutive(b, |Leaves(e)| - 1)
    ensures |Positions(e)| == InternalCount(e)
    ensures forall j, k :: 0 <= j < k < |Positions(e)| ==> Positions(e)[j] != Positions(e)[k]
  {
    match e
    case Leaf(_) =>
    case Node(p, l, r) =>
      var i, n := |Leaves(l)|, |Leaves(r)|;
      PositionedPositions(l, b + 1);
      PositionedPositions(r, b + i);
      ConsecutiveJoin(b, i, n);
  }

  /** The root position and the runs of the two parts join into one run. */
  lemma ConsecutiveJoin(b: nat, i: nat, n: nat)
    requires i >= 1 && n >= 1
    ensures [b] + Consecutive(b + 1, i - 1) + Consecutive(b + i, n - 1) == Consecutive(b, i + n - 1)
  {
  }

  /** The text is the printed form of the expression's term. */
  lemma {:induction false} RenderIsShow(e: Expr, v: nat)
    ensures Render(e, v) == Show(ToTerm(e, v))
  {
    match e
    case Leaf(_) =>
    case Node(p, l, r) =>
      RenderIsShow(l, v);
      RenderIsShow(r, v);
  }

  /** Over integral numbers, the term of an expression evaluates to the expression's value. */
  lemma {:induction false} ToTermValue(e: Expr, v: nat)
    requires forall i :: 0 <= i < |Leaves(e)| ==> IsIntegral(Leaves(e)[i])
    ensures EvalTerm(ToTerm(e, v)) == Eval(e, v)
  {
    match e
    case Leaf(x) =>
      assert Leaves(e)[0] == x;
      TruncIntegral(x);
    case Node(p, l, r) =>
      assert forall i :: 0 <= i < |Leaves(l)| ==> Leaves(l)[i] == Leaves(e)[i];
      assert forall i :: 0 <= i < |Leaves(r)| ==> Leaves(r)[i] == Leaves(e)[|Leaves(l)| + i];
      ToTermValue(l, v);
      ToTermValue(r, v);
  }

  /**
   * Value and text agree: the stored text parses as a fully bracketed
   * expression, and when the numbers are integers (so that "%ld" prints
   * them exactly) evaluating it gives the stored value.
   */
  lemma TextAgreesWithValue(e: Expr, v: nat)
    ensures Parse(Render(e, v)) == Some(ToTerm(e, v))
    ensures (forall i :: 0 <= i < |Leaves(e)| ==> IsIntegral(Leaves(e)[i])) ==>
      EvalTerm(ToTerm(e, v)) == Eval(e, v)
  {
    RenderIsShow(e, v);
    ParseShowWhole(ToTerm(e, v));
    if forall i :: 0 <= i < |Leaves(e)| ==> IsIntegral(Leaves(e)[i]) {
      ToTermValue(e, v);
    }
  }
}
