/**
 * Operators: the operator vector as a string of base-4 digits, the four
 * operators it selects, their arithmetic on the program's values and their
 * printed glyphs (op and visOp in gameofmn.c).
 */
module Operators {
  import opened Counting

  /**
   * A value of the search. The program computes in double precision; here a
   * value is an exact real, and dividing by zero gives Undefined, which
   * every later operation keeps and which no comparison accepts.
   */
  datatype Value = Num(r: real) | Undefined

  /** One base-4 digit of the operator vector. */
  type Digit = d: nat | d < 4

  datatype Op = Add | Sub | Mul | Div

  /** opVector >> (k * 2): every step of two bits drops one base-4 digit. */
  function Shift(v: nat, k: nat): nat
  {
    if k == 0 then v else Shift(v / 4, k - 1)
  }

  /** Shifting by k base-4 digits divides by 4^k. */
  lemma {:induction false} ShiftDivides(v: nat, k: nat)
    ensures Shift(v, k) == v / IPow(4, k)
  {
    if k > 0 {
      ShiftDivides(v / 4, k - 1);
      DivideTwice(v, 4, IPow(4, k - 1));
    }
  }

  /** Dividing by d and then by m is dividing by d * m. */
  lemma DivideTwice(v: nat, d: nat, m: nat)
    requires d >= 1 && m >= 1
    ensures v / d / m == v / (d * m)
  {
    var q, r := v / d, v % d;
    var q2, r2 := q / m, q % m;
    assert d * q == d * (m * q2) + d * r2;
    assert d * (m * q2) == (d * m) * q2;
    if r2 < m - 1 {
      MulAtLeast(d, m - 1 - r2);
      assert d * (m - 1 - r2) == d * m - d - d * r2;
    }
    DivUnique(v, d * m, q2, d * r2 + r);
  }

  /** The quotient is the one q with v == dd * q + r and 0 <= r < dd. */
  lemma DivUnique(v: int, dd: int, q: int, r: int)
    requires dd > 0 && 0 <= r < dd && v == dd * q + r
    ensures v / dd == q
  {
    var q0, r0 := v / dd, v % dd;
    assert dd * q0 + r0 == dd * q + r;
    if q0 > q {
      MulAtLeast(dd, q0 - q);
    } else if q0 < q {
      MulAtLeast(dd, q - q0);
    }
  }

  lemma {:induction false} MulAtLeast(dd: int, k: int)
    requires dd > 0 && k >= 1
    ensures dd * k >= dd
    decreases k
  {
    if k > 1 {
      MulAtLeast(dd, k - 1);
      assert dd * k == dd * (k - 1) + dd;
    }
  }

  /** (opVector >> (k * 2)) & 3: the digit at operator position k. */
  function DigitAt(v: nat, k: nat): Digit
  {
    Shift(v, k) % 4
  }

  /** The digit at operator position k is the k-th base-4 digit of the operator vector. */
  lemma DigitAtIsBase4Digit(v: nat, k: nat)
    ensures DigitAt(v, k) == v / IPow(4, k) % 4
  {
    ShiftDivides(v, k);
  }

  /** The switch shared by op and visOp: 0 is +, 1 is -, 2 is *, 3 is /. */
  function Decode(d: Digit): (o: Op)
    ensures d % 2 == 0 <==> o == Add || o == Mul
    ensures Encoding(o) == d
  {
    match d
    case 0 => Add
    case 1 => Sub
    case 2 => Mul
    case 3 => Div
  }

  /** The digit that selects an operator. */
  function Encoding(o: Op): Digit
  {
    match o
    case Add => 0
    case Sub => 1
    case Mul => 2
    case Div => 3
  }

  /** The operator at position k of the operator vector v: the one whose code is the digit there. */
  function OpAt(v: nat, k: nat): (o: Op)
    ensures Encoding(o) == DigitAt(v, k)
  {
    Decode(DigitAt(v, k))
  }

  /** The arithmetic of one operator; Undefined propagates and x / 0 is Undefined. */
  function Apply(o: Op, a: Value, b: Value): (r: Value)
    ensures r.Num? <==> a.Num? && b.Num? && !(o == Div && b.r == 0.0)
  {
    if a.Undefined? || b.Undefined? then Undefined
    else match o
      case Add => Num(a.r + b.r)
      case Sub => Num(a.r - b.r)
      case Mul => Num(a.r * b.r)
      case Div => if b.r == 0.0 then Undefined else Num(a.r / b.r)
  }

  /** op(A, B, optnum): combine two values with the operator at position optnum. */
  function OpValue(v: nat, a: Value, b: Value, optnum: nat): Value
  {
    Apply(OpAt(v, optnum), a, b)
  }

  /**
   * What op computes, digit by digit: 0 adds, 1 subtracts, 2 multiplies and
   * 3 divides; only a division by zero, or an Undefined operand, gives
   * Undefined.
   */
  lemma OpValueByDigit(v: nat, a: Value, b: Value, optnum: nat)
    ensures OpValue(v, a, b, optnum).Num? <==> a.Num? && b.Num? && !(DigitAt(v, optnum) == 3 && b.r == 0.0)
    ensures a.Num? && b.Num? ==>
      (DigitAt(v, optnum) == 0 ==> OpValue(v, a, b, optnum) == Num(a.r + b.r)) &&
      (DigitAt(v, optnum) == 1 ==> OpValue(v, a, b, optnum) == Num(a.r - b.r)) &&
      (DigitAt(v, optnum) == 2 ==> OpValue(v, a, b, optnum) == Num(a.r * b.r)) &&
      (DigitAt(v, optnum) == 3 && b.r != 0.0 ==> OpValue(v, a, b, optnum) == Num(a.r / b.r))
  {
  }

  /** The printed form of an operator: one of + - * /, which reads back as that operator. */
  function Glyph(o: Op): (c: char)
    ensures c in "+-*/"
    ensures OpOfGlyph(c) == Some(o)
  {
    match o
    case Add => '+'
    case Sub => '-'
    case Mul => '*'
    case Div => '/'
  }

  /** visOp(optnum): the glyph of the operator at position optnum. */
  function VisOp(v: nat, optnum: nat): char
  {
    Glyph(OpAt(v, optnum))
  }

  datatype Option<T> = None | Some(value: T)

  /** Reading a glyph back: the operator a printed expression names. */
  function OpOfGlyph(c: char): Option<Op>
  {
    if c == '+' then Some(Add)
    else if c == '-' then Some(Sub)
    else if c == '*' then Some(Mul)
    else if c == '/' then Some(Div)
    else None
  }

  /** The value comparison a <= b of the program; no comparison holds of Undefined. */
  predicate LessEq(a: Value, b: Value)
  {
    a.Num? && b.Num? && a.r <= b.r
  }

  /**
   * op and visOp agree: the operator named by the printed glyph, applied to
   * the operands, gives exactly what op computes at that position.
   */
  lemma OpAgreesWithGlyph(v: nat, optnum: nat, a: Value, b: Value)
    ensures DigitAt(v, optnum) == 0 <==> VisOp(v, optnum) == '+'
    ensures DigitAt(v, optnum) == 1 <==> VisOp(v, optnum) == '-'
    ensures DigitAt(v, optnum) == 2 <==> VisOp(v, optnum) == '*'
    ensures DigitAt(v, optnum) == 3 <==> VisOp(v, optnum) == '/'
    ensures OpOfGlyph(VisOp(v, optnum)).Some?
    ensures Apply(OpOfGlyph(VisOp(v, optnum)).value, a, b) == OpValue(v, a, b, optnum)
  {
  }

  /** The operators an even digit selects, + and *, are commutative. */
  lemma {:induction false} EvenDigitCommutes(v: nat, k: nat, a: Value, b: Value)
    requires DigitAt(v, k) % 2 == 0
    ensures OpValue(v, a, b, k) == OpValue(v, b, a, k)
  {
    var o := OpAt(v, k);
    assert o == Add || o == Mul;
    if a.Num? && b.Num? {
      if o == Add {
        assert a.r + b.r == b.r + a.r;
      } else {
        assert a.r * b.r == b.r * a.r;
      }
    }
  }

  /** The number whose base-4 digits, least significant first, are ds. */
  function Encode(ds: seq<Digit>): nat
  {
    if ds == [] then 0 else ds[0] + 4 * Encode(ds[1..])
  }

  /** The first n base-4 digits of v, least significant first. */
  function Digits(v: nat, n: nat): (ds: seq<Digit>)
    ensures |ds| == n
  {
    if n == 0 then [] else [(v % 4) as Digit] + Digits(v / 4, n - 1)
  }

  /** Digit k of v is the k-th of its digits, for every k below n. */
  lemma {:induction false} DigitAtIsDigits(v: nat, n: nat, k: nat)
    requires k < n
    ensures DigitAt(v, k) == Digits(v, n)[k]
  {
    if k > 0 {
      DigitAtIsDigits(v / 4, n - 1, k - 1);
    }
  }

  /** An encoding of n digits is an operator vector below 4^n. */
  lemma {:induction false} EncodeBound(ds: seq<Digit>)
    ensures Encode(ds) < IPow(4, |ds|)
  {
    if ds != [] {
      EncodeBound(ds[1..]);
    }
  }

  /** Decoding the encoding gives back every digit, and zeros beyond them. */
  lemma {:induction false} DigitAtEncode(ds: seq<Digit>, k: nat)
    ensures DigitAt(Encode(ds), k) == if k < |ds| then ds[k] else 0
  {
    if ds == [] {
      ShiftZero(k);
    } else {
      var v := Encode(ds);
      assert v % 4 == ds[0] && v / 4 == Encode(ds[1..]);
      if k > 0 {
        DigitAtEncode(ds[1..], k - 1);
      }
    }
  }

  /** Every digit of 0 is 0. */
  lemma {:induction false} ShiftZero(k: nat)
    ensures Shift(0, k) == 0
  {
    if k > 0 {
      ShiftZero(k - 1);
    }
  }

  /**
   * Every operator vector below 4^n is the encoding of its own n digits, so
   * the vectors 0 .. 4^n - 1 are exactly the assignments of n operators.
   */
  lemma {:induction false} EncodeDigits(v: nat, n: nat)
    requires v < IPow(4, n)
    ensures Encode(Digits(v, n)) == v
  {
    if n > 0 {
      assert v / 4 < IPow(4, n - 1);
      EncodeDigits(v / 4, n - 1);
      assert Digits(v, n)[1..] == Digits(v / 4, n - 1);
    }
  }
}
