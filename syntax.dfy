/**
 * Syntax: the fully bracketed infix expressions the program prints, read
 * back and evaluated with ordinary arithmetic. A printed expression is a
 * numeral or "(" left " " glyph " " right ")".
 */
module Syntax {
  import opened Operators
  import opened Decimal

  /** A parsed expression: an integer literal or a bracketed binary operation. */
  datatype Term = Lit(n: int) | Bin(op: Op, left: Term, right: Term)

  function EvalTerm(t: Term): Value
  {
    match t
    case Lit(n) => Num(n as real)
    case Bin(o, l, r) => Apply(o, EvalTerm(l), EvalTerm(r))
  }

  /** The printed form of a term. */
  function Show(t: Term): string
  {
    match t
    case Lit(n) => IntToString(n)
    case Bin(o, l, r) => "(" + Show(l) + " " + [Glyph(o)] + " " + Show(r) + ")"
  }

  /** Reads one term at the front of s; gives the term and what follows it. */
  function ParseTerm(s: string): (r: Option<(Term, string)>)
    ensures r.Some? ==> |r.value.1| < |s|
    decreases |s|
  {
    if |s| > 0 && s[0] == '(' then
      match ParseTerm(s[1..])
      case None => None
      case Some((l, s1)) =>
        if |s1| >= 3 && s1[0] == ' ' && OpOfGlyph(s1[1]).Some? && s1[2] == ' ' then
          match ParseTerm(s1[3..])
          case None => None
          case Some((r, s2)) =>
            if |s2| > 0 && s2[0] == ')' then Some((Bin(OpOfGlyph(s1[1]).value, l, r), s2[1..]))
            else None
        else None
    else
      match ParseInt(s)
      case None => None
      case Some((n, rest)) => Some((Lit(n), rest))
  }

  /** Reads a whole string as one term, with nothing left over. */
  function Parse(s: string): Option<Term>
  {
    match ParseTerm(s)
    case Some((t, rest)) => if rest == [] then Some(t) else None
    case None => None
  }

  /** A printed term followed by anything but a digit reads back as itself. */
  lemma {:induction false} ParseShow(t: Term, rest: string)
    requires rest == [] || !IsDigit(rest[0])
    ensures ParseTerm(Show(t) + rest) == Some((t, rest))
  {
    match t
    case Lit(n) =>
      ParseLit(n, rest);
    case Bin(o, l, r) =>
      var s2 := ")" + rest;
      var s1 := " " + [Glyph(o)] + " " + (Show(r) + s2);
      ShowBinShape(o, l, r, rest);
      ParseShow(l, s1);
      ParseShow(r, s2);
      ParseBracket(Show(t) + rest, o, l, r, s1, s2);
  }

  /** How the printed form of a bracketed operation splits into its parts. */
  lemma ShowBinShape(o: Op, l: Term, r: Term, rest: string)
    ensures var s2 := ")" + rest;
      var s1 := " " + [Glyph(o)] + " " + (Show(r) + s2);
      var s := Show(Bin(o, l, r)) + rest;
      |s| > 0 && s[0] == '(' && s[1..] == Show(l) + s1 &&
      |s1| >= 3 && s1[0] == ' ' && s1[1] == Glyph(o) && s1[2] == ' ' && s1[3..] == Show(r) + s2 &&
      s2[0] == ')' && s2[1..] == rest
  {
    var a, b, g := Show(l), Show(r), " " + [Glyph(o)] + " ";
    var s2 := ")" + rest;
    var s1 := g + (b + s2);
    calc {
      Show(Bin(o, l, r)) + rest;
      ((("(" + a + " " + [Glyph(o)]) + " ") + b + ")") + rest;
      { Assoc("(" + a + " " + [Glyph(o)] + " " + b, ")", rest); }
      ((("(" + a + " " + [Glyph(o)]) + " ") + b) + s2;
      { Assoc("(" + a + " " + [Glyph(o)] + " ", b, s2); }
      (("(" + a + " " + [Glyph(o)]) + " ") + (b + s2);
      { Assoc("(" + a + " ", [Glyph(o)], " "); Assoc("(" + a, " ", [Glyph(o)] + " "); }
      ("(" + a) + g + (b + s2);
      { Assoc("(" + a, g, b + s2); Assoc("(", a, s1); }
      "(" + (a + s1);
    }
  }

  /** Concatenation is associative. */
  lemma Assoc(x: string, y: string, z: string)
    ensures x + y + z == x + (y + z)
  {
  }

  /** A numeral is read by ParseInt. */
  lemma ParseLit(n: int, rest: string)
    requires rest == [] || !IsDigit(rest[0])
    ensures ParseTerm(IntToString(n) + rest) == Some((Lit(n), rest))
  {
    ParseIntToString(n, rest);
    var s := IntToString(n);
    assert s[0] == '-' || IsDigit(s[0]);
    assert (s + rest)[0] == s[0];
  }

  /** A bracketed operation is read once both of its operands are. */
  lemma ParseBracket(s: string, o: Op, l: Term, r: Term, s1: string, s2: string)
    requires |s| > 0 && s[0] == '(' && ParseTerm(s[1..]) == Some((l, s1))
    requires |s1| >= 3 && s1[0] == ' ' && s1[1] == Glyph(o) && s1[2] == ' '
    requires ParseTerm(s1[3..]) == Some((r, s2))
    requires |s2| > 0 && s2[0] == ')'
    ensures ParseTerm(s) == Some((Bin(o, l, r), s2[1..]))
  {
  }

  /** Show and Parse are inverse: every term's printed form parses back to it. */
  lemma ParseShowWhole(t: Term)
    ensures Parse(Show(t)) == Some(t)
  {
    ParseShow(t, []);
    assert Show(t) + [] == Show(t);
  }
}
