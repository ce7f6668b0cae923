/**
 * Counting: the integer power used for the number of operator vectors,
 * factorials (the number of arrangements QuickPerm visits) and the Catalan
 * numbers that size every candidate array of the bracket enumerator.
 */
module Counting {

  /** MAX_NUMBERS_TO_ADD: the largest count of numbers the program accepts. */
  const MaxNumbers: nat := 18

  /** The precomputed CATALAN table, indices 0 .. MaxNumbers. */
  const CatalanTable: seq<nat> := [1, 1, 2, 5, 14, 42, 132, 429, 1430, 4862, 16796, 58786,
    208012, 742900, 2674440, 9694845, 35357670, 129644790, 477638700]

  /** ipow: b^e for e >= 0 and 1 for every e <= 0 (unbounded integers). */
  function IPow(b: int, e: int): (r: int)
    ensures e <= 0 ==> r == 1
    ensures b >= 1 ==> r >= 1
    decreases e
  {
    if e <= 0 then 1 else b * IPow(b, e - 1)
  }

  /** A C int: 32-bit two's complement. */
  function Int32(x: int): (r: int)
    ensures -0x8000_0000 <= r < 0x8000_0000
    ensures (r - x) % 0x1_0000_0000 == 0
  {
    var m := x % 0x1_0000_0000;
    if m >= 0x8000_0000 then m - 0x1_0000_0000 else m
  }

  /**
   * ipow as the program runs it: every product is an int, so it wraps
   * around once b^e no longer fits in 32 bits.
   */
  function IPowInt32(b: int, e: int): (r: int)
    ensures -0x8000_0000 <= r < 0x8000_0000
    decreases e
  {
    if e <= 0 then 1 else Int32(b * IPowInt32(b, e - 1))
  }

  /** Below 2^31 the int computation is exact: ipow(4, N - 1) is right for N <= 16. */
  lemma {:induction false} IPowInt32Exact(e: nat)
    requires e <= 15
    ensures IPowInt32(4, e) == IPow(4, e)
    ensures IPow(4, e) < 0x8000_0000
  {
    if e > 0 {
      IPowInt32Exact(e - 1);
      IPowMono(4, e - 1, 14);
      FourToThe14();
      Int32Small(4 * IPow(4, e - 1));
    }
  }

  lemma Int32Small(x: int)
    requires 0 <= x < 0x8000_0000
    ensures Int32(x) == x
  {
  }

  lemma FourToThe14()
    ensures IPow(4, 14) == 0x1000_0000
  {
    assert IPow(4, 1) == 4;
    assert IPow(4, 2) == 16;
    assert IPow(4, 3) == 64;
    assert IPow(4, 4) == 256;
    assert IPow(4, 5) == 1024;
    assert IPow(4, 6) == 4096;
    assert IPow(4, 7) == 16384;
    assert IPow(4, 8) == 65536;
    assert IPow(4, 9) == 262144;
    assert IPow(4, 10) == 1048576;
    assert IPow(4, 11) == 4194304;
    assert IPow(4, 12) == 16777216;
    assert IPow(4, 13) == 67108864;
    assert IPow(4, 14) == 268435456;
  }

  /** Powers of a positive base grow with the exponent. */
  lemma {:induction false} IPowMono(b: int, e1: nat, e2: nat)
    requires b >= 1 && e1 <= e2
    ensures IPow(b, e1) <= IPow(b, e2)
    decreases e2
  {
    if e1 < e2 {
      IPowMono(b, e1, e2 - 1);
      var x := IPow(b, e2 - 1);
      assert b * x == x + (b - 1) * x;
    }
  }

  /**
   * For N = 17 and N = 18 the number of operator vectors, 4^(N - 1), is
   * 2^32 or more and the int computation gives 0, so main's opVector loop
   * does not run at all.
   */
  lemma IPowInt32Overflows()
    ensures IPowInt32(4, 16) == 0 && IPow(4, 16) == 0x1_0000_0000
    ensures IPowInt32(4, 17) == 0 && IPow(4, 17) == 0x4_0000_0000
  {
    FourToThe14();
    IPowInt32Exact(15);
    assert IPowInt32(4, 16) == Int32(0x1_0000_0000);
  }

  function Fact(n: nat): (r: nat)
    ensures r >= 1
  {
    if n == 0 then 1 else n * Fact(n - 1)
  }

  /**
   * The Catalan numbers by their recurrence:
   * Catalan(0) = 1 and Catalan(n) = sum over k < n of Catalan(k) * Catalan(n - 1 - k).
   */
  function Catalan(n: nat): (c: nat)
    ensures c >= 1
    decreases n, 1
  {
    if n == 0 then 1 else CatalanSum(n - 1, n)
  }

  /** The first m terms of the convolution sum Catalan(k) * Catalan(n - k), k < m. */
  function CatalanSum(n: nat, m: nat): (s: nat)
    requires m <= n + 1
    ensures m >= 1 ==> s >= 1
    decreases n + 1, 0, m
  {
    if m == 0 then 0 else CatalanSum(n, m - 1) + Catalan(m - 1) * Catalan(n - (m - 1))
  }

  /** Products of naturals grow with their factors. */
  lemma MulAtMost(a: nat, aa: nat, b: nat, bb: nat)
    requires a <= aa && b <= bb
    ensures a * b <= aa * bb
  {
    MulMonotone(a, aa, b);
    MulMonotone(b, bb, aa);
  }

  lemma MulSucc(a: nat, b: nat)
    ensures (a + 1) * b == a * b + b
  {
  }

  lemma {:induction false} MulMonotone(x: nat, y: nat, k: nat)
    requires x <= y
    ensures x * k <= y * k
    decreases k
  {
    if k > 0 {
      MulMonotone(x, y, k - 1);
      assert x * k == x * (k - 1) + x && y * k == y * (k - 1) + y;
    }
  }

  /** C(n) <= C(n + 1): the capacity CATALAN[L] covers the C(L - 1) results over L numbers. */
  lemma {:induction false} CatalanMonotone(n: nat)
    ensures Catalan(n) <= Catalan(n + 1)
  {
    assert Catalan(n + 1) == CatalanSum(n, n) + Catalan(n) * Catalan(0);
  }

  /** The same convolution over the entries of a table instead of Catalan itself. */
  function TableSum(c: seq<nat>, n: nat, m: nat): nat
    requires m <= n + 1 <= |c|
  {
    if m == 0 then 0 else TableSum(c, n, m - 1) + c[m - 1] * c[n - (m - 1)]
  }

  /** A table of the Catalan recurrence: starts at 1 and every later entry is its convolution sum. */
  ghost predicate SatisfiesCatalanRecurrence(c: seq<nat>)
  {
    |c| >= 1 && c[0] == 1 &&
    forall n :: 1 <= n < |c| ==> IsConvolution(c, n)
  }

  /** Entry n of the table is the convolution sum of the entries before it. */
  ghost predicate IsConvolution(c: seq<nat>, n: nat)
    requires 1 <= n < |c|
  {
    c[n] == TableSum(c, n - 1, n)
  }

  /** Rows 1 .. 6 of the table are convolution sums of the rows before them. */
  lemma CatalanTableRows1To6()
    ensures forall n :: 1 <= n <= 6 ==> CatalanTable[n] == TableSum(CatalanTable, n - 1, n)
  {
    var c := CatalanTable;
    assert c[1] == TableSum(c, 0, 1);
    assert c[2] == TableSum(c, 1, 2);
    assert c[3] == TableSum(c, 2, 3);
    assert TableSum(c, 3, 3) == 9;
    assert c[4] == TableSum(c, 3, 4);
    assert TableSum(c, 4, 3) == 23;
    assert c[5] == TableSum(c, 4, 5);
    assert TableSum(c, 5, 3) == 66;
    assert c[6] == TableSum(c, 5, 6);
  }

  /** Rows 7 .. 9 of the table are convolution sums of the rows before them. */
  lemma CatalanTableRows7To9()
    ensures forall n :: 7 <= n <= 9 ==> CatalanTable[n] == TableSum(CatalanTable, n - 1, n)
  {
    var c := CatalanTable;
    assert TableSum(c, 6, 3) == 202;
    assert TableSum(c, 6, 6) == 297;
    assert c[7] == TableSum(c, 6, 7);
    assert TableSum(c, 7, 3) == 645;
    assert TableSum(c, 7, 6) == 869;
    assert c[8] == TableSum(c, 7, 8);
    assert TableSum(c, 8, 3) == 2123;
    assert TableSum(c, 8, 6) == 2739;
    assert c[9] == TableSum(c, 8, 9);
  }

  /** Rows 10 .. 12 of the table are convolution sums of the rows before them. */
  lemma CatalanTableRows10To12()
    ensures forall n :: 10 <= n <= 12 ==> CatalanTable[n] == TableSum(CatalanTable, n - 1, n)
  {
    var c := CatalanTable;
    assert TableSum(c, 9, 3) == 7150;
    assert TableSum(c, 9, 6) == 8986;
    assert TableSum(c, 9, 9) == 11934;
    assert c[10] == TableSum(c, 9, 10);
    assert TableSum(c, 10, 3) == 24518;
    assert TableSum(c, 10, 6) == 30275;
    assert TableSum(c, 10, 9) == 37128;
    assert c[11] == TableSum(c, 10, 11);
    assert TableSum(c, 11, 3) == 85306;
    assert TableSum(c, 11, 6) == 104006;
    assert TableSum(c, 11, 9) == 122706;
    assert c[12] == TableSum(c, 11, 12);
  }

  /** Rows 13 .. 14 of the table are convolution sums of the rows before them. */
  lemma CatalanTableRows13To14()
    ensures forall n :: 13 <= n <= 14 ==> CatalanTable[n] == TableSum(CatalanTable, n - 1, n)
  {
    var c := CatalanTable;
    assert TableSum(c, 12, 3) == 300390;
    assert TableSum(c, 12, 6) == 362738;
    assert TableSum(c, 12, 9) == 418200;
    assert TableSum(c, 12, 12) == 534888;
    assert c[13] == TableSum(c, 12, 13);
    assert TableSum(c, 13, 3) == 1068484;
    assert TableSum(c, 13, 6) == 1280592;
    assert TableSum(c, 13, 9) == 1453908;
    assert TableSum(c, 13, 12) == 1723528;
    assert c[14] == TableSum(c, 13, 14);
  }

  /** Rows 15 .. 16 of the table are convolution sums of the rows before them. */
  lemma CatalanTableRows15To16()
    ensures forall n :: 15 <= n <= 16 ==> CatalanTable[n] == TableSum(CatalanTable, n - 1, n)
  {
    var c := CatalanTable;
    assert TableSum(c, 14, 3) == 3833364;
    assert TableSum(c, 14, 6) == 4566642;
    assert TableSum(c, 14, 9) == 5128203;
    assert TableSum(c, 14, 12) == 5861481;
    assert c[15] == TableSum(c, 14, 15);
    assert TableSum(c, 15, 3) == 13855085;
    assert TableSum(c, 15, 6) == 16423581;
    assert TableSum(c, 15, 9) == 18292305;
    assert TableSum(c, 15, 12) == 20462525;
    assert TableSum(c, 15, 15) == 25662825;
    assert c[16] == TableSum(c, 15, 16);
  }

  /** Rows 17 .. 18 of the table are convolution sums of the rows before them. */
  lemma CatalanTableRows17To18()
    ensures forall n :: 17 <= n <= 18 ==> CatalanTable[n] == TableSum(CatalanTable, n - 1, n)
  {
    var c := CatalanTable;
    assert TableSum(c, 16, 3) == 50401395;
    assert TableSum(c, 16, 6) == 59497075;
    assert TableSum(c, 16, 9) == 65844845;
    assert TableSum(c, 16, 12) == 72616727;
    assert TableSum(c, 16, 15) == 84592275;
    assert c[17] == TableSum(c, 16, 17);
    assert TableSum(c, 17, 3) == 184392150;
    assert TableSum(c, 17, 6) == 216901454;
    assert TableSum(c, 17, 9) == 238819350;
    assert TableSum(c, 17, 12) == 260737246;
    assert TableSum(c, 17, 15) == 293246550;
    assert c[18] == TableSum(c, 17, 18);
  }
  /** The table as written satisfies the Catalan recurrence. */
  lemma CatalanTableRecurrence()
    ensures SatisfiesCatalanRecurrence(CatalanTable)
  {
    CatalanTableRows1To6();
    CatalanTableRows7To9();
    CatalanTableRows10To12();
    CatalanTableRows13To14();
    CatalanTableRows15To16();
    CatalanTableRows17To18();
  }

  /** Over a prefix that agrees with Catalan, the table's convolution sum is Catalan's. */
  lemma {:induction false} TableSumAgrees(c: seq<nat>, n: nat, m: nat)
    requires m <= n + 1 <= |c|
    requires forall k :: 0 <= k <= n ==> c[k] == Catalan(k)
    ensures TableSum(c, n, m) == CatalanSum(n, m)
  {
    if m > 0 {
      TableSumAgrees(c, n, m - 1);
    }
  }

  /** Any table of the Catalan recurrence holds the Catalan numbers, entry by entry. */
  lemma {:induction false} RecurrenceTableIsCatalan(c: seq<nat>, n: nat)
    requires SatisfiesCatalanRecurrence(c)
    requires n < |c|
    ensures forall k :: 0 <= k <= n ==> c[k] == Catalan(k)
  {
    if n > 0 {
      RecurrenceTableIsCatalan(c, n - 1);
      TableSumAgrees(c, n - 1, n);
      assert IsConvolution(c, n);
      assert c[n] == Catalan(n);
    }
  }

  /** Every entry of CATALAN, indices 0 .. MaxNumbers, is the Catalan number of its index. */
  lemma CatalanTableIsCatalan()
    ensures |CatalanTable| == MaxNumbers + 1
    ensures forall n :: 0 <= n <= MaxNumbers ==> CatalanTable[n] == Catalan(n)
  {
    CatalanTableRecurrence();
    RecurrenceTableIsCatalan(CatalanTable, MaxNumbers);
  }
}
