/**
 * Orderings: the order in which quickPerm visits arrangements, described a
 * second time by recursion on the number of positions permuted (Heap's
 * method), and what that description gives: quickPerm reaches every ordering
 * of the positions exactly once, and the duplicate rule only skips
 * arrangements it has just tested.
 */
module Orderings {
  import opened Counting
  import opened Permutations

  // ---------------------------------------------------------------------
  // Heap's method, recursively

  /** The partner of position k - 1 in the c-th swap of a round over k positions: quickPerm's j with i == k - 1 and p[i] == c. */
  function RoundPartner(k: nat, c: nat): nat
  {
    if (k - 1) % 2 == 1 then c else 0
  }

  /** The arrangement left once every ordering of the first k positions of a has been produced. */
  function HeapLast<T>(k: nat, a: seq<T>): (b: seq<T>)
    requires 1 <= k <= |a|
    ensures |b| == |a|
    decreases k, k
  {
    if k == 1 then a else HeapLast(k - 1, BlockStart(k, k - 1, a))
  }

  /**
   * The arrangement block c of a round over k positions starts from: a for
   * the first block, then the end of the previous block with position k - 1
   * swapped with its partner.
   */
  function BlockStart<T>(k: nat, c: nat, a: seq<T>): (b: seq<T>)
    requires 2 <= k <= |a| && c < k
    ensures |b| == |a|
    decreases k, c
  {
    if c == 0 then a else Swapped(HeapLast(k - 1, BlockStart(k, c - 1, a)), k - 1, RoundPartner(k, c - 1))
  }

  /**
   * Every ordering of the first k positions of a, in the order they are
   * produced: k blocks, each every ordering of the first k - 1 positions of
   * its start.
   */
  function HeapOrder<T>(k: nat, a: seq<T>): (xs: seq<seq<T>>)
    requires 1 <= k <= |a|
    ensures |xs| >= 1 && xs[0] == a
    decreases k, k + 1
  {
    if k == 1 then [a] else BlocksFrom(k, 0, a)
  }

  /** Blocks c .. k - 1 of the round over k positions. */
  function BlocksFrom<T>(k: nat, c: nat, a: seq<T>): (xs: seq<seq<T>>)
    requires 2 <= k <= |a| && c <= k
    ensures c < k ==> |xs| >= 1 && xs[0] == BlockStart(k, c, a)
    decreases k, k - c
  {
    if c == k then [] else HeapOrder(k - 1, BlockStart(k, c, a)) + BlocksFrom(k, c + 1, a)
  }

  // ---------------------------------------------------------------------
  // Where each entry comes from

  /** After swapping i and j, position m holds what position SwapIndex(i, j, m) held. */
  function SwapIndex(i: nat, j: nat, m: nat): nat
  {
    if m == i then j else if m == j then i else m
  }

  /**
   * Position m of HeapLast(k, a) holds a[LastIndex(k, m)]: for odd k the
   * first and the k-th entries trade places, for even k the first k entries
   * move along a k-cycle.
   */
  function LastIndex(k: nat, m: nat): (r: nat)
    ensures m < k ==> r < k
    ensures m >= k ==> r == m
  {
    if m >= k then m
    else if k % 2 == 1 then (if m == 0 then k - 1 else if m == k - 1 then 0 else m)
    else if m == k - 1 then 0
    else if m == k - 2 then k - 1
    else if m == 0 then k - 3
    else if m == 1 then k - 2
    else m - 1
  }

  /** For odd k, the positions in the order block starts bring them to position k - 1. */
  function Orbit(k: nat, d: nat): (r: nat)
    requires d < k
    ensures r < k
  {
    if d == 0 then k - 1
    else if d == k - 1 then 0
    else if d == k - 2 then k - 2
    else if d == k - 3 then k - 3
    else k - 3 - d
  }

  /** The inverse of Orbit. */
  function OrbitIndex(k: nat, m: nat): (d: nat)
    requires m < k
    ensures d < k
  {
    if m == k - 1 then 0
    else if m == 0 then k - 1
    else if m == k - 2 then k - 2
    else if m == k - 3 then k - 3
    else k - 3 - m
  }

  /** d + c, modulo k. */
  function OrbitShift(k: nat, d: nat, c: nat): (r: nat)
    requires d < k && c < k
    ensures r < k
  {
    if d + c < k then d + c else d + c - k
  }

  /** Position m of BlockStart(k, c, a) holds a[BlockIndex(k, c, m)]. */
  function BlockIndex(k: nat, c: nat, m: nat): (r: nat)
    requires c < k
    ensures m < k ==> r < k
    ensures m >= k ==> r == m
  {
    if m >= k then m
    else if k % 2 == 1 then Orbit(k, OrbitShift(k, OrbitIndex(k, m), c))
    else EvenBlockIndex(k, c, m)
  }

  /** BlockIndex for even k. */
  function EvenBlockIndex(k: nat, c: nat, m: nat): (r: nat)
    requires c < k && m < k && k % 2 == 0
    ensures r < k
  {
    if c == 0 then m
    else if c == k - 1 then (if m == k - 1 then 0 else if m == 0 then k - 1 else if m == 1 then k - 2 else m - 1)
    else if c == 1 then (if m == 0 then k - 1 else if m == k - 2 then 0 else if m == k - 1 then k - 2 else m)
    else if m == 0 then (if c % 2 == 0 then 0 else k - 1)
    else if m == 1 then k - 2
    else if m < c then m - 1
    else if m <= k - 3 then m
    else if m == k - 2 then (if c % 2 == 0 then k - 1 else 0)
    else c - 1
  }

  lemma OrbitRoundTrip(k: nat, d: nat)
    requires k % 2 == 1 && d < k
    ensures OrbitIndex(k, Orbit(k, d)) == d && Orbit(k, OrbitIndex(k, d)) == d
  {
  }

  /** For odd k, one block moves every position one step along the orbit. */
  lemma OrbitStep(k: nat, m: nat)
    requires k % 2 == 1 && k >= 3 && m < k
    ensures OrbitIndex(k, LastIndex(k - 1, SwapIndex(0, k - 1, m))) == OrbitShift(k, OrbitIndex(k, m), 1)
  {
  }

  /** One block further into the round. */
  lemma IndexStep(k: nat, c: nat, m: nat)
    requires k >= 2 && c + 1 < k
    ensures BlockIndex(k, c + 1, m) == BlockIndex(k, c, LastIndex(k - 1, SwapIndex(k - 1, RoundPartner(k, c), m)))
  {
    if m < k && k % 2 == 1 {
      OrbitStep(k, m);
    }
  }

  /** The end of the round is the end of its last block. */
  lemma IndexLast(k: nat, m: nat)
    requires k >= 2
    ensures LastIndex(k, m) == BlockIndex(k, k - 1, LastIndex(k - 1, m))
  {
    if m < k && k % 2 == 1 {
      var m' := SwapIndex(0, k - 1, m);
      OrbitStep(k, m');
      assert SwapIndex(0, k - 1, m') == m;
      OrbitRoundTrip(k, m');
    }
  }

  /** The entries the k blocks of a round place at position k - 1 come from k different positions. */
  lemma BlockLastIndexDistinct(k: nat, c1: nat, c2: nat)
    requires k >= 2 && c1 < c2 < k
    ensures BlockIndex(k, c1, k - 1) != BlockIndex(k, c2, k - 1)
  {
    if k % 2 == 1 {
      OrbitRoundTrip(k, c1);
      OrbitRoundTrip(k, c2);
    }
  }

  /** HeapLast in closed form. */
  lemma {:induction false} LastForm<T>(k: nat, a: seq<T>)
    requires 1 <= k <= |a|
    ensures forall m :: 0 <= m < |a| ==> LastIndex(k, m) < |a| && HeapLast(k, a)[m] == a[LastIndex(k, m)]
    decreases k, k
  {
    if k > 1 {
      var x := BlockStart(k, k - 1, a);
      LastForm(k - 1, x);
      BlockForm(k, k - 1, a);
      forall m | 0 <= m < |a|
        ensures LastIndex(k, m) < |a| && HeapLast(k, a)[m] == a[LastIndex(k, m)]
      {
        IndexLast(k, m);
      }
    }
  }

  /** BlockStart in closed form. */
  lemma {:induction false} BlockForm<T>(k: nat, c: nat, a: seq<T>)
    requires 2 <= k <= |a| && c < k
    ensures forall m :: 0 <= m < |a| ==> BlockIndex(k, c, m) < |a| && BlockStart(k, c, a)[m] == a[BlockIndex(k, c, m)]
    decreases k, c
  {
    if c == 0 {
      forall m | 0 <= m < |a|
        ensures BlockIndex(k, 0, m) == m
      {
        if m < k && k % 2 == 1 {
          OrbitRoundTrip(k, m);
        }
      }
    } else {
      BlockForm(k, c - 1, a);
      forall m | 0 <= m < |a|
        ensures BlockIndex(k, c, m) < |a| && BlockStart(k, c, a)[m] == a[BlockIndex(k, c, m)]
      {
        BlockFormAt(k, c - 1, a, m);
      }
    }
  }

  /** One position of the closed form of block c + 1, from the closed forms of block c and its end. */
  lemma BlockFormAt<T>(k: nat, c: nat, a: seq<T>, m: nat)
    requires 2 <= k <= |a| && c + 1 < k && m < |a|
    requires forall q :: 0 <= q < |a| ==> BlockIndex(k, c, q) < |a| && BlockStart(k, c, a)[q] == a[BlockIndex(k, c, q)]
    ensures BlockIndex(k, c + 1, m) < |a| && BlockStart(k, c + 1, a)[m] == a[BlockIndex(k, c + 1, m)]
    decreases k, c + 1, 0
  {
    var x := BlockStart(k, c, a);
    LastForm(k - 1, x);
    var m1 := SwapIndex(k - 1, RoundPartner(k, c), m);
    var m2 := LastIndex(k - 1, m1);
    IndexStep(k, c, m);
    assert BlockStart(k, c + 1, a)[m] == HeapLast(k - 1, x)[m1];
    assert HeapLast(k - 1, x)[m1] == x[m2];
  }

  // ---------------------------------------------------------------------
  // What the orderings keep

  /** The first k entries of a are pairwise different. */
  ghost predicate Distinct<T>(a: seq<T>, k: nat)
    requires k <= |a|
  {
    forall m1, m2 :: 0 <= m1 < m2 < k ==> a[m1] != a[m2]
  }

  /** No ordering occurs twice. */
  ghost predicate NoDuplicates<T>(xs: seq<T>)
  {
    Distinct(xs, |xs|)
  }

  lemma SwappedDistinct<T>(a: seq<T>, i: nat, j: nat, k: nat)
    requires i < k && j < k && k <= |a| && Distinct(a, k)
    ensures Distinct(Swapped(a, i, j), k)
  {
    var b := Swapped(a, i, j);
    forall m1, m2 | 0 <= m1 < m2 < k
      ensures b[m1] != b[m2]
    {
      assert b[m1] == a[SwapIndex(i, j, m1)] && b[m2] == a[SwapIndex(i, j, m2)];
    }
  }

  /** HeapLast keeps the entries of a. */
  lemma {:induction false} LastMultiset<T>(k: nat, a: seq<T>)
    requires 1 <= k <= |a|
    ensures multiset(HeapLast(k, a)) == multiset(a)
    decreases k, k
  {
    if k > 1 {
      BlockStartMultiset(k, k - 1, a);
      LastMultiset(k - 1, BlockStart(k, k - 1, a));
    }
  }

  /** The same for the start of every block. */
  lemma {:induction false} BlockStartMultiset<T>(k: nat, c: nat, a: seq<T>)
    requires 2 <= k <= |a| && c < k
    ensures multiset(BlockStart(k, c, a)) == multiset(a)
    decreases k, c
  {
    if c > 0 {
      BlockStartMultiset(k, c - 1, a);
      BlockStepMultiset(k, c, a);
    }
  }

  /** Block c starts from the end of block c - 1 with two entries swapped. */
  lemma BlockStepMultiset<T>(k: nat, c: nat, a: seq<T>)
    requires 2 <= k <= |a| && 0 < c < k
    ensures multiset(BlockStart(k, c, a)) == multiset(BlockStart(k, c - 1, a))
  {
    var x := BlockStart(k, c - 1, a);
    var y, j := HeapLast(k - 1, x), RoundPartner(k, c - 1);
    assert BlockStart(k, c, a) == Swapped(y, k - 1, j);
    assert multiset(y) == multiset(x) by {
      LastMultiset(k - 1, x);
    }
    SwappedMultiset(y, k - 1, j);
  }

  /** HeapLast keeps different entries among the first n different. */
  lemma {:induction false} LastDistinct<T>(k: nat, a: seq<T>, n: nat)
    requires 1 <= k <= n <= |a| && Distinct(a, n)
    ensures Distinct(HeapLast(k, a), n)
    decreases k, k
  {
    if k > 1 {
      BlockStartDistinct(k, k - 1, a, n);
      LastDistinct(k - 1, BlockStart(k, k - 1, a), n);
    }
  }

  /** The same for the start of every block. */
  lemma {:induction false} BlockStartDistinct<T>(k: nat, c: nat, a: seq<T>, n: nat)
    requires 2 <= k <= n <= |a| && c < k && Distinct(a, n)
    ensures Distinct(BlockStart(k, c, a), n)
    decreases k, c
  {
    if c > 0 {
      var x := BlockStart(k, c - 1, a);
      var y := HeapLast(k - 1, x);
      assert BlockStart(k, c, a) == Swapped(y, k - 1, RoundPartner(k, c - 1));
      BlockStartDistinct(k, c - 1, a, n);
      LastDistinct(k - 1, x, n);
      SwappedDistinct(y, k - 1, RoundPartner(k, c - 1), n);
    }
  }

  /** An ordering of the first k positions: the same entries, and the entries from k on where they were. */
  ghost predicate Rearranges<T>(x: seq<T>, a: seq<T>, k: nat)
  {
    |x| == |a| && multiset(x) == multiset(a) && forall m :: k <= m < |a| ==> x[m] == a[m]
  }

  /** Every member of HeapOrder(k, a) is an ordering of the first k positions of a. */
  lemma {:induction false} HeapOrderRearranges<T>(k: nat, a: seq<T>)
    requires 1 <= k <= |a|
    ensures forall x :: x in HeapOrder(k, a) ==> Rearranges(x, a, k)
    decreases k, k + 1
  {
    if k > 1 {
      BlocksFromRearranges(k, 0, a);
    }
  }

  lemma {:induction false} BlocksFromRearranges<T>(k: nat, c: nat, a: seq<T>)
    requires 2 <= k <= |a| && c <= k
    ensures forall x :: x in BlocksFrom(k, c, a) ==> Rearranges(x, a, k)
    decreases k, k - c
  {
    if c < k {
      var y := BlockStart(k, c, a);
      var xs, ys := HeapOrder(k - 1, y), BlocksFrom(k, c + 1, a);
      assert BlocksFrom(k, c, a) == xs + ys;
      assert Rearranges(y, a, k) by {
        BlockForm(k, c, a);
        BlockStartMultiset(k, c, a);
      }
      assert forall x :: x in xs ==> Rearranges(x, y, k - 1) by {
        HeapOrderRearranges(k - 1, y);
      }
      assert forall x :: x in ys ==> Rearranges(x, a, k) by {
        BlocksFromRearranges(k, c + 1, a);
      }
      RearrangesCompose(xs, y, a, k);
    }
  }

  /** Rearranging the first k - 1 positions of an ordering of the first k positions rearranges the first k. */
  lemma RearrangesCompose<T>(xs: seq<seq<T>>, y: seq<T>, a: seq<T>, k: nat)
    requires k >= 1 && Rearranges(y, a, k)
    requires forall x :: x in xs ==> Rearranges(x, y, k - 1)
    ensures forall x :: x in xs ==> Rearranges(x, a, k)
  {
    forall x | x in xs
      ensures Rearranges(x, a, k)
    {
      assert Rearranges(x, y, k - 1);
      assert forall m :: k <= m < |a| ==> x[m] == y[m] == a[m];
    }
  }

  /** There are k! orderings of k positions. */
  lemma {:induction false} HeapOrderCount<T>(k: nat, a: seq<T>)
    requires 1 <= k <= |a|
    ensures |HeapOrder(k, a)| == Fact(k)
    decreases k, k + 1
  {
    if k > 1 {
      BlocksFromCount(k, 0, a);
    }
  }

  lemma {:induction false} BlocksFromCount<T>(k: nat, c: nat, a: seq<T>)
    requires 2 <= k <= |a| && c <= k
    ensures |BlocksFrom(k, c, a)| == (k - c) * Fact(k - 1)
    decreases k, k - c
  {
    if c < k {
      HeapOrderCount(k - 1, BlockStart(k, c, a));
      BlocksFromCount(k, c + 1, a);
      MulSucc(k - c - 1, Fact(k - 1));
    }
  }

  /** The k blocks of a round put k different entries at position k - 1. */
  lemma BlockLastsDistinct<T>(k: nat, c1: nat, c2: nat, a: seq<T>)
    requires 2 <= k <= |a| && c1 < c2 < k && Distinct(a, k)
    ensures BlockStart(k, c1, a)[k - 1] != BlockStart(k, c2, a)[k - 1]
  {
    BlockForm(k, c1, a);
    BlockForm(k, c2, a);
    BlockLastIndexDistinct(k, c1, c2);
  }

  lemma NoDuplicatesConcat<T>(xs: seq<T>, ys: seq<T>)
    requires NoDuplicates(xs) && NoDuplicates(ys)
    requires forall x, y :: x in xs && y in ys ==> x != y
    ensures NoDuplicates(xs + ys)
  {
    var zs := xs + ys;
    forall q1, q2 | 0 <= q1 < q2 < |zs|
      ensures zs[q1] != zs[q2]
    {
      if q2 < |xs| {
        assert zs[q1] == xs[q1] && zs[q2] == xs[q2];
      } else if q1 >= |xs| {
        assert zs[q1] == ys[q1 - |xs|] && zs[q2] == ys[q2 - |xs|];
      } else {
        assert zs[q1] in xs && zs[q2] in ys;
      }
    }
  }

  /** Over pairwise different entries, no ordering is produced twice. */
  lemma {:induction false} HeapOrderDistinct<T>(k: nat, a: seq<T>)
    requires 1 <= k <= |a| && Distinct(a, k)
    ensures NoDuplicates(HeapOrder(k, a))
    decreases k, k + 1
  {
    if k > 1 {
      BlocksFromDistinct(k, 0, a);
    }
  }

  /**
   * Every ordering the blocks from c on produce has at position k - 1 an
   * entry that no earlier block start has there.
   */
  lemma {:induction false} BlocksFromAvoid<T>(k: nat, c: nat, a: seq<T>, c0: nat)
    requires 2 <= k <= |a| && c0 < c <= k && Distinct(a, k)
    ensures forall z :: z in BlocksFrom(k, c, a) ==> |z| == |a| && z[k - 1] != BlockStart(k, c0, a)[k - 1]
    decreases k - c
  {
    if c < k {
      var y := BlockStart(k, c, a);
      var xs, ys := HeapOrder(k - 1, y), BlocksFrom(k, c + 1, a);
      assert BlocksFrom(k, c, a) == xs + ys;
      BlockLastsDistinct(k, c0, c, a);
      BlockKeepsLast(k - 1, y);
      BlocksFromAvoid(k, c + 1, a, c0);
      forall z | z in xs + ys
        ensures |z| == |a| && z[k - 1] != BlockStart(k, c0, a)[k - 1]
      {
        if z !in xs {
          assert z in ys;
        }
      }
    }
  }

  /** The orderings of the first k positions leave position k where it was. */
  lemma BlockKeepsLast<T>(k: nat, y: seq<T>)
    requires 1 <= k < |y|
    ensures forall z :: z in HeapOrder(k, y) ==> |z| == |y| && z[k] == y[k]
  {
    HeapOrderRearranges(k, y);
    forall z | z in HeapOrder(k, y)
      ensures |z| == |y| && z[k] == y[k]
    {
      assert Rearranges(z, y, k);
    }
  }

  /**
   * Two lists without repeats, whose orderings agree at position m with w on
   * one side and differ there from w on the other, join into one without repeats.
   */
  lemma SeparatedConcat<T>(xs: seq<seq<T>>, ys: seq<seq<T>>, m: nat, w: T, nx: nat, ny: nat)
    requires NoDuplicates(xs) && NoDuplicates(ys) && m < nx && m < ny
    requires forall x :: x in xs ==> |x| == nx && x[m] == w
    requires forall z :: z in ys ==> |z| == ny && z[m] != w
    ensures NoDuplicates(xs + ys)
  {
    NoDuplicatesConcat(xs, ys);
  }

  /** The blocks from c on produce no ordering twice. */
  lemma {:induction false} BlocksFromDistinct<T>(k: nat, c: nat, a: seq<T>)
    requires 2 <= k <= |a| && c <= k && Distinct(a, k)
    ensures NoDuplicates(BlocksFrom(k, c, a))
    decreases k, k - c
  {
    if c < k {
      var y := BlockStart(k, c, a);
      var xs := HeapOrder(k - 1, y);
      var ys := BlocksFrom(k, c + 1, a);
      assert BlocksFrom(k, c, a) == xs + ys;
      assert NoDuplicates(xs) && |y| == |a| by {
        BlockStartDistinct(k, c, a, k);
        assert Distinct(y, k - 1);
        HeapOrderDistinct(k - 1, y);
      }
      assert NoDuplicates(ys) by {
        BlocksFromDistinct(k, c + 1, a);
      }
      assert forall x :: x in xs ==> |x| == |y| && x[k - 1] == y[k - 1] by {
        BlockKeepsLast(k - 1, y);
      }
      assert forall z :: z in ys ==> |z| == |a| && z[k - 1] != y[k - 1] by {
        BlocksFromAvoid(k, c + 1, a, c);
      }
      SeparatedConcat(xs, ys, k - 1, y[k - 1], |y|, |a|);
    }
  }

  // ---------------------------------------------------------------------
  // Orderings of positions

  /** a read through the positions pi; a position out of range reads a[0]. */
  function Reindex<T>(a: seq<T>, pi: seq<nat>): (b: seq<T>)
    requires |a| > 0
    ensures |b| == |pi|
    ensures forall m :: 0 <= m < |pi| && pi[m] < |a| ==> b[m] == a[pi[m]]
  {
    seq(|pi|, m requires 0 <= m < |pi| => if pi[m] < |a| then a[pi[m]] else a[0])
  }

  /** The positions 0 .. n - 1 in order. */
  function Identity(n: nat): (pi: seq<nat>)
    ensures |pi| == n && forall m :: 0 <= m < n ==> pi[m] == m
  {
    seq(n, m requires 0 <= m < n => m)
  }

  /** HeapLast treats entries alike: rearranging a read through pi is reading through the rearranged pi. */
  lemma LastReindex<T>(k: nat, a: seq<T>, pi: seq<nat>)
    requires 1 <= k <= |pi| && |a| > 0
    ensures HeapLast(k, Reindex(a, pi)) == Reindex(a, HeapLast(k, pi))
  {
    LastForm(k, Reindex(a, pi));
    LastForm(k, pi);
  }

  lemma BlockStartReindex<T>(k: nat, c: nat, a: seq<T>, pi: seq<nat>)
    requires 2 <= k <= |pi| && c < k && |a| > 0
    ensures BlockStart(k, c, Reindex(a, pi)) == Reindex(a, BlockStart(k, c, pi))
  {
    BlockForm(k, c, Reindex(a, pi));
    BlockForm(k, c, pi);
  }

  /** The orderings of a read through pi are the orderings of pi, each read through. */
  lemma {:induction false} HeapOrderReindex<T>(k: nat, a: seq<T>, pi: seq<nat>)
    requires 1 <= k <= |pi| && |a| > 0
    ensures |HeapOrder(k, Reindex(a, pi))| == |HeapOrder(k, pi)|
    ensures forall q :: 0 <= q < |HeapOrder(k, pi)| ==> HeapOrder(k, Reindex(a, pi))[q] == Reindex(a, HeapOrder(k, pi)[q])
    decreases k, k + 1
  {
    if k > 1 {
      BlocksFromReindex(k, 0, a, pi);
    }
  }

  lemma {:induction false} BlocksFromReindex<T>(k: nat, c: nat, a: seq<T>, pi: seq<nat>)
    requires 2 <= k <= |pi| && c <= k && |a| > 0
    ensures |BlocksFrom(k, c, Reindex(a, pi))| == |BlocksFrom(k, c, pi)|
    ensures forall q :: 0 <= q < |BlocksFrom(k, c, pi)| ==> BlocksFrom(k, c, Reindex(a, pi))[q] == Reindex(a, BlocksFrom(k, c, pi)[q])
    decreases k, k - c
  {
    if c < k {
      BlockStartReindex(k, c, a, pi);
      HeapOrderReindex(k - 1, a, BlockStart(k, c, pi));
      BlocksFromReindex(k, c + 1, a, pi);
      var xs, ys := HeapOrder(k - 1, BlockStart(k, c, pi)), BlocksFrom(k, c + 1, pi);
      var xs', ys' := HeapOrder(k - 1, BlockStart(k, c, Reindex(a, pi))), BlocksFrom(k, c + 1, Reindex(a, pi));
      assert BlocksFrom(k, c, pi) == xs + ys;
      assert BlocksFrom(k, c, Reindex(a, pi)) == xs' + ys';
      forall q | 0 <= q < |xs + ys|
        ensures (xs' + ys')[q] == Reindex(a, (xs + ys)[q])
      {
        if q >= |xs| {
          assert (xs' + ys')[q] == ys'[q - |xs|];
        }
      }
    }
  }

  // ---------------------------------------------------------------------
  // quickPerm follows Heap's method

  /** The arrangements of a list of visits, tested or not. */
  function ArrangementsOf(vs: seq<Visit>): (xs: seq<seq<real>>)
    ensures |xs| == |vs|
  {
    if vs == [] then [] else [vs[0].a] + ArrangementsOf(vs[1..])
  }

  /** The arrangements quickPerm visits from state s on, one per swap. */
  function Produced(s: PermState, n: nat): seq<seq<real>>
    requires Inv(s, n)
    decreases Fact(n) - VisitedCount(s, n), n - s.i
  {
    VisitedBound(s, n);
    if s.i >= n then []
    else if s.p[s.i] < s.i then
      var b := Swapped(s.a, s.i, Partner(s));
      SwapStep(s, n);
      VisitedBound(PermState(b, s.p[s.i := s.p[s.i] + 1], 1), n);
      [b] + Produced(PermState(b, s.p[s.i := s.p[s.i] + 1], 1), n)
    else
      ResetStep(s, n);
      VisitedBound(PermState(s.a, s.p[s.i := 0], s.i + 1), n);
      Produced(PermState(s.a, s.p[s.i := 0], s.i + 1), n)
  }

  /** Produced lists the arrangements of the visits, whatever the duplicate rule. */
  lemma {:induction false} ProducedVisits(s: PermState, n: nat, dedup: bool)
    requires Inv(s, n)
    ensures ArrangementsOf(Visits(s, n, dedup)) == Produced(s, n)
    decreases Fact(n) - VisitedCount(s, n), n - s.i
  {
    VisitedBound(s, n);
    if s.i < n {
      var t := Step(s, n);
      VisitedBound(t, n);
      ProducedVisits(t, n, dedup);
      VisitsUnfold(s, n, dedup);
    }
  }

  /**
   * From a state whose cursor is back at 1 and whose counters below k are
   * zero, quickPerm first visits the orderings of the first k positions
   * after the current one, in Heap's order, and then stands at cursor k with
   * HeapLast(k, a) and the counters as they were.
   */
  lemma {:induction false} SegmentVisits(n: nat, k: nat, s: PermState)
    requires Inv(s, n) && 1 <= k <= n && s.i == 1
    requires forall m :: 0 <= m < k ==> s.p[m] == 0
    ensures Inv(PermState(HeapLast(k, s.a), s.p, k), n)
    ensures Produced(s, n) ==
      HeapOrder(k, s.a)[1..] + Produced(PermState(HeapLast(k, s.a), s.p, k), n)
    decreases k, k + 1, 0
  {
    var a := s.a;
    if k == 1 {
      assert HeapOrder(1, a)[1..] == [];
      assert PermState(HeapLast(1, a), s.p, 1) == s;
    } else {
      SegmentVisits(n, k - 1, s);
      SegmentCloses(n, k, s);
    }
  }

  /** The segment over k positions is the one over k - 1 positions followed by the round over k. */
  lemma {:induction false} SegmentCloses(n: nat, k: nat, s: PermState)
    requires Inv(s, n) && 2 <= k <= n && s.i == 1
    requires forall m :: 0 <= m < k ==> s.p[m] == 0
    requires Inv(PermState(HeapLast(k - 1, s.a), s.p, k - 1), n)
    requires Produced(s, n) ==
      HeapOrder(k - 1, s.a)[1..] + Produced(PermState(HeapLast(k - 1, s.a), s.p, k - 1), n)
    ensures Inv(PermState(HeapLast(k, s.a), s.p, k), n)
    ensures Produced(s, n) ==
      HeapOrder(k, s.a)[1..] + Produced(PermState(HeapLast(k, s.a), s.p, k), n)
    decreases k, k, 1
  {
    var a := s.a;
    var s1 := PermState(HeapLast(k - 1, a), s.p, k - 1);
    assert BlockStart(k, 0, a) == a;
    RoundVisits(n, k, 0, a, s1);
    assert s1.p[k - 1 := 0] == s.p;
    var hs, bs := HeapOrder(k - 1, a), BlocksFrom(k, 1, a);
    assert HeapOrder(k, a) == hs + bs;
    Reslice(hs, bs, Produced(PermState(HeapLast(k, a), s.p, k), n));
  }

  /**
   * At cursor k - 1 with counter c, at the end of block c of the round over
   * k positions that started from a0: the later blocks follow, and then
   * the cursor moves on to k with HeapLast(k, a0) and counter k - 1 back at 0.
   */
  lemma {:induction false} RoundVisits(n: nat, k: nat, c: nat, a0: seq<real>, s: PermState)
    requires Inv(s, n) && 2 <= k <= n && |a0| == n
    requires s.i == k - 1 && s.p[k - 1] == c
    requires forall m :: 0 <= m < k - 1 ==> s.p[m] == 0
    requires s.a == HeapLast(k - 1, BlockStart(k, c, a0))
    ensures Inv(PermState(HeapLast(k, a0), s.p[k - 1 := 0], k), n)
    ensures Produced(s, n) ==
      BlocksFrom(k, c + 1, a0) + Produced(PermState(HeapLast(k, a0), s.p[k - 1 := 0], k), n)
    decreases k, k - c, 0
  {
    if c == k - 1 {
      RoundEnds(n, k, a0, s);
    } else {
      var x := BlockStart(k, c + 1, a0);
      var t := PermState(x, s.p[k - 1 := c + 1], 1);
      var u := PermState(HeapLast(k, a0), s.p[k - 1 := 0], k);
      var hs, bs := HeapOrder(k - 1, x), BlocksFrom(k, c + 2, a0);
      RoundSwaps(n, k, c, a0, s);
      assert t.p[k - 1 := 0] == s.p[k - 1 := 0];
      RoundContinues(n, k, c + 1, a0, t);
      assert BlocksFrom(k, c + 1, a0) == hs + bs;
      Regroup(hs, bs, Produced(u, n));
    }
  }

  /**
   * Right after the swap that starts block c: the rest of the block, then
   * the later blocks, then the cursor moves on to k.
   */
  lemma {:induction false} RoundContinues(n: nat, k: nat, c: nat, a0: seq<real>, t: PermState)
    requires Inv(t, n) && 2 <= k <= n && |a0| == n && 1 <= c < k
    requires t.i == 1 && t.p[k - 1] == c && t.a == BlockStart(k, c, a0)
    requires forall m :: 0 <= m < k - 1 ==> t.p[m] == 0
    ensures Inv(PermState(HeapLast(k, a0), t.p[k - 1 := 0], k), n)
    ensures Produced(t, n) ==
      HeapOrder(k - 1, t.a)[1..] + (BlocksFrom(k, c + 1, a0) +
        Produced(PermState(HeapLast(k, a0), t.p[k - 1 := 0], k), n))
    decreases k, k - c, 1
  {
    SegmentVisits(n, k - 1, t);
    RoundVisits(n, k, c, a0, PermState(HeapLast(k - 1, t.a), t.p, k - 1));
  }

  /** With counter k - 1 at its limit, the round is over: the cursor moves on and the counter is reset. */
  lemma RoundEnds(n: nat, k: nat, a0: seq<real>, s: PermState)
    requires Inv(s, n) && 2 <= k <= n && |a0| == n
    requires s.i == k - 1 && s.p[k - 1] == k - 1
    requires s.a == HeapLast(k - 1, BlockStart(k, k - 1, a0))
    ensures Inv(PermState(HeapLast(k, a0), s.p[k - 1 := 0], k), n)
    ensures Produced(s, n) == Produced(PermState(HeapLast(k, a0), s.p[k - 1 := 0], k), n)
  {
    ResetStep(s, n);
  }

  /** Below its limit, counter k - 1 swaps position k - 1 into the start of the next block and visits it. */
  lemma RoundSwaps(n: nat, k: nat, c: nat, a0: seq<real>, s: PermState)
    requires Inv(s, n) && 2 <= k <= n && |a0| == n
    requires s.i == k - 1 && s.p[k - 1] == c && c < k - 1
    requires s.a == HeapLast(k - 1, BlockStart(k, c, a0))
    ensures Inv(PermState(BlockStart(k, c + 1, a0), s.p[k - 1 := c + 1], 1), n)
    ensures Produced(s, n) ==
      [BlockStart(k, c + 1, a0)] + Produced(PermState(BlockStart(k, c + 1, a0), s.p[k - 1 := c + 1], 1), n)
  {
    SwapStep(s, n);
  }

  lemma Reslice<T>(xs: seq<T>, ys: seq<T>, zs: seq<T>)
    requires |xs| >= 1
    ensures xs[1..] + (ys + zs) == (xs + ys)[1..] + zs
  {
    assert (xs + ys)[1..] == xs[1..] + ys;
  }

  lemma Regroup<T>(xs: seq<T>, ys: seq<T>, zs: seq<T>)
    requires |xs| >= 1
    ensures [xs[0]] + (xs[1..] + (ys + zs)) == (xs + ys) + zs
  {
    assert xs == [xs[0]] + xs[1..];
  }

  /** quickPerm(a) visits the orderings of a in Heap's order: a itself, then one per swap. */
  lemma QuickPermFollowsHeapOrder(a: seq<real>, dedup: bool)
    requires |a| >= 1
    ensures [a] + ArrangementsOf(Visits(Start(a), |a|, dedup)) == HeapOrder(|a|, a)
  {
    var n := |a|;
    var s := Start(a);
    SegmentVisits(n, n, s);
    ProducedVisits(s, n, dedup);
    assert Produced(PermState(HeapLast(n, a), s.p, n), n) == [];
  }

  /** Without the duplicate rule every visit is tested. */
  lemma {:induction false} TestedOfAllTested(vs: seq<Visit>)
    requires forall k :: 0 <= k < |vs| ==> vs[k].tested
    ensures TestedOf(vs) == ArrangementsOf(vs)
  {
    if vs != [] {
      TestedOfAllTested(vs[1..]);
    }
  }

  /** Without the duplicate rule, quickPerm hands testCombination exactly Heap's orderings of a, in that order. */
  lemma ArrangementsInHeapOrder(a: seq<real>)
    requires |a| >= 1
    ensures Arrangements(a, false) == HeapOrder(|a|, a)
  {
    var vs := Visits(Start(a), |a|, false);
    forall k | 0 <= k < |vs|
      ensures vs[k].tested
    {
      VisitsFacts(Start(a), |a|, false, k);
    }
    TestedOfAllTested(vs);
    QuickPermFollowsHeapOrder(a, false);
  }

  /**
   * quickPerm tests the numbers in every ordering of their positions exactly
   * once: without the duplicate rule, the q-th arrangement handed to
   * testCombination is a read through the q-th of n! pairwise different
   * orderings of 0 .. n - 1.
   */
  lemma QuickPermEachOrderingOnce(a: seq<real>)
    requires |a| >= 1
    ensures var orders := HeapOrder(|a|, Identity(|a|));
      |orders| == Fact(|a|) && NoDuplicates(orders) &&
      (forall q :: 0 <= q < |orders| ==> multiset(orders[q]) == multiset(Identity(|a|))) &&
      |Arrangements(a, false)| == |orders| &&
      (forall q :: 0 <= q < |orders| ==> Arrangements(a, false)[q] == Reindex(a, orders[q]))
  {
    var n := |a|;
    var id := Identity(n);
    var orders := HeapOrder(n, id);
    HeapOrderCount(n, id);
    HeapOrderDistinct(n, id);
    HeapOrderRearranges(n, id);
    forall q | 0 <= q < |orders|
      ensures multiset(orders[q]) == multiset(id)
    {
      assert Rearranges(orders[q], id, n);
    }
    assert Reindex(a, id) == a;
    HeapOrderReindex(n, a, id);
    ArrangementsInHeapOrder(a);
  }

  /** Over pairwise different numbers, no arrangement is tested twice. */
  lemma ArrangementsDistinct(a: seq<real>)
    requires |a| >= 1 && NoDuplicates(a)
    ensures NoDuplicates(Arrangements(a, false)) && |Arrangements(a, false)| == Fact(|a|)
  {
    ArrangementsInHeapOrder(a);
    HeapOrderDistinct(|a|, a);
    HeapOrderCount(|a|, a);
  }

  /**
   * When every untested visit repeats the arrangement before it (a0 for the
   * first), the tested arrangements, with a0, include every visited one.
   */
  lemma {:induction false} TestedCoversVisited(a0: seq<real>, vs: seq<Visit>)
    requires vs != [] && !vs[0].tested ==> vs[0].a == a0
    requires forall k :: 0 < k < |vs| && !vs[k].tested ==> vs[k].a == vs[k - 1].a
    ensures forall x :: x in [a0] + ArrangementsOf(vs) ==> x in [a0] + TestedOf(vs)
    decreases vs
  {
    if vs != [] {
      var v, rest := vs[0], vs[1..];
      if rest != [] {
        assert rest[0] == vs[1];
      }
      forall k | 0 < k < |rest| && !rest[k].tested
        ensures rest[k].a == rest[k - 1].a
      {
        assert rest[k] == vs[k + 1] && rest[k - 1] == vs[k];
      }
      TestedCoversVisited(v.a, rest);
      assert ArrangementsOf(vs) == [v.a] + ArrangementsOf(rest);
      assert TestedOf(vs) == (if v.tested then [v.a] else []) + TestedOf(rest);
      forall x | x in [a0] + ArrangementsOf(vs)
        ensures x in [a0] + TestedOf(vs)
      {
        if x != a0 {
          assert x in [v.a] + ArrangementsOf(rest);
          assert x in [v.a] + TestedOf(rest);
          if v.tested {
            assert x in TestedOf(vs);
          } else {
            assert v.a == a0;
          }
        }
      }
    }
  }

  /**
   * The duplicate rule loses no ordering: with it, quickPerm tests exactly
   * the same set of arrangements as without it, only without repeats of the
   * one just tested.
   */
  lemma DuplicateRuleKeepsOrderings(a: seq<real>)
    requires |a| >= 1
    ensures forall x :: x in Arrangements(a, true) <==> x in Arrangements(a, false)
  {
    var n := |a|;
    var vs := Visits(Start(a), n, true);
    if vs != [] {
      SkippedVisitRepeats(Start(a), n, true, 0);
    }
    forall k | 0 < k < |vs| && !vs[k].tested
      ensures vs[k].a == vs[k - 1].a
    {
      SkippedVisitRepeats(Start(a), n, true, k);
    }
    TestedCoversVisited(a, vs);
    TestedOfVisited(vs);
    ProducedVisits(Start(a), n, true);
    ProducedVisits(Start(a), n, false);
    ArrangementsInHeapOrder(a);
    QuickPermFollowsHeapOrder(a, false);
  }

  /** Every tested arrangement is a visited one. */
  lemma {:induction false} TestedOfVisited(vs: seq<Visit>)
    ensures forall x :: x in TestedOf(vs) ==> x in ArrangementsOf(vs)
  {
    if vs != [] {
      TestedOfVisited(vs[1..]);
      assert ArrangementsOf(vs) == [vs[0].a] + ArrangementsOf(vs[1..]);
    }
  }
}
