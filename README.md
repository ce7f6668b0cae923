# Game of M with n — a verified model of the search engine of gameofmn.c

gameofmn.c solves "Game of M with n" puzzles: given n numbers (1 to 18) and a
target M (24 by default), it searches for fully bracketed expressions that
combine all n numbers with `+`, `-`, `*` and `/` to make M. It enumerates:

- every assignment of n - 1 operators, an operator vector `opVector` read
  as base-4 digits, in main's outer loop;
- every arrangement of the numbers, with Fuchs's counting QuickPerm
  (`quickPerm`);
- every bracketing, with the recursive `bracketTree`, which returns the value
  and the printed text of every candidate in arrays sized by the precomputed
  `CATALAN` table.

`testCombination` compares every candidate with the target. It counts
`numPossibilities` and `numSolutions`, prints each solution, and in modes 0
and 2 ends the program at the first solution.

The model has two layers.

The pure layer is nine modules of datatypes, functions and lemmas:

- `Counting`: `ipow`, factorials, the Catalan numbers and the `CATALAN` table.
- `Operators`: the operator codec, `op` and `visOp`.
- `Decimal`: the `"%ld"` printing of a leaf and reading it back.
- `Syntax`: the printed expression language, with a parser.
- `Expressions`: the candidate trees, with their value and their text.
- `Brackets`: the enumeration `bracketTree` performs.
- `Permutations`: QuickPerm as a state machine.
- `Orderings`: the order QuickPerm visits, described again as Heap's method,
  and what follows from it: every ordering of the positions once.
- `Search`: the counters as a fold over the stream of candidates.

The imperative layer is module `Game`. Its class `Game` holds the program's
globals as fields. Its methods are the C procedures with their loops, arrays
and in-place updates. Each method is proved against the pure layer: the
method's `ensures` ties its result or its new state to a pure function, and
the properties of the program are lemmas about those functions.

Values are exact reals. A division by zero gives `Undefined`: every later
operation keeps it, and no comparison accepts it. The model follows the
program with `DONT_LIST_DUPLICATES` defined (`Game.DontListDuplicates`). The
pure layer covers both settings of the macro through a `dedup` flag.

Where the program's own documentation and its code disagree, the model
follows the code:

- The comment at gameofmn.c:241 says the swap partner is index 0 for odd i
  and p[i] for even i. The code does the opposite, `j = (i&1 ? p[i] : 0)`,
  and that is what `Permutations.Partner` computes.
- A solution that stops the search (modes 0 and 2) leaves the program before
  `numPossibilities++`. After a stop, the possibilities counted are therefore
  the number of candidates examined before the stopping one
  (`Search.ScanFirstMatch`), not including it.

## Model

| member | source | states |
|---|---|---|
| Counting.IPow | gameofmn.c:265-270 | ipow(b, e) is 1 for every e <= 0 and at least 1 for a positive base (unbounded integers) |
| Counting.Int32 | gameofmn.c:265-270 | a C int result: within [-2^31, 2^31) and congruent to the exact value modulo 2^32 |
| Counting.IPowInt32 | gameofmn.c:265-270 | ipow as the program computes it, with every product in int under two's-complement wrap-around: always within the int range |
| Counting.IPowInt32Exact | gameofmn.c:265-270 | for e <= 15 (N <= 16 numbers) the int computation of 4^e is exact and below 2^31 |
| Counting.IPowInt32Overflows | gameofmn.c:296 | for N = 17 and N = 18 the int computation of 4^(N-1) gives 0, while the true counts are 2^32 and 2^34 |
| Counting.Fact | gameofmn.c:27 | N!, the count of orderings of N numbers in the total C(N-1) * 4^(N-1) * N!, is at least 1 |
| Counting.Catalan | gameofmn.c:35-37 | the Catalan numbers by their recurrence, each at least 1 |
| Counting.CatalanMonotone | gameofmn.c:136-137 | C(n) <= C(n + 1), so the CATALAN[L] entries allocated cover the C(L - 1) results |
| Counting.CatalanTableRows1To6 | gameofmn.c:36-37 | entries 1 to 6 of CATALAN are the convolution sums of the entries before them |
| Counting.CatalanTableRows7To9 | gameofmn.c:36-37 | entries 7 to 9 of CATALAN are the convolution sums of the entries before them |
| Counting.CatalanTableRows10To12 | gameofmn.c:36-37 | entries 10 to 12 of CATALAN are the convolution sums of the entries before them |
| Counting.CatalanTableRows13To14 | gameofmn.c:36-37 | entries 13 and 14 of CATALAN are the convolution sums of the entries before them |
| Counting.CatalanTableRows15To16 | gameofmn.c:36-37 | entries 15 and 16 of CATALAN are the convolution sums of the entries before them |
| Counting.CatalanTableRows17To18 | gameofmn.c:36-37 | entries 17 and 18 of CATALAN are the convolution sums of the entries before them |
| Counting.CatalanTableRecurrence | gameofmn.c:35-37 | the CATALAN table as written satisfies the Catalan recurrence C(0) = 1, C(n) = sum of C(k) * C(n - 1 - k) |
| Counting.RecurrenceTableIsCatalan | gameofmn.c:35-37 | any table satisfying the recurrence holds the Catalan numbers at every index |
| Counting.CatalanTableIsCatalan | gameofmn.c:32-37 | CATALAN has MAX_NUMBERS_TO_ADD + 1 = 19 entries and entry n is the Catalan number C(n) |
| Operators.Decode | gameofmn.c:87-100 | the digit switch of op and visOp: an even digit selects + or *, and the digit is recovered from the operator |
| Operators.Apply | gameofmn.c:88-99 | the arithmetic of op gives a number exactly when both operands are numbers and it is not a division by zero |
| Operators.OpAt | gameofmn.c:87 | the operator at position k is the one whose code is the digit (opVector >> 2k) & 3 |
| Operators.OpValueByDigit | gameofmn.c:85-102 | op gives a number exactly when both operands are numbers and it is not digit 3 with a zero divisor; digits 0, 1, 2 and 3 add, subtract, multiply and divide |
| Operators.ShiftDivides | gameofmn.c:87 | shifting opVector right by 2k bits is dividing it by 4^k |
| Operators.DigitAtIsBase4Digit | gameofmn.c:87 | the digit at position k is opVector / 4^k mod 4 |
| Operators.Glyph | gameofmn.c:110-124 | every glyph visOp prints is one of + - * / and reads back as the operator it was printed for |
| Operators.OpAgreesWithGlyph | gameofmn.c:85-125 | op and visOp decode the same digit: the glyph printed for position k names the operator op applies there; digits 0, 1, 2 and 3 give +, -, * and / exactly |
| Operators.EvenDigitCommutes | gameofmn.c:166-167 | the operators of even digits, + and *, are commutative: a combination the duplicate rule drops has the value of its mirror |
| Operators.DigitAtIsDigits | gameofmn.c:87 | (opVector >> 2k) & 3 is the k-th base-4 digit of opVector |
| Operators.EncodeBound | gameofmn.c:296 | a vector built from n base-4 digits is below 4^n |
| Operators.DigitAtEncode | gameofmn.c:87 | extracting digit k from a vector built from digits gives the k-th digit, and 0 beyond them |
| Operators.EncodeDigits | gameofmn.c:305-307 | every vector below 4^n is built from its own n digits, so the opVector loop runs through every assignment of n operators |
| Decimal.Trunc | gameofmn.c:142 | (long)x truncates toward zero: the result is the integer between 0 and x nearest to x |
| Decimal.TruncIntegral | gameofmn.c:142 | truncation keeps an integral value exactly |
| Decimal.NatToString | gameofmn.c:142 | the "%ld" digits of a natural number: at least one digit and no leading zero |
| Decimal.NatToStringValue | gameofmn.c:142 | the printed digits of n read back as n |
| Decimal.IntToString | gameofmn.c:142 | the "%ld" text of any integer: a minus sign exactly for a negative value, then at least one digit, with no leading zero |
| Decimal.ParseIntToString | gameofmn.c:142 | the "%ld" text of any integer, followed by a non-digit, reads back as that integer and what follows |
| Syntax.ParseShow | gameofmn.c:172 | a printed "(left glyph right)" expression, followed by a non-digit, parses back to the same expression and leaves what follows |
| Syntax.ParseShowWhole | gameofmn.c:142-172 | printing and parsing are inverse: every expression's text parses back to the expression |
| Expressions.InternalCountLeaves | gameofmn.c:159-172 | a candidate over L numbers has L - 1 operators |
| Expressions.EvalDivisionFree | gameofmn.c:85-102 | a candidate whose every node is defined without a division by zero has a number as its value: only a division can make it Undefined |
| Expressions.RenderShape | gameofmn.c:142-172 | a candidate's text is never empty, and a combined candidate's text starts with ( and ends with ) |
| Expressions.RenderBrackets | gameofmn.c:142-172 | a candidate's text holds as many ( and as many ) as the candidate has operators; a number's text has none |
| Expressions.PositionedPositions | gameofmn.c:156-161 | a tree built at base b (root b, left part b + 1, right part b + i) consults exactly positions b to b + L - 2, each at one node only |
| Expressions.RenderIsShow | gameofmn.c:142-172 | the stored text of a candidate is the printed form of its expression |
| Expressions.ToTermValue | gameofmn.c:139-172 | over integer numbers, evaluating the expression of a candidate gives its stored value |
| Expressions.TextAgreesWithValue | gameofmn.c:139-173 | value and text agree: the text parses as the candidate's expression, and over integer numbers evaluating it gives the stored value |
| Brackets.RowCount | gameofmn.c:164-178 | without the duplicate rule the k loop makes one combination per right candidate |
| Brackets.Emits | gameofmn.c:166-168 | without the rule every combination is kept; a combination the rule drops uses + or * and has the value of its mirror image |
| Brackets.RowAtMost | gameofmn.c:164-178 | the k loop keeps at most one combination per right candidate |
| Brackets.CombineCount | gameofmn.c:163-179 | without the duplicate rule the j and k loops make left.length * right.length combinations |
| Brackets.SplitsCount | gameofmn.c:159-161 | the split points before i contribute the first i - 1 terms of the Catalan convolution |
| Brackets.CandidatesCount | gameofmn.c:159-179 | without the duplicate rule bracketTree over L numbers returns exactly C(L - 1) candidates |
| Brackets.RowCanonical | gameofmn.c:164-177 | filtering a full row by the duplicate rule gives nothing if the left candidate breaks the rule, and otherwise the row the rule keeps over the rule-keeping right candidates |
| Brackets.CombineCanonical | gameofmn.c:163-179 | filtering all combinations by the rule gives the rule-keeping combinations of the filtered candidates |
| Brackets.DedupIsCanonicalFilter | gameofmn.c:155-177 | with DONT_LIST_DUPLICATES, bracketTree returns exactly the candidates of the full enumeration, in order, whose every + or * node has left value <= right value |
| Brackets.DedupCountBound | gameofmn.c:155-177 | with DONT_LIST_DUPLICATES, bracketTree over L numbers returns at most C(L - 1) candidates |
| Brackets.CombineMembers | gameofmn.c:163-172 | every combination at a split point is a node at opNumber over one left and one right candidate that the rule keeps |
| Brackets.CandidatesShaped | gameofmn.c:139-172 | every candidate is a tree whose leaves are the numbers in order, positioned as the recursion assigns, and with the rule it keeps the rule at every node |
| Brackets.ShapedIsCandidate | gameofmn.c:159-172 | conversely, without the rule every tree over the numbers positioned at the base is returned |
| Brackets.CandidatesExactly | gameofmn.c:155-177 | bracketTree returns exactly the trees over the numbers (without the rule), or exactly those that keep the rule at every node (with it) |
| Brackets.CandidatePositions | gameofmn.c:156-161 | every candidate of bracketTree(_, L, b) consults exactly positions b to b + L - 2, each once |
| Brackets.CandidatesFit | gameofmn.c:136-137 | the number of candidates is at most C(L - 1) <= CATALAN[L], the capacity allocated |
| Permutations.Swapped | gameofmn.c:75-79 | swap exchanges entries i and j and leaves every other entry alone |
| Permutations.Start | gameofmn.c:233-238 | the state holds the numbers as given with cursor i = 1, and (p all zero) satisfies the loop invariant with one arrangement visited |
| Permutations.Partner | gameofmn.c:241 | the partner j is never above p[i], so below i whenever the swap branch runs |
| Permutations.Arrangements | gameofmn.c:236-253 | what quickPerm hands to testCombination starts with the numbers as given |
| Permutations.SkippedVisitRepeats | gameofmn.c:245-247 | an arrangement the rule leaves untested is the one visited just before it (the numbers as given for the first) |
| Permutations.SwapOfEqual | gameofmn.c:243-246 | after swap(i, j), a[i] == a[j] holds exactly when the swap left the arrangement unchanged |
| Permutations.SwappedMultiset | gameofmn.c:75-79 | swap preserves the multiset of the numbers |
| Permutations.Step | gameofmn.c:240-259 | one pass keeps 0 <= p[k] <= k and p zero below i, swaps with the partner and returns i to 1 when p[i] < i, else moves i up; the swap branch counts one more visited arrangement |
| Permutations.SwapStep | gameofmn.c:240-255 | the swap branch keeps the invariant and visits one more arrangement |
| Permutations.ResetStep | gameofmn.c:256-259 | the reset branch keeps the invariant and visits nothing |
| Permutations.VisitedBound | gameofmn.c:239-260 | quickPerm never visits more than n! arrangements, which makes the loop terminate |
| Permutations.Final | gameofmn.c:239-260 | the loop ends with i == n and the invariant intact |
| Permutations.VisitsCount | gameofmn.c:239-260 | from any state, the visits still to come are n! minus those already made |
| Permutations.QuickPermVisitsFactorial | gameofmn.c:232-260 | quickPerm visits exactly n! arrangements: the first, and one after each swap |
| Permutations.TestedStep | gameofmn.c:240-255 | one pass tests the swapped arrangement unless the rule skips it, then what is tested from the next state; the end state is the same |
| Permutations.VisitsFacts | gameofmn.c:240-253 | each visit swaps i with j, 0 <= j < i < n, j = 0 for even i; it is skipped only under the rule and only when a[i] == a[j]; its numbers are a rearrangement of the start |
| Permutations.ArrangementsCount | gameofmn.c:236-253 | quickPerm tests exactly n! arrangements without the rule and at most n! with it |
| Permutations.ArrangementsArePermutations | gameofmn.c:236-253 | every arrangement quickPerm tests is a rearrangement of the numbers it started with |
| Permutations.FinalFacts | gameofmn.c:238-260 | the loop ends with i == n, p all zero again and the same multiset of numbers |
| Orderings.HeapOrderCount | gameofmn.c:232-260 | the orderings of the first k positions, in the order Heap's method produces them, number k! |
| Orderings.HeapOrderRearranges | gameofmn.c:232-260 | every one of them rearranges the first k entries and leaves the entries from k on in place |
| Orderings.HeapOrderDistinct | gameofmn.c:232-260 | over k pairwise different entries, none of them is produced twice |
| Orderings.BlockLastsDistinct | gameofmn.c:241-243 | the partner rule j = (i odd ? p[i] : 0) puts k different entries at position k - 1 in the k blocks of a round |
| Orderings.QuickPermFollowsHeapOrder | gameofmn.c:232-261 | the arrangements quickPerm visits, the numbers as given then one per swap, are exactly Heap's orderings in Heap's order |
| Orderings.ArrangementsInHeapOrder | gameofmn.c:236-253 | without the rule, quickPerm tests exactly Heap's orderings, in that order |
| Orderings.QuickPermEachOrderingOnce | gameofmn.c:229-261 | without the rule, the q-th arrangement tested is the numbers read through the q-th of n! pairwise different orderings of the positions 0 to n - 1: every ordering exactly once |
| Orderings.ArrangementsDistinct | gameofmn.c:229-261 | over pairwise different numbers, quickPerm tests n! arrangements and none twice |
| Orderings.TestedCoversVisited | gameofmn.c:245-253 | when every skipped visit repeats the one before, the tested arrangements cover every visited one |
| Orderings.DuplicateRuleKeepsOrderings | gameofmn.c:245-253 | with the rule quickPerm tests exactly the same set of arrangements as without it |
| Search.AfterQuickPermIsPermutation | gameofmn.c:305-307 | the arrangement quickPerm leaves for the next operator vector is a rearrangement of the numbers |
| Search.ExamineCounts | gameofmn.c:208-223 | after the exit nothing changes; otherwise a candidate equal to the target adds one solution and prints its text, stops modes 0 and 2, and every candidate but the stopping one adds one possibility |
| Search.StoredAt | gameofmn.c:208-209 | entry i of what testCombination reads is the value and the text of candidate i |
| Search.ScanAppend | gameofmn.c:208-224 | examining two lists of candidates one after the other is examining their concatenation |
| Search.ScanStopped | gameofmn.c:215-217 | once exit is reached, nothing further changes any counter |
| Search.ScanStopsEarly | gameofmn.c:215-217 | a stop partway through a list of candidates ends the scan there |
| Search.ScanArrangementsIsScan | gameofmn.c:236-253 | testing the arrangements one by one examines their candidates one after another |
| Search.ScanArrangementsStopped | gameofmn.c:216 | after a stop, no arrangement tested changes anything |
| Search.SearchFromAdvance | gameofmn.c:305-307 | one turn of the opVector loop leaves the remaining search unchanged |
| Search.SearchFromIsScan | gameofmn.c:305-307 | the opVector loop examines the candidate stream Stream one candidate after another |
| Search.ScanExhaustive | gameofmn.c:208-224 | finding all solutions: one possibility per candidate, one solution and one printed text per candidate equal to the target, never stopping |
| Search.ScanFirstMatch | gameofmn.c:208-220 | stopping at the first solution at index m: m possibilities counted, one solution, that text printed, stopped |
| Search.ScanNoMatch | gameofmn.c:208-224 | with no candidate equal to the target, every candidate is one possibility and nothing else changes |
| Search.ArrangementCandidatesCount | gameofmn.c:203-208 | each arrangement of n numbers yields C(n - 1) root candidates without the rule, at most that with it |
| Search.QuickPermCount | gameofmn.c:232-260 | one operator vector yields n! * C(n - 1) candidates without the rule, at most that with it |
| Search.StreamCount | gameofmn.c:305-307 | the opVector loop from v below ops yields (ops - v) * n! * C(n - 1) candidates without the rule, at most that with it |
| Search.TotalPossibilities | gameofmn.c:23-27 | without DONT_LIST_DUPLICATES an exhaustive search tries exactly C(N - 1) * 4^(N - 1) * N! possibilities |
| Search.TotalPossibilitiesDedup | gameofmn.c:24-27 | with DONT_LIST_DUPLICATES the search tries at most C(N - 1) * 4^(N - 1) * N! possibilities |
| Search.ScanPossibilitiesBound | gameofmn.c:208-224 | each candidate adds at most one possibility, no counter goes down, the texts printed stay printed, and solutions grow exactly with the texts printed |
| Game.Swap | gameofmn.c:75-79 | the array afterwards is the swapped sequence, with the same multiset |
| Game.Game.constructor | gameofmn.c:276-294 | mode 0 to 3; the custom modes take the target and a count of 1 to 18, the others play the Game of 24 with four numbers; all counters zero |
| Game.Game.BracketTree | gameofmn.c:133-197 | fresh arrays of CATALAN[length] entries whose first count entries hold the value and text of each candidate of the enumeration, in order |
| Game.Game.SplitAll | gameofmn.c:159-192 | the i loop leaves the value and text of every candidate of two numbers or more, in order, and their count |
| Game.Game.SplitAt | gameofmn.c:159-192 | one turn of the i loop appends the combinations of split point i after those of the earlier split points |
| Game.Game.CombineAll | gameofmn.c:163-179 | the j and k loops append every kept combination, in order, after the entries already written |
| Game.Game.CombineRow | gameofmn.c:164-178 | the k loop appends the kept combinations of one left candidate, in order |
| Game.Game.RowTurn | gameofmn.c:166-177 | one turn of the k loop writes the combination when the rule keeps it and skips it otherwise |
| Game.Game.Place | gameofmn.c:170-173 | the next entry holds op of the two values and the text "(left glyph right)" of the new node |
| Game.Game.TestCombination | gameofmn.c:203-227 | the counters afterwards are the scan of the arrangement's root candidates, in order, from the counters before |
| Game.Game.TestAt | gameofmn.c:208-223 | one turn of the loop examines the stored candidate i; a stop leaves the counters where the whole scan would |
| Game.Game.TestCandidate | gameofmn.c:209-223 | one candidate: a match is printed and counted as a solution and stops modes 0 and 2 before being counted; otherwise one more possibility |
| Game.Game.QuickPerm | gameofmn.c:232-261 | the counters afterwards are the scan of every arrangement quickPerm tests; unless stopped, the numbers end in the state machine's final arrangement |
| Game.Game.SwapAndTest | gameofmn.c:240-253 | the swap, then testCombination unless the rule skips the arrangement; what it examines is the start of what is tested from here on |
| Game.Game.QuickPermPass | gameofmn.c:240-259 | one pass of the while loop: the arrays hold the next state and the remaining scan is unchanged, or the search stopped during the pass |
| Game.Game.SetControl | gameofmn.c:254-257 | an update of p changes entry i and nothing else among the first n |
| Game.Game.AdvanceVector | gameofmn.c:305-307 | one turn of the opVector loop: quickPerm, then the next vector, leaving the remaining search unchanged |
| Game.Game.Solve | gameofmn.c:296-307 | the counters afterwards are the search over opVector from 0 below 4^(N - 1), quickPerm each, until the search stops |

## Left out

- Console I/O: the prompts and `scanf` loops of main (gameofmn.c:276-302) are
  not modelled. Their outcome is the constructor's arguments, with the ranges
  the re-prompting guarantees as preconditions (`Game.NumberCount` is the
  range 1 to 18). The numbers read are the array handed to `Solve`.
- The progress message every 50000 possibilities (gameofmn.c:221-223) and
  the final statistics (gameofmn.c:310-311) are not modelled. A printed
  solution is appended to the `printed` field instead of written out.
- Memory management: `safeMalloc`'s abort on failure, `malloc` and `free`
  (gameofmn.c:64-71, 181-191, 212, 225-226) are not modelled. Allocation
  is `new` and never fails.
- The 128-byte `sprintf` buffers (MAX_STRLEN) are not modelled: texts are
  unbounded strings, so a text long enough to overflow a buffer is not
  represented.
- Floating point: values are exact reals, not IEEE doubles. A division by
  zero is `Undefined`, which every later operation keeps and no comparison
  accepts. In C, x/0 is an infinity or NaN, infinities compare with finite
  values, and 1/(1/0) is 0 again. Rounding, and the exact `double`
  equality with the target, are therefore modelled only for exact values.
- `(long)` of a double outside the range of long is undefined in C. `Trunc`
  gives the exact integer part of any value.
- Search.TotalPossibilities: counts with unbounded naturals, as do
  `Search.TotalPossibilitiesDedup` and the counter contracts of `Game.Game`.
  The program keeps `numPossibilities` and `numSolutions` in 64-bit `long`.
  Without `DONT_LIST_DUPLICATES`, a search that runs to the end examines
  exactly C(N - 1) * 4^(N - 1) * N! candidates. That is 703009991216332800
  for N = 11, which fits in a `long`, and 118105678524343910400 for N = 12,
  which exceeds LONG_MAX; so in that build, for N = 12 to 16 in modes 1 and
  3, the counter overflows (undefined behaviour for a signed type) while the
  model's count stays exact. The program as shipped defines
  `DONT_LIST_DUPLICATES` (gameofmn.c:24), skips combinations (gameofmn.c:167)
  and arrangements (gameofmn.c:246), and so examines at most that total.
  Whether its counter overflows for N = 12 to 16 then depends on the
  numbers: twelve equal numbers, for instance, make every swap a skipped
  one, so at most C(11) * 4^11, about 2.5 * 10^11, candidates are examined.
  `opVector` (`unsigned long`) stays below 4^17 and never wraps.
- `exit(EXIT_SUCCESS)` is the `stopped` flag. `TestCombination`,
  `QuickPerm` and `Solve` return as soon as it is set, and `Solve`'s loop
  condition also tests it. Nothing after the exit is run.
- Pointers into arrays: `bracketTree`'s `numlist` argument, `&numlist[i]`,
  and the sub-results it reads (`left`, `right`) are read-only sequences in
  the model, not aliased arrays. Only the arrays that the code writes
  (`list`, `visual`, the number array, QuickPerm's `p`) are arrays.
- Loop bodies as methods: `bracketTree`'s i loop (`SplitAll`) and the
  bodies of its three loops (`SplitAt`, `CombineAll`, `CombineRow`,
  `RowTurn`, `Place`), of `testCombination`'s loop (`TestAt`), of `quickPerm`'s loop
  (`QuickPermPass`, `SwapAndTest`, `SetControl`) and of main's loop
  (`AdvanceVector`) are separate methods. They run the same statements in
  the same order.
- Search.ScanArrangements: an empty arrangement examines nothing. quickPerm
  never produces one, since it always has numbersToAdd >= 1 numbers.
- Game.Game.Solve: computes the number of operator vectors as the exact
  4^(N - 1) (`Counting.IPow`), not the program's 32-bit `int` result, which
  is 0 for N = 17 and N = 18. See Findings.

## Findings

| source | as written | input that shows it | evidently intended | confidence | as-written member | corrected member |
|---|---|---|---|---|---|---|
| gameofmn.c:265-270, gameofmn.c:296 | `ipow` computes 4^(N-1) in 32-bit `int` and stores it in the `int` operatorCombinations; 4^16 and 4^17 do not fit (signed overflow, 0 under two's-complement wrap-around), so the opVector loop runs zero times and nothing is searched | numbersToAdd = 17 or 18 (allowed by MAX_NUMBERS_TO_ADD = 18): ipow(4, 16) is 2^32 | the loop runs over all 4^(N-1) operator vectors for every accepted N, as the comment at gameofmn.c:296 says | not executed | Counting.IPowInt32Overflows | Counting.IPow |
