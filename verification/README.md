# Double-base chains, verified

A double-base chain writes a scalar n as a signed sum of terms 2^b·3^t in which every term
strictly divides the next larger one; an elliptic-curve multiplication by n then follows the
chain with doublings, triplings and additions. This project models the chain engine in
`DBCTest/`: the builder of optimal chains, the two chain evaluators, the binary and
non-adjacent recodings it is compared with, the greedy builders, and the 32-bit limb
arithmetic underneath.

Main results, from the bottom up:

* **Limbs.** `mul_3` and `operator-` drop or invent carries. Their results are given exactly,
  with the condition under which they are right, in both directions, and inputs on which they
  are wrong. Division by 3^18, the shift, the residue modulo 2^33·3^19, the comparison and the
  hexadecimal conversions are exact, with every 64-bit intermediate in range.
* **Digits.** The digit read off inside a block of 32 rows by 18 columns, through repeated
  short division, limb shifts and one residue, is the plain base-6 digit of 6n.
* **Dynamic program.** A cell of `w` or `w_` is NULL exactly when its slot has no chain, and
  otherwise its parents lead down a shortest one. The recurrence looks at fewer alternatives
  than exist; the omitted ones are shown never to win. Soundness holds for the digits of any
  number m (the chains are then chains of floor(m/6)), optimality for m = 6n.
* **Schedule.** The four nested loops write exactly the cells with 2^b·3^t <= 2n, each once,
  and read only borders, the base cell or cells already written; the tables end up equal to the
  recurrence, and following `parent` afterwards lists the chain the recurrence means.
* **Optimal chains.** Over all double-base chains of n, of any leading term, none costs less
  than the exported one, provided the tripling of 2n loses no carry. The exported chain is
  one of n if and only if that tripling loses no carry or no candidate is cheaper than the
  binary chain.
* **Lost carries.** With a lost carry, and m for the damaged value of 6n, the exported chain is
  one of floor(m/6) and not of n whenever floor(m/6) has fewer binary ones than n; it is empty
  exactly when m < 6. Examples for any limb count from 3 up are n = 0x2AAAAAAAFFFFFFFF (a chain
  of 1431655764) and n = 0x2AAAAAAAAAAAAAAB (no terms). With two limbs, or 6n < 2^64, no
  carry is lost.
* **Greedy chains.** With exact remainders they end, have at most a + b + 2 terms from a start
  (a, b), and use no term more than twice. The loop computes its remainders with `operator-`,
  and all of them are the exact ones if and only if no step borrows spuriously. Whatever the
  borrows, a run that ends has stored a chain of n up to a multiple of 2^64, and the returned
  slot holds a cheapest of the chains tried.
* **Spurious borrows.** For n = 2^65 - 1 and any limb count from 3 up, the start of column 5
  is tried and its run does not end within any row shorter than 2^31 entries. With two limbs,
  or 3n < 2^64 - 2^32, no start of any column borrows spuriously.
* **Multiplication.** In every abelian group, building a chain and evaluating it left to right
  gives the chain's value times a, for the optimal and for the greedy builders: n·a when no carry
  is lost, or nothing borrowed spuriously. For the optimal builder the same holds right to left.
* **Comparison.** The optimal chain's time never exceeds the non-adjacent form's, and is below
  that of double-and-add. The non-adjacent form has the fewest nonzero digits possible.

## Layout

`Powers` and `Chains` define 2^b·3^t and chains as values. `Cells` is the cell structure with
its recurrence; `Soundness`, `Optimality` and `CostOptimality` are the theorems about it.
`Limbs`, `Subtraction`, `Residues` and `Hex` treat limb sequences, `BigInts` the in-place
routines on them. `Digits` and `Bounds` link limbs, digits and table bounds; `PowerTables` and
`Builders` hold the imperative builder; `BinaryChains` is its first candidate. `Points`, `Nafs`
and `EndToEnd` evaluate and compare. `Greedy` is the greedy loop with exact remainders,
`GreedyLimbs` the loop as it runs on limbs, `Searches` the tournament around it. `LostCarry` and
`LostBorrow` hold the failing inputs of the two kinds of builder. Functions and loops are separate: a loop is a method proved against a
function on values, and the theorems are about that function.

A `parent` pointer always points at a table slot, so it is kept as the slot's coordinates; the
chain of a cell is what `length` steps through the tables find. Points are the elements of an
arbitrary abelian group. `log2` and `log3` of 2n are taken as exact floors and passed in.

## Model

| member | source | states |
|---|---|---|
| Chains.ValueBound | DBCTest/DBC.h:114-128 | a chain of proper divisors of d has a value strictly between -d and d |
| Chains.LeadingTerm | DBCTest/DBC.h:114-128 | the leading term fixes the sign, and the value is below twice that term |
| Chains.SizeBound | DBCTest/DBC.h:158-170 | a chain below 2^b·3^t has at most b + t terms, so `now_DBC` is long enough |
| Chains.StrictlyDividesExactly | DBCTest/optimal_DBC.cpp:54-75 | one term 2^b·3^t properly divides another exactly when neither of its exponents is larger and they are not both equal |
| Chains.CostInNumbers | DBCTest/myBigInt.h:54-64 | a chain costs 70 for each doubling and 126 for each tripling up to its leading term, and 150 for each further term |
| Cells.LastOfTheLeast | DBCTest/functions.h:23-72 | `minL` and `minV` return a least argument, and the last one among equals |
| Soundness.DigitOfRemainder | DBCTest/optimal_DBC.cpp:54-60 | for every m and d the base-6 digit of m at d says in which third and half of d the remainder of floor(m/6) lies |
| Soundness.BestIsSound | DBCTest/optimal_DBC.cpp:54-75 | for the digits of any m, the chain reached through `parent` from either table has the slot's value and strictly dividing terms, in all four cases of the digit; lengths agree and every parent is a non-NULL slot |
| Optimality.TakeHalf | DBCTest/optimal_DBC.cpp:65-74 | a chain worth at least half of 2^b·3^t yields one for the rest, below the half, with at least one term less: the omitted thirds collapse into the half |
| Optimality.AvoidHalf | DBCTest/optimal_DBC.cpp:55-64 | a chain worth at most a third of 2^b·3^t never needs to start with the half: an equally short one of the same value starts elsewhere |
| Optimality.BestIsShortest | DBCTest/optimal_DBC.cpp:54-75 | no chain of the slot's value below 2^b·3^t is shorter than the cell, despite the omitted alternatives |
| Optimality.LengthOptimal | DBCTest/optimal_DBC.cpp:54-75 | a cell is NULL if and only if its slot has no chain; otherwise its parents form a shortest chain of the slot's value |
| CostOptimality.LowerLead | DBCTest/optimal_DBC.cpp:76-86 | every chain of n can be replaced by one that costs no more and leads with a term of at most 2n |
| CostOptimality.CandidateIsCheapest | DBCTest/optimal_DBC.cpp:76-86 | for every chain of n, one of the two candidates at some column bound costs no more |
| CostOptimality.CandidatesAreChains | DBCTest/optimal_DBC.cpp:76-86 | both candidates at a bound are NULL or chains of floor(m/6) whose `getV` is their true cost |
| Bounds.BoundSteps | DBCTest/optimal_DBC.cpp:16-29 | from column to column the bound falls by one or two |
| Bounds.BoundExceedsN | DBCTest/optimal_DBC.cpp:76-86 | n < 2^bBound[t]·3^t <= 2n, so the branch for n >= the power is never taken |
| Bounds.RegionFits | DBCTest/myBigInt.h:51-52 | every cell with 2^b·3^t <= 2n has a table slot with a row and column to spare, for 2 to 21 limbs |
| Bounds.TableIsWide | DBCTest/myBigInt.h:52 | 3^(int(20.19·INTS) + 1) >= 2^(32·INTS) for 2 to 21 limbs |
| Digits.FastDigit | DBCTest/optimal_DBC.cpp:33-54 | the digit from the block residue equals floor(m/(2^b·3^t)) mod 6 at every cell of the block |
| Digits.BlockStep | DBCTest/optimal_DBC.cpp:89-91 | one short division by 3^18, or one limb shift, moves from a block to the next |
| Limbs.MulSmallValue | DBCTest/myBigInt.h:192-218 | doubling or tripling gives the product, less the lost carries, less what leaves at the top |
| Limbs.MulSmallExact | DBCTest/myBigInt.h:192-218 | when the product fits, the routine is right if and only if no limb loses a carry |
| Limbs.DoublingLosesNothing | DBCTest/myBigInt.h:192-201 | `mul_2` never loses a carry |
| Limbs.TriplingCounterexample | DBCTest/myBigInt.h:203-218 | an input on which `mul_3` comes out 2^64 short |
| Subtraction.MinusValue | DBCTest/myBigInt.h:290-311 | `operator-` gives a - b modulo 2^(32·INTS), less 2^(32·(INTS-i)) for each spurious borrow at limb i |
| Subtraction.MinusExact | DBCTest/myBigInt.h:290-311 | for a >= b the difference is right if and only if no interior limb of all ones that nothing was borrowed from occurs |
| Subtraction.MinusExcess | DBCTest/myBigInt.h:290-311 | for a >= b the shortfall of the difference is a multiple of 2^64, and zero if and only if no borrow is spurious |
| Subtraction.MinusCounterexample | DBCTest/myBigInt.h:300-306 | an input on which `operator-` borrows wrongly |
| Residues.TableIsResidue | DBCTest/myBigInt.h:225-229 | each of the 20 table entries is 2^(32k) mod 2·3^19 |
| BigInts.BigInt.Mod233319 | DBCTest/myBigInt.h:220-235 | the result is the value modulo 2^33·3^19, with all intermediates below 2^64 |
| BigInts.BigInt.Div318 | DBCTest/myBigInt.h:166-177 | in place, the value becomes floor(value / 3^18), with all intermediates below 2^64 |
| BigInts.BigInt.RShift32 | DBCTest/myBigInt.h:157-164 | the target's value becomes floor(value / 2^32), also when it is the receiver |
| BigInts.BigInt.Mul2 | DBCTest/myBigInt.h:192-201 | the loop computes the doubled limbs of the specification |
| BigInts.BigInt.Mul3 | DBCTest/myBigInt.h:203-218 | the two loops compute the tripled limbs of the specification, lost carries included |
| BigInts.BigInt.GreaterEq | DBCTest/myBigInt.h:277-288 | true if and only if the value is at least the other value |
| BigInts.BigInt.IsZero | DBCTest/myBigInt.h:268-274 | true if and only if the value is zero |
| BigInts.BigInt.ToNumber | DBCTest/myBigInt.h:257-266 | the loop accumulates the value of the limbs (without the rounding of doubles) |
| BigInts.BigInt.Minus | DBCTest/myBigInt.h:290-311 | the borrow loop and the subtraction loop compute the specified limbs, spurious borrows included |
| BigInts.SmallLosesNothing | DBCTest/myBigInt.h:203-218 | tripling to a product below 2^64 loses no carry, at any limb count |
| Hex.FromHex | DBCTest/myBigInt.h:89-122 | a hexadecimal string of at most 8·INTS digits, in either case, is parsed to the number it denotes |
| Hex.AllHexValue | DBCTest/myBigInt.h:247-254 | the printed string is hexadecimal and denotes the number |
| Hex.RoundTrip | DBCTest/myBigInt.h:89-122 | parsing what was printed gives the same limbs, whichever of its digits are put in upper case before |
| Hex.BothCases | DBCTest/myBigInt.h:97-105 | the sixteen digits are read at their values in either case |
| Hex.CaseIsIgnored | DBCTest/myBigInt.h:97-105 | strings that differ only in the case of digits are parsed to the same number |
| Hex.HexDigitAt | DBCTest/myBigInt.h:89-122 | character k of a string is the digit of its place in the number parsed |
| Hex.PrintedDigit | DBCTest/myBigInt.h:247-254 | printed character k is the lower-case digit of its place in the number |
| PowerTables.Tables.FillAll | DBCTest/variables.cpp:68-79 | the first entry of each row is its power of two, every further entry within the limbs is the tripled one before it, and the rest stay zero |
| PowerTables.Tables.ExactIfLossless | DBCTest/variables.cpp:68-79 | all stored powers are exact as far as the limbs reach if and only if no power 2^b·3^t of that limb count, as a number, loses a carry when tripled; with two limbs they are exact |
| PowerTables.TripledExactly | DBCTest/variables.cpp:72-78 | from an exact entry the next one is exact if and only if its tripling loses nothing |
| PowerTables.Tables.constructor | DBCTest/variables.cpp:51-79 | after `init` every entry of all four tables is determined: the machine-word tables hold the powers, `pow23_all` the powers of two, their tripled limbs and zeros; it is exact if and only if no power as a number loses a carry, and with two limbs always |
| PowerTables.Tables.FillSmall | DBCTest/variables.cpp:51-67 | `pow23_1` holds 2^i·3^j, all in 64 bits |
| Builders.Builder.InitBorders | DBCTest/variables.cpp:39-50 | the borders are NULL and `w(0,0)` is the empty chain |
| Builders.Builder.constructor | DBCTest/variables.cpp:33-79 | borders, base cell and tables as `init` leaves them, all other stores zero; the power tables are exact under that condition on numbers |
| Builders.Builder.FillCell | DBCTest/optimal_DBC.cpp:54-75 | both tables get the recurrence's cells; no other entry changes; a cell is never written twice |
| Builders.Builder.NeighboursFilled | DBCTest/optimal_DBC.cpp:34-54 | at every visit the two cells to be read are borders, the base cell or already written in this run |
| Builders.Builder.Schedule | DBCTest/optimal_DBC.cpp:33-92 | exactly the cells with 2^b·3^t <= 2n are written, each once, all equal to the recurrence for the extracted digits, and every column's candidates have been met |
| Builders.Builder.ScanBounds | DBCTest/optimal_DBC.cpp:16-29 | the single descending index finds, for every column up to floor(log3 2n), the last b with 2^b·3^t <= 2n |
| Builders.Builder.AssignBinary | DBCTest/DBC.h:62-81 | `w_min = n` lists the binary expansion in `now_DBC`, a chain of n, with its length and cost |
| Builders.Builder.SimDbc | DBCTest/DBC.h:158-170 | `now_DBC` lists the chain that w_min stands for, smallest term first |
| Builders.Builder.Export | DBCTest/optimal_DBC.cpp:94-100 | `DBC_store[0]` lists the same chain, leading term first, with its length |
| Builders.EntriesAddUp | DBCTest/optimal_DBC.cpp:94-100 | the stored rows, each sign 1 or -1 times 2^b·3^t, add up to the value of the chain |
| Builders.Builder.GetOptimalDbc | DBCTest/optimal_DBC.cpp:5-103 | the stored chain, which `now_DBC` lists too, is cheapest among all candidates; if tripling 2n loses no carry it is a chain of n, and no double-base chain of n costs less at 70 a doubling, 126 a tripling and 150 an addition |
| Builders.Builder.OptimalIfExact | DBCTest/optimal_DBC.cpp:76-93 | a chain that is a candidate and no dearer than any candidate is, for exact digits, cheapest of all chains of n |
| Builders.Builder.RightValueExactly | DBCTest/optimal_DBC.cpp:5-103 | the chain the builder leaves has value n if and only if tripling 2n loses no carry or no candidate is cheaper than the binary chain |
| Builders.Builder.SmallIsExact | DBCTest/optimal_DBC.cpp:8-9 | with two limbs, or 6n < 2^64, the tripling of 2n loses no carry |
| Builders.Builder.LossIsLarge | DBCTest/optimal_DBC.cpp:8-9 | a lost carry leaves m at least 2^32 short of 6n, and floor(m/6) below n |
| BinaryChains.BinaryValue | DBCTest/DBC.h:62-81 | the low bits of v form a chain of v mod 2^bits |
| BinaryChains.BitOfLimb | DBCTest/DBC.h:66-75 | testing bit k of a limb tests the matching bit of the number |
| BinaryChains.BinaryLength | DBCTest/functions.h:151-174 | the binary chain does not depend on bits above the top one, and its cost follows from its length and weight |
| LostCarry.ColumnWithin | DBCTest/optimal_DBC.cpp:54-75 | in the column of pure doublings a cell of `w` has at most as many terms as the binary expansion, for the digits of any m |
| LostCarry.ColumnCost | DBCTest/optimal_DBC.cpp:54-86 | the candidate of that column costs at most one doubling more than the binary chain of floor(m/6) led by its top bit |
| LostCarry.WrongValue | DBCTest/optimal_DBC.cpp:8-9 | if a carry is lost and that bound is below the cost of the binary chain of n, the exported chain has value floor(m/6) < n |
| LostCarry.FewDigitsLose | DBCTest/optimal_DBC.cpp:8-9 | so it has when m < 2^low and 220·low is below the cost of the binary chain of n |
| LostCarry.LighterLoses | DBCTest/optimal_DBC.cpp:8-9 | so it has when floor(m/6) has fewer binary ones than n, a test on two numbers |
| LostCarry.EmptyExport | DBCTest/optimal_DBC.cpp:8-100 | the exported chain is empty if and only if m < 6, and then a carry was lost |
| LostCarry.WrongChain | DBCTest/optimal_DBC.cpp:8-9 | for n = 0x2AAAAAAAFFFFFFFF and any limb count from 3 up, the carry is lost and every chain the builder may export has value 1431655764 |
| LostCarry.EmptyChainExported | DBCTest/optimal_DBC.cpp:8-100 | for n = 0x2AAAAAAAAAAAAAAB and any limb count from 3 up, m is 2 and the exported chain is empty |
| Points.MulAdd | DBCTest/functions.h:93-94 | multiples of a point add like integers, in every abelian group |
| Points.DbcPointMul | DBCTest/functions.h:86-135 | for every stored list with non-rising exponents the result is its value times the point, the leading sign taken for a plus; its loops double, triple and add as often as the cost of the chain says, at 70, 126 and 150 each |
| Points.PositiveKeepsLead | DBCTest/functions.h:96-97 | for a chain of a positive number the ignored leading sign is a plus |
| Points.DbcPointMulRightToLeft | DBCTest/optimal_DBC2.cpp:121-174 | the right-to-left evaluation of `now_DBC` is the chain's value times the point |
| Points.BinaryPointMul | DBCTest/functions.h:137-179 | adds n times the point to the given one; ten times the returned time is the binary chain's cost plus one doubling and one addition |
| Nafs.NafIsNonAdjacent | DBCTest/functions.h:196-214 | the digits have value n, lie in -1, 0, 1, no two neighbours are nonzero, and the leading digit is 1 |
| Nafs.NafIsLightest | DBCTest/functions.h:205-212 | no signed-binary representation of a number has fewer nonzero digits than the non-adjacent form |
| Nafs.NeighbourWeights | DBCTest/functions.h:205-212 | the minimal weights of neighbouring numbers differ by at most one, and an even number is never the heavier |
| Nafs.NafHasNafWeight | DBCTest/functions.h:196-214 | the conversion's digits have exactly that minimal weight |
| Nafs.IntToNaf | DBCTest/functions.h:181-223 | the loop pushes these digits and reverses them; zero gives the single digit 0 |
| Nafs.NafPointMul | DBCTest/functions.h:225-255 | n times the point for n > 0, and the point itself for n = 0; the returned time follows from length and weight |
| Nafs.NafChain | DBCTest/functions.h:225-255 | the non-adjacent form is a double-base chain of n that costs what its multiplication does |
| EndToEnd.MultiplyOptimal | DBCTest/DBC.cpp:44-46 | building the optimal chain and evaluating it left to right gives its value times the point, for every scalar whose chain is not empty; that is n times the point, by a chain none is cheaper than, when no carry is lost |
| EndToEnd.MultiplyOptimalRightToLeft | DBCTest/optimal_DBC2.cpp:213-214 | the same for the right-to-left evaluator, for every scalar; an empty chain leaves the result point alone |
| EndToEnd.ExportFacts | DBCTest/optimal_DBC.cpp:93-100 | every exported chain descends and leads with a plus, is empty if and only if m < 6, and has value n under the exact condition |
| EndToEnd.MultiplyGreedy | DBCTest/DBC.cpp:91-92 | building greedy chains and evaluating the returned slot gives n minus the sum of the spurious borrows, times the point: n up to a multiple of 2^64, and n itself if no generated start borrows spuriously |
| EndToEnd.BorrowFreeStores | DBCTest/subOptimal_DBC.cpp:123-188 | if no start borrows spuriously, as for every safe scalar, every run ends within its row |
| EndToEnd.ComputeTtv | DBCTest/functions.h:274-277 | ten times the returned time is 70, 126 and 150 for each doubling, tripling and addition of the stored chain, its cost |
| EndToEnd.OptimalBeatsOthers | DBCTest/DBC.h:105-112 | an optimal chain costs at most what the non-adjacent form and the binary expansion cost |
| EndToEnd.CompareTimes | DBCTest/functions.h:274-277 | the three returned times are the chain's cost, the non-adjacent form's and the binary chain's; the first is at most the second and below the third |
| EndToEnd.EvaluateBothWays | DBCTest/functions.h:86-135 | both evaluation directions return the same point on every chain of a positive number that `DBC_store` and `now_DBC` both hold, as they do after `getOptimalDBC` |
| Greedy.SelectIsNearest | DBCTest/subOptimal_DBC.cpp:142-170 | the column scan finds the term nearest to t with exponents at most a and between b - window and b; among equally near ones that of the lowest column, and in it the smaller |
| Greedy.SelectStep | DBCTest/subOptimal_DBC.cpp:138-188 | with exact remainders exponents never rise, the new remainder is at most the term taken, and (a + b, t) falls |
| Greedy.GreedyValue | DBCTest/subOptimal_DBC.cpp:172-187 | the exact run stores a chain of n |
| Greedy.GreedyLength | DBCTest/subOptimal_DBC.cpp:138-189 | at most a + b + 2 terms from (a, b) with n < 2·2^a·3^b, and at most a + b + 1 or a + b from smaller remainders |
| Greedy.GreedyUses | DBCTest/subOptimal_DBC.cpp:138-188 | no term is used more than twice |
| Greedy.ThreePlaces | DBCTest/subOptimal_DBC.cpp:138-188 | a term that stands at three places of a chain is counted at least three times |
| GreedyLimbs.RemainderValue | DBCTest/subOptimal_DBC.cpp:179-182 | the computed remainder is the exact distance if and only if its subtraction borrows rightly; the difference is a multiple of 2^64 |
| GreedyLimbs.RunIsSound | DBCTest/subOptimal_DBC.cpp:172-187 | whatever terms are picked, if exponents never rise and the loop on limbs ends, the stored terms sum to n minus the signed sum of its spurious borrows |
| GreedyLimbs.DriftIsWhole | DBCTest/subOptimal_DBC.cpp:172-187 | that sum is a multiple of 2^64 |
| GreedyLimbs.RemaindersExactly | DBCTest/subOptimal_DBC.cpp:138-188 | the remainders the loop computes are the exact ones after every number of steps if and only if no step of the exact run borrows spuriously |
| GreedyLimbs.BorrowFreeLoop | DBCTest/subOptimal_DBC.cpp:138-188 | then the loop on limbs stores the exact greedy chain |
| Searches.RBoundIsStart | DBCTest/subOptimal_DBC.cpp:113-133 | the start (RBound, b) satisfies n < 2·2^a·3^b and is not far above n |
| Searches.BoundFactors | DBCTest/subOptimal_DBC.cpp:114-116 | the two constants are 9/(7 sqrt 2) and 16 sqrt 2/21 to fifteen digits |
| Searches.StartFits | DBCTest/variables.cpp:17 | from such a start the whole exact chain fits a row of `DBC_store`, and the start is a number of INTS limbs |
| Searches.StoredFacts | DBCTest/subOptimal_DBC.cpp:133-189 | every stored chain leads with a plus, its exponents never rise, and its value is n up to the spurious borrows, a multiple of 2^64 |
| Searches.ExactChainStored | DBCTest/subOptimal_DBC.cpp:133-189 | without spurious borrows the stored chain is the exact one: value n, few terms, no term at three places |
| Searches.TournamentCostInNumbers | DBCTest/subOptimal_DBC.cpp:190-191 | the compared cost is 150 a term, 70 a doubling and 126 a tripling |
| Searches.SafeIsBorrowFree | DBCTest/myBigInt.h:302-306 | with two limbs, or 3n < 2^64 - 2^32, no start borrows spuriously |
| Searches.NearestTerm | DBCTest/subOptimal_DBC.cpp:142-170 | the loop returns the term of the specification |
| Searches.Step | DBCTest/subOptimal_DBC.cpp:140-187 | one pass computes the next term, sign and limbs of the remainder as the loop on limbs does, borrows included |
| Searches.RunGreedy | DBCTest/EOS_DBC.cpp:34-88 | for every run that ends within its row, the slot holds the chain of the loop on limbs and its length; the other slot is untouched |
| Searches.Match | DBCTest/subOptimal_DBC.cpp:189-195 | after a comparison the slot that is kept holds the cheaper of the chain just stored and the best so far, slot 1 when they cost the same |
| Searches.Search | DBCTest/subOptimal_DBC.cpp:110-203 | the returned slot holds the chain of one of the starts 0 to limit, and none of those starts stores a cheaper one; with a negative limit it is the chain of the first start |
| Searches.MinCostIsLeast | DBCTest/subOptimal_DBC.cpp:189-202 | the cost returned is that of one of the chains stored, and none of them costs less |
| Searches.GetSubOptimalDbc | DBCTest/subOptimal_DBC.cpp:110-203 | the search with a window of 6 columns below the last and candidate limit k |
| Searches.GetEosDbc | DBCTest/EOS_DBC.cpp:10-105 | the search with a window of 4 columns below the last over all starts |
| Searches.LargerLimitHelps | DBCTest/subOptimal_DBC.cpp:196-198 | the cost returned does not rise with the candidate limit |
| LostBorrow.IsTried | DBCTest/subOptimal_DBC.cpp:126-133 | for n = 2^65 - 1 both bounds of column 5 are 57, so (57, 5) is a start |
| LostBorrow.NeverEnds | DBCTest/subOptimal_DBC.cpp:138-188 | a remainder whose top limb exceeds twice the room left in the row is not brought down to zero within it |
| LostBorrow.Overrun | DBCTest/subOptimal_DBC.cpp:138-188 | from (57, 5) with n = 2^65 - 1, for any window and any limb count from 3 up, the loop does not end within any row shorter than 2^31 entries |
| LostBorrow.NotBorrowFree | DBCTest/subOptimal_DBC.cpp:138-188 | so the exact condition fails for that input |

## Left out

- Builders.Builder.GetOptimalDbc: when tripling 2n loses a carry, the value of the exported chain is settled exactly (Builders.Builder.RightValueExactly), but whether a binary chain that wins there is also a cheapest chain of n is not. That the binary chain wins is a statement about the candidates, which the run computes; LostCarry.LighterLoses is the test that a caller can make first.
- PowerTables.Tables.constructor: that no tripling between stored powers loses a carry is shown for two limbs; it is a property of the limb count alone, and for more limbs a hypothesis of the builders (`Exact`).
- Searches.RunGreedy: a run that does not end within its row of `DBC_store` is excluded; the code then writes outside the row, and nothing is said about what follows.
- Searches.NearestTerm: distances are compared exactly; the rounding of doubles is not modelled (GreedyLimbs.RunIsSound holds for any selection).
- Points.DbcPointMul: an empty chain, for which the code reads whatever the slot last held, is excluded.
- `log`, `log2` and `to_double` are replaced by exact floors: floor(log2 2n) and floor(log3 2n) are parameters of the builder, and the candidate starts, in the order of `b_try`, are a parameter of the search.
- The work variables B, six_n, n0 and the loop indices are locals of the methods; record_outer, temp_outer, the tables, bBound, now_DBC, DBC_store, DBC_len and w_min are fields.
- The 16-bit exponent fields of a term never overflow, as exponents stay below 672; they are unbounded here.
- The copy of the dynamic program in `DBCTest/optimal_DBC2.cpp` and the unused routines `div_3`, `rshift_32()` and the two-argument `minL`.
- The byte-array and initializer-list constructors, printing of chains and points, benchmarks and scripts.
- Elliptic-curve formulas, OpenSSL big numbers and their memory management; the vendored OpenSSL tools and the GPU headers.
