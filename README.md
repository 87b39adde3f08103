# AETG covering-array generator, modelled in Dafny

This project models the core of the AETG_Project_2 generator for 3-way (and
2-way) combinatorial covering arrays. A *system* has k factors. Factor i owns an
inclusive range of globally numbered 16-bit levels. A *test case* (row) assigns
one level to each factor, and 65535 marks an unassigned entry. The generator
keeps three things:

- the set of level triples (pairs) not yet covered by any committed row;
- one 16-bit occurrence counter per level;
- the committed rows.

It builds the suite greedily. Two seed rows are committed first: every factor at
its minimum level, then every factor at its maximum level. After that, each
round builds 50 candidate rows and commits the one whose generator reported the
largest coverage. A candidate row starts from the level with the largest counter
and fills the other factors in shuffled order, picking at each step the level
that covers most uncovered triples. Rounds repeat until every triple is covered.
The driver repeats whole trials and keeps the smallest suite.

Module by module (one Dafny module per source file, plus the specification
theories the code needs):

| module | models |
|---|---|
| `CommonDef` | the 16-bit level and factor types and their sentinels |
| `MathUtility` | `factorial`, the memoised Pascal table `N_Choose_R` (class `ChooseTable` over an `array2`), and the iterative `N_Choose_T` |
| `Combination` | both `NextCombination` overloads, in place on an `array<int>`, proved against the lexicographic successor `Succ` |
| `Combination` (theory) | the enumeration that repeated calls produce (`LexFrom`), with its count C(n, r) |
| `ComponentSystem` | `TRange`/`TFactor` as datatypes, and `CComponentSystem` as a class over a sequence of factors |
| `TestCase` | `CTestCase` as a class over a sequence of levels, and its stream formatting |
| `Tuple` | pairs, triples and the two hash functions |
| `TripleCounts`, `PairCounts` | the counter bookkeeping: tallying, erasing, and the invariant linking counters to the uncovered set |
| `TripleUniverse`, `PairUniverse` | the exact sequences of tuples the generators' nested loops insert, and their members, uniqueness and sizes |
| `RowTuples` | the tuples a row yields and their members, and the fact that filling in more entries never lowers a row's coverage |
| `TestSuite` | `CTestSuite` as a class: universe generation, coverage, adding rows, the two candidate builders, the seed rows, splice and clear |
| `Aetg` | the trial body of the driver: seeding, rounds of best-of-50, best and worst suite tracking |

Randomness (`rand()`, the Mersenne Twister draws, `std::shuffle`, and the
1/iRandomMod tie rules) is modelled as a free choice. Each contract holds for
every outcome. The hash sets are mathematical sets. The occurrence counters are
a `seq` of 16-bit values whose increments and decrements wrap modulo 2^16, as
`std::vector<LEVEL_T>` does. The central invariant is `CountsMatch3`: each
counter holds its level's occurrences among the uncovered triples, modulo 2^16.
Generating the universe establishes it, and every addition of a row preserves
it. The driver model (`Aetg`) then carries `Tracking` across the trial: the
counters match, the uncovered set stays inside the universe, and every removed
triple is covered by a committed row. The conclusion is that a trial which
empties the uncovered set has produced a covering array: every triple of the
universe appears in some row.

The system's design description differs from its code in several places. The
model follows the code in each:

- When every level of a factor scores zero coverage, the 3-way builder draws a
  random level of the factor's range (TestSuite.cpp:572-576). Only the 2-way
  builder falls back to the minimum level (TestSuite.cpp:457-458), and even
  there a zero-scoring level may already have been kept on a coin flip.
- The count-based fallback for the first free factor scans [min, max) and never
  considers the factor's maximum level. Its ties use the same escalating coin
  flips as the other scans (TestSuite.cpp:521-536).
- A candidate builder reports the coverage of the last scan that strictly
  improved on its running best, not of the first positive one
  (TestSuite.cpp:439-444, 553-558).
- The round keeps a candidate by that reported coverage. It does not re-score
  the candidate (AETG_Project_Main.cpp:271-290).
- When all 50 candidates report 0, the kept row is the empty row. Adding it
  commits nothing and returns 0 (AETG_Project_Main.cpp:264-293).
- Adding a row returns the new suite size, not the number of triples removed
  (TestSuite.cpp:291-295).
- With fewer than three factors the 3-way generator does not terminate. The
  missing third factor reads the sentinel range [65535, 65535]. The innermost
  loop `j2 <= 65535` runs on a 16-bit level, which wraps to 0 after 65535, so
  the test never fails (TestSuite.cpp:95-106). Each pass also bumps the
  counter of level 65535, which lies past the counters. The model therefore
  requires k >= 3 there.

## Model

| member | source | states |
|---|---|---|
| CommonDef.SentinelsAreTypeMaximum | AETG_Project_2/CommonDef.h:20-49 | both sentinels are 65535, the type maximum; a value is a valid level (factor) exactly when it is below it |
| MathUtility.Factorial | AETG_Project_2/MathUtility.h:23-29 | n! is at least 1 and at least n |
| MathUtility.BinomialFactorial | AETG_Project_2/ComponentSystem.h:306-324 | the Pascal-rule binomial satisfies C(n, r) · r! · (n − r)! = n! for r ≤ n |
| MathUtility.BinomialDiagonal | AETG_Project_2/MathUtility.h:47-50 | C(n, n) = 1, the value N_Choose_R returns for N == R |
| MathUtility.BinomialPositive | AETG_Project_2/MathUtility.h:45-60 | every coefficient inside the triangle is at least 1, so a computed table entry is never 0 |
| MathUtility.BinomialAboveIsZero | AETG_Project_2/MathUtility.cpp:24-25 | C(n, r) = 0 for r > n |
| MathUtility.BinomialStep | AETG_Project_2/MathUtility.h:63-66 | C(n, i) · i = C(n, i − 1) · (n − i + 1), the step the iterative routine relies on |
| MathUtility.NChooseT | AETG_Project_2/MathUtility.cpp:20-36 | as written: 0 when t > n, 1 when t = 0, and C(n, t − 1) for 1 ≤ t ≤ n |
| MathUtility.NChooseTCorrected | AETG_Project_2/MathUtility.cpp:20-36 | the intended routine (loop bound i ≤ t) returns C(n, t) for all n, t |
| MathUtility.NChooseTMissesLastFactor | AETG_Project_2/MathUtility.cpp:29-33 | for n = 4, t = 3 the as-written routine yields C(4, 2) = 6 while C(4, 3) = 4 |
| MathUtility.ChooseTable.constructor | AETG_Project_2/MathUtility.h:42-43 | a fresh size × size table whose entries are all 0 |
| MathUtility.ChooseTable.Choose | AETG_Project_2/MathUtility.h:45-60 | returns C(N, R) (at least 1) for R ≤ N < size; every entry already set keeps its value, and every nonzero entry is the binomial |
| Combination.NextCombination | AETG_Project_2/MathUtility.cpp:38-50 | on an increasing subset of [0, n): returns false exactly when it is the last subset, and then every cell has been incremented once; otherwise the array becomes the lexicographic successor |
| Combination.MakeConsecutive | AETG_Project_2/MathUtility.cpp:44-45 | the cells after the pivot become consecutive from the pivot's value; the cells before it are unchanged |
| Combination.NextCombinationBytes | AETG_Project_2/MathUtility.cpp:52-64 | the BYTE overload has the same contract, for sets of at most 255 elements |
| Combination.SuccIsCombination | AETG_Project_2/MathUtility.cpp:42-45 | the successor is again an increasing subset of [0, n), so every cell i stays at most n − r + i |
| Combination.SuccIsGreater | AETG_Project_2/MathUtility.h:69-84 | the successor lies lexicographically above its argument |
| Combination.SuccIsNext | AETG_Project_2/MathUtility.h:69-84 | no subset of the same size lies strictly between a subset and its successor |
| Combination.SuccAtPivot | AETG_Project_2/MathUtility.cpp:40-47 | at the rightmost cell that can still advance, the successor keeps the prefix and makes the rest a run from that cell's value plus 1 |
| Combination.NoPivotIsLast | AETG_Project_2/MathUtility.cpp:40-49 | when no cell can advance the subset is the last one, the case in which false is returned |
| Combination.LastIsMaximum | AETG_Project_2/MathUtility.h:81-82 | no subset of its size lies above the last subset |
| Combination.CombinationBounds | AETG_Project_2/MathUtility.cpp:42 | cell i of a size-r subset of [0, n) holds a value in [i, n − r + i], and r ≤ n |
| Combination.LexTotal | AETG_Project_2/MathUtility.h:69-84 | the lexicographic order used is total on sequences of equal length |
| Combination.LexTransitive | AETG_Project_2/MathUtility.h:69-84 | the lexicographic order is transitive |
| Combination.CombosMembers | AETG_Project_2/ComponentSystem.h:306-324 | the Pascal-rule set Combos(n, r) holds exactly the increasing subsets of [0, n) of size r |
| Combination.CombosCount | AETG_Project_2/ComponentSystem.h:306-324 | there are exactly C(n, r) such subsets |
| Combination.LexFromMembers | AETG_Project_2/MathUtility.cpp:38-50 | every subset visited by repeated calls has the starting size and lies above the start, and the walk ends at the last subset |
| Combination.LexFromIncreasing | AETG_Project_2/MathUtility.cpp:38-50 | the visits are strictly increasing, so no subset is visited twice |
| Combination.LexFromComplete | AETG_Project_2/MathUtility.cpp:38-50 | every subset at or above the start is visited |
| Combination.EnumerationIsComplete | AETG_Project_2/MathUtility.cpp:38-50 | starting from [0, …, r − 1], the visits are exactly the size-r subsets of [0, n), C(n, r) of them |
| Combination.WalkStep | AETG_Project_2/TestSuite.cpp:91-124 | one step of a loop driven by NextCombination either moves to the next unvisited subset (the remaining walk shrinking) or ends the walk having visited everything |
| ComponentSystem.Range.SetMin | AETG_Project_2/ComponentSystem.h:72-73 | set_Min changes the minimum and keeps the maximum |
| ComponentSystem.Range.SetMax | AETG_Project_2/ComponentSystem.h:80-81 | set_Max changes the maximum and keeps the minimum |
| ComponentSystem.Factor.SetLevelRange | AETG_Project_2/ComponentSystem.h:130-165 | afterwards get_MinLevel and get_MaxLevel return the two given bounds |
| ComponentSystem.RangeFacts | AETG_Project_2/ComponentSystem.h:43-117 | membership is inclusive at both ends and empty for inverted bounds; a default range holds only 0 and a default factor only the sentinel |
| ComponentSystem.Resize | AETG_Project_2/ComponentSystem.cpp:34 | vector::resize(k) keeps the first k factors and pads with default factors |
| ComponentSystem.UniformBounds | AETG_Project_2/ComponentSystem.cpp:36-42 | when k · v fits in 16 bits, factor i gets exactly [i · v, i · v + v − 1] despite the casts |
| ComponentSystem.UniformLayout | AETG_Project_2/ComponentSystem.cpp:36-42 | the uniform ranges are ascending, disjoint and contiguous |
| ComponentSystem.UniformLookup | AETG_Project_2/ComponentSystem.cpp:36-42 | a level l below k · v lies in factor l / v and in no other |
| ComponentSystem.UniformOwner | AETG_Project_2/ComponentSystem.cpp:36-42 | each level below k · v has exactly one owning factor |
| ComponentSystem.UniformSystemLevel | AETG_Project_2/ComponentSystem.cpp:82-91 | in the uniform layout the last factor's maximum is k · v − 1, every range is proper and below it, and every level up to it is owned |
| ComponentSystem.PermutationOfIndices | AETG_Project_2/ComponentSystem.cpp:161-180 | a sequence with the multiset of [0, k) has length k and holds each factor exactly once |
| ComponentSystem.SwapKeepsMultiset | AETG_Project_2/ComponentSystem.cpp:174 | exchanging two entries, as a shuffle does, keeps the multiset |
| ComponentSystem.ComponentSystem.constructor | AETG_Project_2/ComponentSystem.h:192-196 | a new system has no factors, 0 levels and an empty factor table |
| ComponentSystem.ComponentSystem.NumFactors | AETG_Project_2/ComponentSystem.h:342-343 | the factor count is the length of the factor table |
| ComponentSystem.ComponentSystem.Init | AETG_Project_2/ComponentSystem.cpp:23-46 | succeeds iff k > 0 and v > 0; on success the table is the uniform layout; on failure nothing changes |
| ComponentSystem.ComponentSystem.SetLevelRange | AETG_Project_2/ComponentSystem.cpp:48-58 | succeeds iff the factor exists; only that factor's range changes, and on failure nothing changes |
| ComponentSystem.ComponentSystem.GetMinLevel | AETG_Project_2/ComponentSystem.cpp:60-69 | the factor's minimum, or LEVEL_INVALID for a factor that does not exist |
| ComponentSystem.ComponentSystem.GetMaxLevel | AETG_Project_2/ComponentSystem.cpp:71-80 | the factor's maximum, or LEVEL_INVALID for a factor that does not exist |
| ComponentSystem.ComponentSystem.GetMaxSystemLevel | AETG_Project_2/ComponentSystem.cpp:82-91 | the last factor's maximum, or LEVEL_INVALID with no factors |
| ComponentSystem.ComponentSystem.GetRandomLevel | AETG_Project_2/ComponentSystem.cpp:93-115 | any outcome lies in the factor's range; LEVEL_INVALID for a factor that does not exist |
| ComponentSystem.ComponentSystem.GetRandomFactor | AETG_Project_2/ComponentSystem.cpp:117-137 | any outcome lies in [0, k) when k > 1; otherwise FACTOR_INVALID |
| ComponentSystem.ComponentSystem.GetFactor | AETG_Project_2/ComponentSystem.cpp:139-159 | the first factor whose range holds the level; FACTOR_INVALID exactly when none does |
| ComponentSystem.ComponentSystem.GetShuffledFactors | AETG_Project_2/ComponentSystem.cpp:161-180 | for k > 1 the result is a permutation of [0, k) and k is returned; otherwise 0 is returned with the vector untouched |
| ComponentSystem.ComponentSystem.CalcNumberOfVariableCombinations | AETG_Project_2/ComponentSystem.cpp:182-193 | C(k, t) for t ≤ k < 50 |
| ComponentSystem.GetFactorAfterUniformInit | AETG_Project_2/ComponentSystem.cpp:139-159 | after a uniform Init the lookup returns l / v for every level below k · v and FACTOR_INVALID above it |
| Tuple.T2Hash | AETG_Project_2/Tuple.h:42-44 | the pair hash, with the int shift's sign extension, is a 64-bit value |
| Tuple.T2HashValue | AETG_Project_2/Tuple.h:42-44 | for a < 2^15 the hash is a · 2^16 + b; from 2^15 on the upper word also carries the sign extension |
| Tuple.T2HashInjective | AETG_Project_2/Tuple.h:39-45 | distinct pairs hash differently (for every a, not only a < 2^15) |
| Tuple.T3HashBound | AETG_Project_2/Tuple.h:50-63 | the triple hash of 16-bit levels stays below 2^32 |
| Tuple.T3HashCollides | AETG_Project_2/Tuple.h:57-63 | the triple hash is not injective: (256, 0, 0) and (0, 1, 0) both hash to 256 |
| TestCase.CountValid | AETG_Project_2/TestCase.cpp:19-32 | the number of valid entries never exceeds the row length |
| TestCase.CountValidOfSentinels | AETG_Project_2/TestCase.h:80-84 | a row of sentinels has no valid entry |
| TestCase.CountValidUpdate | AETG_Project_2/TestCase.cpp:19-32 | writing one entry changes the count by the change in that entry's validity; a valid level written over a sentinel raises it by exactly 1 |
| TestCase.CountValidFull | AETG_Project_2/TestCase.cpp:19-32 | the count equals the length exactly when every entry is valid |
| TestCase.DecimalRoundTrip | AETG_Project_2/TestCase.cpp:11-17 | the decimal digits written for a level read back as that level |
| TestCase.FormatAppend | AETG_Project_2/TestCase.cpp:11-17 | the text of a row with one more level is the old text, that level's digits and one space |
| TestCase.FormatRoundTrip | AETG_Project_2/TestCase.cpp:11-17 | the written text parses back to the row, so formatting loses nothing |
| TestCase.TestCase.constructor | AETG_Project_2/TestCase.h:53-55 | a new row is empty |
| TestCase.TestCase.Copy | AETG_Project_2/TestCase.h:57-59 | copy construction yields an equal level sequence |
| TestCase.TestCase.Assign | AETG_Project_2/TestCase.h:62-69 | assignment yields an equal level sequence (self-assignment included) |
| TestCase.TestCase.Init | AETG_Project_2/TestCase.h:80-84 | n entries, all LEVEL_INVALID, none valid |
| TestCase.TestCase.Size | AETG_Project_2/TestCase.h:91-92 | the current row length |
| TestCase.TestCase.Set | AETG_Project_2/TestCase.h:111-112 | a write through operator[] changes entry p only, keeps the length, and moves the valid count by the change in that entry's validity |
| TestCase.TestCase.GetNumValidFactors | AETG_Project_2/TestCase.cpp:19-32 | the loop's result is the number of entries that are not LEVEL_INVALID |
| TestCase.TestCase.Write | AETG_Project_2/TestCase.cpp:11-17 | operator<< appends every level in index order, each followed by one space |
| TripleCounts.OccInsert3 | AETG_Project_2/TestSuite.h:60 | inserting a new triple adds its occurrences to each level's count |
| TripleCounts.OccRemove3 | AETG_Project_2/TestSuite.h:60 | erasing a present triple removes its occurrences |
| TripleCounts.BumpValue3 | AETG_Project_2/TestSuite.cpp:115-117 | the three increments move each counter by the level's occurrences in the triple, modulo 2^16 |
| TripleCounts.DropValue3 | AETG_Project_2/TestSuite.cpp:280-287 | the three decrements move each counter back by the level's occurrences, modulo 2^16 |
| TripleCounts.TallyValue3 | AETG_Project_2/TestSuite.cpp:102-121 | after the loops each counter has grown by its level's occurrences along the inserted triples, modulo 2^16 |
| TripleCounts.TallyEstablishesMatch3 | AETG_Project_2/TestSuite.cpp:79-127 | tallying a repetition-free sequence from zero counters establishes the counter invariant for its element set |
| TripleCounts.ErasePreservesMatch3 | AETG_Project_2/TestSuite.cpp:276-289 | the erase loop preserves the counter invariant for the reduced set |
| TripleCounts.EraseNothing3 | AETG_Project_2/TestSuite.cpp:276-289 | erasing triples none of which is present changes neither the set nor any counter, so a second add of the same row erases nothing |
| TripleCounts.PositiveCount3 | AETG_Project_2/TestSuite.cpp:481-487 | while no level occurs 2^16 times, a nonempty uncovered set shows a positive counter, so the anchor lookup succeeds |
| PairCounts.BumpValue2 | AETG_Project_2/TestSuite.cpp:68-69 | the two increments move each counter by the level's occurrences in the pair, modulo 2^16 |
| PairCounts.DropValue2 | AETG_Project_2/TestSuite.cpp:254-258 | the two decrements move each counter back by the level's occurrences, modulo 2^16 |
| PairCounts.TallyValue2 | AETG_Project_2/TestSuite.cpp:56-72 | after the loops each counter has grown by its level's occurrences along the inserted pairs, modulo 2^16 |
| PairCounts.TallyEstablishesMatch2 | AETG_Project_2/TestSuite.cpp:49-75 | tallying a repetition-free sequence of pairs from zero counters establishes the counter invariant |
| PairCounts.ErasePreservesMatch2 | AETG_Project_2/TestSuite.cpp:250-260 | the 2-way erase loop preserves the counter invariant |
| PairCounts.EraseNothing2 | AETG_Project_2/TestSuite.cpp:250-260 | erasing absent pairs changes nothing |
| PairCounts.PositiveCount2 | AETG_Project_2/TestSuite.cpp:406-409 | while no level occurs 2^16 times, a nonempty uncovered pair set shows a positive counter |
| TripleUniverse.LaneFacts | AETG_Project_2/TestSuite.cpp:106-119 | the innermost loop inserts each (j0, j1, j2) for j2 in the range once, and nothing else |
| TripleUniverse.CubeFacts | AETG_Project_2/TestSuite.cpp:102-121 | the three loops insert exactly the product of the three ranges, each triple once, as many as the product of the widths |
| TripleUniverse.AllColumns | AETG_Project_2/TestSuite.cpp:85-123 | the column walk starts at the subset [0, 1, 2] and visits only increasing factor triples |
| TripleUniverse.ColumnListed | AETG_Project_2/TestSuite.cpp:91-124 | every increasing factor triple is visited by the walk |
| TripleUniverse.AllTriplesMembers | AETG_Project_2/TestSuite.cpp:79-127 | the generated universe holds exactly the triples taking their levels, in range, from three distinct factors in increasing order |
| TripleUniverse.CubeDisjoint | AETG_Project_2/TestSuite.cpp:108-114 | with ascending ranges, products of distinct factor triples share no triple |
| TripleUniverse.AllTriplesNoDup | AETG_Project_2/TestSuite.cpp:108-114 | with ascending ranges no triple is inserted twice, the duplicate the debug trace watches for |
| TripleUniverse.Universe3Size | AETG_Project_2/TestSuite.cpp:94-121 | with v levels per factor each factor triple contributes v³ triples |
| TripleUniverse.UniformTripleCount | AETG_Project_2/ComponentSystem.cpp:195-204 | the uniform layout has C(k, 3) · v³ distinct triples, the integer 3-way configuration count |
| PairUniverse.PairLaneFacts | AETG_Project_2/TestSuite.cpp:63-70 | the innermost loop inserts (j, l) for each l of its span once, and nothing else |
| PairUniverse.PairSheetFacts | AETG_Project_2/TestSuite.cpp:61-71 | the middle loop inserts each level of the factor paired with each level above the factor's range up to the top, each once |
| PairUniverse.AllPairsMembers | AETG_Project_2/TestSuite.cpp:49-75 | the 2-way universe holds exactly the pairs starting in some factor but the last and ending above that factor's range, up to the top level |
| PairUniverse.Universe2NoDup | AETG_Project_2/TestSuite.cpp:56-72 | with ascending ranges the factor loop never inserts a pair twice |
| PairUniverse.AllPairsNoDup | AETG_Project_2/TestSuite.cpp:49-75 | the whole 2-way universe is repetition-free |
| PairUniverse.UniformPairsMembers | AETG_Project_2/TestSuite.cpp:49-75 | in the uniform layout those pairs are exactly the pairs spanning two factors |
| PairUniverse.UniformUniverse2Size | AETG_Project_2/TestSuite.cpp:56-72 | the first m factors contribute (C(k, 2) − C(k − m, 2)) · v² pairs |
| PairUniverse.UniformPairCount | AETG_Project_2/ComponentSystem.cpp:195-204 | the uniform layout has C(k, 2) · v² distinct pairs |
| RowTuples.ThreeValid | AETG_Project_2/TestSuite.cpp:169 | three valid entries make the valid count at least T_WAY, so the row's triples are listed |
| RowTuples.FillExtends | AETG_Project_2/TestSuite.cpp:505 | writing a level into an unassigned entry keeps every assigned entry |
| RowTuples.ExtendsCountValid | AETG_Project_2/TestSuite.cpp:516 | a row that keeps every assigned entry has at least as many valid entries |
| RowTuples.RowTriplesMembers | AETG_Project_2/TestSuite.cpp:164-199 | a row's listed triples are exactly the triples of its valid entries on increasing column triples |
| RowTuples.RowTriplesGrow | AETG_Project_2/TestSuite.cpp:501-579 | filling in more entries never lowers the number of listed uncovered triples |
| RowTuples.PairsWithMembers | AETG_Project_2/TestSuite.cpp:147-156 | the inner loop lists (row[i], row[j]) for exactly the valid entries j after i |
| RowTuples.AnchoredMembers | AETG_Project_2/TestSuite.cpp:144-157 | first position p contributes the pairs of row[p] with later valid entries, and none when row[p] is not valid |
| RowTuples.PairsBelowMembers | AETG_Project_2/TestSuite.cpp:142-158 | the outer loop up to m lists exactly the pairs of valid entries whose first position is below m |
| RowTuples.RowPairsMembers | AETG_Project_2/TestSuite.cpp:129-162 | a row's listed pairs are exactly the pairs of valid entries at increasing positions |
| RowTuples.RowPairsGrow | AETG_Project_2/TestSuite.cpp:418-462 | filling in more entries never lowers the number of listed uncovered pairs |
| TestSuite.FindGreatestOccuringLevel | AETG_Project_2/TestSuite.cpp:299-326 | for every outcome of the coin flips: LEVEL_INVALID when all counters are 0; otherwise a level whose counter is positive and maximal |
| TestSuite.GenerateStep3 | AETG_Project_2/TestSuite.cpp:92-124 | one outer pass adds the product of the current factor triple to the set and the counters, then advances or ends the walk |
| TestSuite.InsertTriple | AETG_Project_2/TestSuite.cpp:108-117 | the innermost body inserts the triple and increments its three counters |
| TestSuite.InsertLane3 | AETG_Project_2/TestSuite.cpp:106-119 | the innermost loop inserts and tallies the lane of (j0, j1) |
| TestSuite.InsertSheet3 | AETG_Project_2/TestSuite.cpp:104-120 | the middle loop inserts and tallies the sheet of j0 |
| TestSuite.InsertCube3 | AETG_Project_2/TestSuite.cpp:102-121 | the three loops insert and tally the product of the three ranges |
| TestSuite.InsertPair | AETG_Project_2/TestSuite.cpp:65-69 | the innermost body inserts the pair and increments its two counters |
| TestSuite.InsertPairLane | AETG_Project_2/TestSuite.cpp:63-70 | the innermost loop inserts and tallies j paired with every level from the start to the top |
| TestSuite.InsertPairSheet | AETG_Project_2/TestSuite.cpp:61-71 | the middle loop inserts and tallies every level of the factor paired with every level above its range |
| TestSuite.InsertFactorPairs | AETG_Project_2/TestSuite.cpp:56-72 | one pass of the factor loop extends the inserted set and the counters by that factor's pairs |
| TestSuite.InsertAllPairs | AETG_Project_2/TestSuite.cpp:56-72 | the factor loop inserts and tallies the whole 2-way universe |
| TestSuite.AppendPairsWith | AETG_Project_2/TestSuite.cpp:147-156 | the inner loop appends row[i] paired with every later valid entry, and the count tracks the vector's length |
| TestSuite.CountFound | AETG_Project_2/TestSuite.cpp:208-212 | the coverage loop counts the listed tuples that are still uncovered |
| TestSuite.ErasePairs | AETG_Project_2/TestSuite.cpp:250-260 | the erase loop removes the row's pairs and decrements both counters of each pair actually erased |
| TestSuite.EraseTriples | AETG_Project_2/TestSuite.cpp:276-289 | the erase loop removes the row's triples and decrements the three counters of each triple actually erased |
| TestSuite.BestCountedLevel | AETG_Project_2/TestSuite.cpp:521-536 | the fallback scan over [min, max) returns LEVEL_INVALID iff every counter there is 0; otherwise a level of [min, max) with a positive maximal counter |
| TestSuite.FilledAll | AETG_Project_2/TestSuite.cpp:501-505 | once every factor of the shuffled order has been handled, every entry lies in its factor's range |
| TestSuite.TestSuite.constructor | AETG_Project_2/TestSuite.h:71-80 | no factors, maximum level LEVEL_INVALID, and empty counters, working vectors, sets and suite |
| TestSuite.TestSuite.Init | AETG_Project_2/TestSuite.cpp:36-47 | takes the system's factor count and maximum level; one zero counter per level; both sets and the suite empty; the working vectors untouched |
| TestSuite.TestSuite.NumUncoveredT2Tuples | AETG_Project_2/TestSuite.h:209-210 | 0 exactly when no pair is uncovered |
| TestSuite.TestSuite.NumUncoveredT3Tuples | AETG_Project_2/TestSuite.h:218-219 | 0 exactly when no triple is uncovered, the driver's loop test |
| TestSuite.TestSuite.TestSuiteSize | AETG_Project_2/TestSuite.h:228-229 | 0 exactly when the suite is empty |
| TestSuite.TestSuite.CoverColumns | AETG_Project_2/TestSuite.cpp:92-124 | one pass of the column loop: the product of the current factor triple joins the set and the counters, and the columns advance |
| TestSuite.TestSuite.GenerateUncoveredT3Tuples | AETG_Project_2/TestSuite.cpp:78-127 | the set becomes the whole 3-way universe, each counter counts its level's occurrences in it from zero, and the set's size is returned |
| TestSuite.TestSuite.GenerateUncoveredT2Tuples | AETG_Project_2/TestSuite.cpp:49-75 | the pair set becomes the whole 2-way universe, with counters tallied from zero, and its size is returned |
| TestSuite.TestSuite.GenerateTestCaseT2Tuples | AETG_Project_2/TestSuite.cpp:129-162 | for a row of two or more entries the working vector becomes the row's pairs and their number is returned; a shorter row leaves it as it was and yields 0 |
| TestSuite.TestSuite.ShowColumns | AETG_Project_2/TestSuite.cpp:177-195 | one pass appends the triple the row shows on the current columns and advances them |
| TestSuite.TestSuite.GenerateTestCaseT3Tuples | AETG_Project_2/TestSuite.cpp:164-199 | the working vector becomes the row's triples (none with fewer than three valid entries) and their number is returned |
| TestSuite.TestSuite.CalculateT2TestCaseCoverage | AETG_Project_2/TestSuite.cpp:201-215 | the number of the listed pairs still uncovered; the set and counters are unchanged |
| TestSuite.TestSuite.CalculateT3TestCaseCoverage | AETG_Project_2/TestSuite.cpp:217-240 | the number of the row's triples still uncovered; the set and counters are unchanged |
| TestSuite.TestSuite.AddToT2TestSuite | AETG_Project_2/TestSuite.cpp:243-265 | the row's pairs leave the set, counters drop for the pairs erased, the invariant is kept, and the row is appended unconditionally |
| TestSuite.TestSuite.AddToT3TestSuite | AETG_Project_2/TestSuite.cpp:267-296 | when the row yields triples they leave the set, counters drop for those erased, and the row is appended; otherwise nothing changes and 0 is returned; the invariant is kept |
| TestSuite.TestSuite.ScoreLevel3 | AETG_Project_2/TestSuite.cpp:547-567 | one pass of the coverage scan keeps a best level whose coverage is at least every level tried so far |
| TestSuite.TestSuite.ScoreLevels3 | AETG_Project_2/TestSuite.cpp:547-567 | after the scan the kept level (if any) has coverage at least that of every level of [min, max]; the reported value becomes that largest coverage when it is positive and is unchanged otherwise |
| TestSuite.TestSuite.FillFactor3 | AETG_Project_2/TestSuite.cpp:509-578 | the factor gets a level of its range chosen as `Greedy3` says: with fewer than two valid entries a level whose counter is the largest over [min, max), below max whenever such a counter is positive, the report unchanged; otherwise a level whose coverage is the largest over [min, max], the report becoming that coverage when positive; the report never exceeds the new row's coverage |
| TestSuite.TestSuite.PlaceAnchor | AETG_Project_2/TestSuite.cpp:473-499 | the row has one entry per factor, the anchor entry holds a most counted level and every other entry is unassigned, assigned entries lie in their factor's range, and the shuffled order lists every factor |
| TestSuite.TestSuite.FillNext3 | AETG_Project_2/TestSuite.cpp:503-579 | one pass as `Step3`: an assigned factor keeps its level and the report; an unassigned one gets the `Greedy3` level and report; assigned entries stay in range |
| TestSuite.TestSuite.FillInOrder3 | AETG_Project_2/TestSuite.cpp:501-580 | the recorded rows, levels and reports form a `Run3` over the order (every pass greedy) from the starting row and a report of 0, ending at the final row and result; every factor then holds a level of its range and the anchor is kept |
| TestSuite.TestSuite.GenerateT3TestCaseCandidate | AETG_Project_2/TestSuite.cpp:468-584 | for k ≤ 2 returns 0 with nothing changed; otherwise the run starts from a row holding only a most counted level, every pass over the shuffled order of all factors chooses greedily (`Run3`), the result is 0 or the largest coverage some pass's scan reached (`ScanReported3`), and it never exceeds the finished row's coverage |
| TestSuite.RunReport3 | AETG_Project_2/TestSuite.cpp:501-580 | along a 3-way run the report is the starting one or the coverage of a level some earlier pass's scan chose, positive and the largest over that factor's range |
| TestSuite.TestSuite.ScoreLevel2 | AETG_Project_2/TestSuite.cpp:434-452 | one pass of the 2-way scan keeps a best level whose coverage is at least every level tried |
| TestSuite.TestSuite.ScoreLevels2 | AETG_Project_2/TestSuite.cpp:434-453 | after the 2-way scan the kept level's coverage is maximal over [min, max]; the reported value becomes that coverage when positive and is unchanged otherwise |
| TestSuite.TestSuite.FillFactor2 | AETG_Project_2/TestSuite.cpp:426-460 | the factor gets a level of its range whose pair coverage is the largest over [min, max] (`Greedy2`), the report becoming that coverage when positive and unchanged otherwise; the report never exceeds the new row's pair coverage |
| TestSuite.TestSuite.FillNext2 | AETG_Project_2/TestSuite.cpp:420-461 | one pass as `Step2`: an assigned factor keeps its level and the report; an unassigned one gets the `Greedy2` level and report |
| TestSuite.TestSuite.FillInOrder2 | AETG_Project_2/TestSuite.cpp:418-462 | the recorded rows, levels and reports form a `Run2` over the order from the starting row and a report of 0, ending at the final row and result; every factor then holds a level of its range and the anchor is kept |
| TestSuite.TestSuite.GenerateT2TestCaseCandidate | AETG_Project_2/TestSuite.cpp:393-466 | for k ≤ 1 returns 0 with nothing changed; otherwise the run starts from a row holding only a most counted level, every pass chooses greedily (`Run2`), the result is 0 or the largest pair coverage some pass's scan reached (`ScanReported2`), and it never exceeds the finished row's pair coverage |
| TestSuite.RunReport2 | AETG_Project_2/TestSuite.cpp:418-462 | along a 2-way run the report is the starting one or the coverage of a level some earlier pass's scan chose, positive and the largest over that factor's range |
| TestSuite.TestSuite.GenerateMinLevelCandidate | AETG_Project_2/TestSuite.cpp:586-603 | succeeds iff k > 1, giving each factor its minimum level; otherwise the row is untouched |
| TestSuite.TestSuite.GenerateMaxLevelCandidate | AETG_Project_2/TestSuite.cpp:606-623 | succeeds iff k > 1, giving each factor its maximum level; otherwise the row is untouched |
| TestSuite.TestSuite.SpliceTestSuite | AETG_Project_2/TestSuite.cpp:625-631 | the rows move, in order, to the front of the destination; the suite is left empty and the destination's size is returned |
| TestSuite.TestSuite.ClearTestSuite | AETG_Project_2/TestSuite.cpp:633-638 | the suite is empty and 0 is returned |
| TripleCounts.TallyFromZero3 | AETG_Project_2/TestSuite.cpp:83-117 | tallying from zero counters gives each level its occurrences modulo 2^16 |
| TripleCounts.OccSubset3 | AETG_Project_2/TestSuite.h:60 | a level occurs no more often in a subset than in the whole set |
| PairCounts.OccInsert2 | AETG_Project_2/TestSuite.h:60 | inserting a new pair adds its occurrences to each level's count |
| PairCounts.OccRemove2 | AETG_Project_2/TestSuite.h:60 | erasing a present pair removes its occurrences |
| PairCounts.TallyFromZero2 | AETG_Project_2/TestSuite.cpp:54-69 | tallying pairs from zero counters gives each level its occurrences modulo 2^16 |
| PairCounts.OccSubset2 | AETG_Project_2/TestSuite.h:60 | a level occurs no more often among a subset of pairs than among all of them |
| TripleUniverse.SheetFacts | AETG_Project_2/TestSuite.cpp:104-120 | the middle loop inserts each (j0, j1, j2) with j1 and j2 in their ranges once, and nothing else |
| TripleUniverse.BlockFacts | AETG_Project_2/TestSuite.cpp:102-121 | the loops for one factor triple insert, without repeats, exactly the triples of that product |
| TripleUniverse.Universe3Members | AETG_Project_2/TestSuite.cpp:92-124 | the tuples inserted over a list of factor triples are exactly the union of their products |
| TripleUniverse.Universe3NoDup | AETG_Project_2/TestSuite.cpp:92-124 | over distinct increasing factor triples with ascending ranges nothing is inserted twice |
| PairUniverse.Universe2Members | AETG_Project_2/TestSuite.cpp:56-72 | the pairs inserted for the first m factors are exactly those starting in one of them |
| RowTuples.TriplesOfMembers | AETG_Project_2/TestSuite.cpp:177-195 | the triples listed over a list of column triples are exactly the row's entries on those columns, when all three are valid |
| Aetg.CandidateReady | AETG_Project_2/AETG_Project_Main.cpp:262-271 | while triples stay uncovered some counter is positive and every positive counter belongs to a factor, as the candidate builder needs |
| Aetg.TripleLevelsOwned | AETG_Project_2/TestSuite.cpp:96-110 | each level of a universe triple lies in some factor's range |
| Aetg.OccurrenceWitness | AETG_Project_2/TestSuite.h:60 | a level with a positive occurrence count appears in some uncovered triple |
| Aetg.CommitShrinks | AETG_Project_2/AETG_Project_Main.cpp:262-293 | committing a row that covers an uncovered triple strictly shrinks the uncovered set, so each productive round makes progress |
| Aetg.CommitCovers | AETG_Project_2/TestSuite.cpp:267-296 | after a commit every triple removed so far is a triple of some committed row |
| Aetg.FreshTracking | AETG_Project_2/AETG_Project_Main.cpp:235-239 | right after the universe is built the trial's invariant holds with an empty suite |
| Aetg.FullRowShows | AETG_Project_2/AETG_Project_Main.cpp:244-260 | a full row shows the triple of its first three entries, so a seed row is always committed |
| Aetg.Commit | AETG_Project_2/AETG_Project_Main.cpp:293 | a commit removes the row's triples, appends the row exactly when it yields triples, and keeps the trial's invariant |
| Aetg.Keep | AETG_Project_2/AETG_Project_Main.cpp:276-290 | the kept coverage never falls and is at least the new report; it is one of the two; a positive kept coverage belongs to a full row that covers at least that much |
| Aetg.Consider | AETG_Project_2/AETG_Project_Main.cpp:269-290 | one candidate pass keeps the kept coverage maximal over all reports so far and attained by one of them |
| Aetg.PickBest | AETG_Project_2/AETG_Project_Main.cpp:264-291 | after 50 candidates the kept coverage is the largest report; when it is 0 the kept row is the empty row |
| Aetg.Settle | AETG_Project_2/AETG_Project_Main.cpp:293 | a kept row with positive coverage is appended and strictly shrinks the uncovered set; the empty row changes nothing and gives 0 |
| Aetg.Round | AETG_Project_2/AETG_Project_Main.cpp:262-302 | one loop iteration keeps the trial's invariant, commits the best reported candidate, and strictly shrinks the uncovered set whenever that coverage is positive |
| Aetg.CommitSeed | AETG_Project_2/AETG_Project_Main.cpp:244-260 | a seed row holds every factor's minimum (maximum) level and is always appended, keeping the invariant |
| Aetg.BuildSuite | AETG_Project_2/AETG_Project_Main.cpp:235-302 | the suite starts with the all-minimum and all-maximum rows, keeps the invariant, and stops early only when nothing stays uncovered; the result is 0 when no round ran and the suite size when a round ran and everything is covered |
| Aetg.Trial | AETG_Project_2/AETG_Project_Main.cpp:233-321 | a finished suite covers every triple of the universe; the reported size is 0 when no round ran and the finished suite's size after a finishing round; the kept suite and best and worst sizes are replaced exactly by the comparisons the driver makes |
| Aetg.Trials | AETG_Project_2/AETG_Project_Main.cpp:233-322 | after the repetitions the kept suite has the best size, which is at most the worst, and each of its rows is a full row |

## Left out

- Console I/O is not modelled: the prompts for v and k with their advertised [1..100] range, which the driver does not enforce (it casts whatever is read to `FACTOR_T` and `LEVEL_T`, AETG_Project_Main.cpp:215-227), `OutputTestSuite` and the result printing (AETG_Project_Main.cpp:169-232, 323-355).
- Timing is left out: the chrono time points, elapsed and cumulative times, the averages and the running total of sizes (AETG_Project_Main.cpp:237, 304-309). These concern reporting, not the suite.
- Debug output is left out: `DebugUtility`, the `_DEBUG` traces, `CTestCase::ToString` and `PrintTuple`. They only format text. The stream operator's format is modelled by `TestCase.TestCase.Write`.
- `CalcNumberOfTWayConfigurations` is left out because it computes in floating point (`pow`). The integer quantity it approximates for the uniform layout is proved in `TripleUniverse.UniformTripleCount` and `PairUniverse.UniformPairCount`.
- The hash containers' bucket structure is left out. The uncovered tuples are a mathematical set; only the hash functions are modelled (`Tuple`).
- Iteration with begin/end is left out. The suite is a sequence whose index order is the list order.
- Destructors, precompiled headers and target-version headers are left out; they carry no behaviour.
- Randomness has no probabilities: `rand()`, the Mersenne Twister draws and `std::shuffle` are free choices, and every contract holds for each outcome. Uniformity is not stated.
- `ComponentSystem.ComponentSystem.GetShuffledFactors`: states that the result is a permutation of the factor indices, not that it is uniformly distributed. The vector is taken and returned as a value.
- `TestSuite.FindGreatestOccuringLevel`: the escalating 1/iRandomMod tie rule is a free coin. The result is some most counted level, whichever ties were taken.
- `Aetg.Keep`: the tie rule `rand() % iRandomMod == 0` with its doubling is a free coin. The `int` overflow of `iRandomMod << 1` after 30 doublings is not modelled.
- `Aetg.BuildSuite`: the driver's `while` loop has no proven bound. A round whose candidates all report 0 commits nothing, so the code gives no bound on the number of rounds. The model therefore runs at most `fuel` rounds and states what holds when fuel runs out.
- `Aetg.Trial`: requires `Shape` (at least three factors, a top level below 65535, ascending non-empty ranges up to the top level, no level occurring 2^16 times) so the 16-bit counters never wrap. The uniform layout of `Init` is ascending; the other two conditions depend on k and v.
- `Aetg.Trials`: keeps only the best suite and the best and worst sizes. The averages are left out with the timing.
- `TestSuite.TestSuite.GenerateUncoveredT3Tuples`: requires at least three factors. With fewer, the source does not terminate: the missing factor's range is [65535, 65535], and the 16-bit loop `j2 <= 65535` at TestSuite.cpp:106 wraps and never exits. Each pass also writes the counter of level 65535, past the end of the counters.
- `TestSuite.TestSuite.GenerateUncoveredT3Tuples`: also requires the top level to be below 65535. When it is 65535, as after a uniform `Init` with k·v a multiple of 2^16 (k = v = 256, which the driver accepts), the last factor's range ends at 65535 and the 16-bit loop `j2 <= FactorRange[2].get_Max()` at TestSuite.cpp:106 wraps and never exits, so the source does not terminate.
- `TestSuite.TestSuite.GenerateUncoveredT2Tuples`: requires the top level to be below 65535. When it is 65535 (again k·v a multiple of 2^16), the 16-bit loop `k <= m_nMaxSystemLevel` at TestSuite.cpp:63 wraps and never exits, so the source does not terminate.
- `TestSuite.TestSuite.GenerateT3TestCaseCandidate`, `TestSuite.TestSuite.GenerateT2TestCaseCandidate` and the fill steps under them: require the top level to be below 65535, the same requirement as the generators, which the driver calls first and which do not terminate otherwise.
- `TestSuite.TestSuite.GenerateTestCaseT2Tuples`: requires the row length to fit in 16 bits, because the source's `FACTOR_T` loop counters would never reach a longer length.
- `TestSuite.TestSuite.CalculateT2TestCaseCoverage`: requires the same 16-bit row length as `GenerateTestCaseT2Tuples`.
- `TestSuite.TestSuite.AddToT2TestSuite`: requires the same 16-bit row length as `GenerateTestCaseT2Tuples`.
- `Combination.NextCombination`: requires its argument to be an increasing subset of [0, n) with n at most 65535. The behaviour on other arrays, such as r > n, is not modelled.
- `Combination.NextCombinationBytes`: requires n at most 255, so the 8-bit cells never wrap.
- `MathUtility.NChooseT`: computes with unbounded integers. The `size_t` overflow of the running product is not modelled.
- `MathUtility.Factorial`: the `size_t` overflow for n > 20 is not modelled.
- `MathUtility.ChooseTable.Choose`: requires R <= N < size. The source indexes outside the table for R > N, and its `size_t` overflow is not modelled.
- `ComponentSystem.ComponentSystem.GetRandomLevel`: requires the factor's range to be proper when the factor exists, which `std::uniform_int_distribution` demands.
- `ComponentSystem.ComponentSystem.CalcNumberOfVariableCombinations`: requires t <= k < 50, the bounds of its 50 x 50 table.

## Findings

| source | as written | input that shows it | evidently intended | confidence | as-written member | corrected member |
|---|---|---|---|---|---|---|
| AETG_Project_2/MathUtility.cpp:29-33 | the product loop runs `for i = 1; i < t`, so for 1 <= t <= n it returns C(n, t − 1) | n = 4, t = 3 yields 6, while C(4, 3) = 4 | loop bound `i <= t`, giving C(n, t) as the identity in MathUtility.h:63-66 describes | high; not executed | MathUtility.NChooseT, MathUtility.NChooseTMissesLastFactor | MathUtility.NChooseTCorrected |
