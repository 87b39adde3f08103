// The repeated trials of the AETG driver: each trial rebuilds the 3-way
// universe, commits the all-minimum and all-maximum rows, then commits the
// best of TEST_CASE_CANDIDATES candidates per round until every triple is
// covered; the smallest suite over all trials is kept.

module Aetg {
  import opened CommonDef
  import opened Collections
  import opened Tuple
  import opened TripleCounts
  import opened TripleUniverse
  import opened RowTuples
  import CS = ComponentSystem
  import TC = TestCase
  import TS = TestSuite

  /** The number of trials per run. */
  const NUM_REPETITIONS: nat := 100

  /** No level occurs 2^16 times or more in the full universe, so the 16-bit
      counters never wrap. */
  ghost predicate NoCountOverflow(fs: seq<CS.Factor>)
    requires |fs| >= 3
  {
    forall l :: 0 <= l < COUNT_MODULUS ==> OccIn3(Elems(AllTriples(fs)), l) < COUNT_MODULUS
  }

  /** At least three factors, each with a non-empty range below the
      suite's top level. */
  ghost predicate Layout(fs: seq<CS.Factor>, k: nat, top: LevelT)
  {
    && |fs| == k >= TS.T_WAY && top < LEVEL_INVALID
    && forall g :: 0 <= g < k ==> fs[g].levels.min <= fs[g].levels.max <= top
  }

  /** What the driver relies on about the system and the suite's shape:
      the layout above, with ascending ranges and counters that cannot
      wrap. */
  ghost predicate Shape(fs: seq<CS.Factor>, k: nat, top: LevelT)
  {
    Layout(fs, k, top) && Ascending(fs) && NoCountOverflow(fs)
  }

  /** A row of the suite: one level in range per factor. */
  ghost predicate FullRow(fs: seq<CS.Factor>, r: seq<LevelT>)
  {
    |r| == |fs| && forall g :: 0 <= g < |r| ==> fs[g].IsInRange(r[g])
  }

  /** t is a triple of some row of length k. */
  ghost predicate CoveredBy(rows: seq<seq<LevelT>>, k: nat, t: T3)
  {
    3 <= k && exists i :: 0 <= i < |rows| && |rows[i]| == k && t in RowTriples(rows[i], k)
  }

  /** Every triple of the universe that is no longer uncovered is a triple
      of some row of the suite. */
  ghost predicate CoversRemoved(fs: seq<CS.Factor>, u: set<T3>, rows: seq<seq<LevelT>>)
    requires |fs| >= 3
  {
    forall t :: t in AllTriples(fs) && t !in u ==> CoveredBy(rows, |fs|, t)
  }

  /** The state a trial keeps between commits: the counters match the
      uncovered set, the uncovered set stays inside the universe, every
      removed triple is covered, and every row is a full row. */
  ghost predicate Tracking(fs: seq<CS.Factor>, u: set<T3>, cs: seq<Word>, rows: seq<seq<LevelT>>)
    requires |fs| >= 3
  {
    && CountsMatch3(u, cs) && u <= Elems(AllTriples(fs)) && CoversRemoved(fs, u, rows)
    && forall i :: 0 <= i < |rows| ==> FullRow(fs, rows[i])
  }

  /** Some triple of t holds level l when l occurs in u. */
  lemma OccurrenceWitness(u: set<T3>, l: int) returns (t: T3)
    requires OccIn3(u, l) > 0
    ensures t in u && (t.a == l || t.b == l || t.c == l)
  {
    if |Fiber3(u, 0, l)| > 0 {
      t :| t in Fiber3(u, 0, l);
    } else if |Fiber3(u, 1, l)| > 0 {
      t :| t in Fiber3(u, 1, l);
    } else {
      t :| t in Fiber3(u, 2, l);
    }
  }

  /** While triples remain uncovered the counters meet the candidate
      generator's needs: some counter is positive, and every level with a
      positive counter belongs to a factor. */
  lemma CandidateReady(fs: seq<CS.Factor>, u: set<T3>, cs: seq<Word>)
    requires |fs| >= 3 && NoCountOverflow(fs) && |cs| <= COUNT_MODULUS
    requires CountsMatch3(u, cs) && u <= Elems(AllTriples(fs)) && u != {}
    ensures exists l :: 0 <= l < |cs| && cs[l] > 0
    ensures forall l: Word :: l < |cs| && cs[l] > 0 ==> CS.InSomeFactor(fs, l)
  {
    forall l | 0 <= l < |cs|
      ensures OccIn3(u, l) < COUNT_MODULUS
    {
      OccSubset3(u, Elems(AllTriples(fs)), l);
    }
    PositiveCount3(u, cs);
    forall l: Word | l < |cs| && cs[l] > 0
      ensures CS.InSomeFactor(fs, l)
    {
      var t := OccurrenceWitness(u, l);
      MemberSpans(fs, t);
      TripleLevelsOwned(fs, t);
    }
  }

  /** Each level of a triple spanning three factors lies in some factor's
      range. */
  lemma TripleLevelsOwned(fs: seq<CS.Factor>, t: T3)
    requires Spans3(fs, t)
    ensures CS.InSomeFactor(fs, t.a) && CS.InSomeFactor(fs, t.b) && CS.InSomeFactor(fs, t.c)
  {
    var i, j, m :| 0 <= i < j < m < |fs| && fs[i].IsInRange(t.a) && fs[j].IsInRange(t.b)
                   && fs[m].IsInRange(t.c);
  }

  /** Committing a row that shows an uncovered triple shrinks the
      uncovered set. */
  lemma {:induction false} CommitShrinks(ts: seq<T3>, u: set<T3>)
    requires CountIn(ts, u) > 0
    ensures |u - Elems(ts)| < |u|
  {
    CountInPositive(ts, u);
    var i :| 0 <= i < |ts| && ts[i] in u;
    assert u - Elems(ts) <= u - {ts[i]};
    SubsetCard(u - Elems(ts), u - {ts[i]});
  }

  /** Committing a full row keeps every removed triple covered. */
  lemma CommitCovers(fs: seq<CS.Factor>, u: set<T3>, rows: seq<seq<LevelT>>, r: seq<LevelT>)
    requires |fs| >= 3 && |r| == |fs| && CoversRemoved(fs, u, rows)
    ensures CoversRemoved(fs, u - Elems(RowTriples(r, |fs|)), rows + [r])
  {
    var rows1 := rows + [r];
    forall t | t in AllTriples(fs) && t !in u - Elems(RowTriples(r, |fs|))
      ensures CoveredBy(rows1, |fs|, t)
    {
      if t in u {
        assert rows1[|rows|] == r;
      } else {
        var i :| 0 <= i < |rows| && |rows[i]| == |fs| && t in RowTriples(rows[i], |fs|);
        assert rows1[i] == rows[i];
      }
    }
  }

  /** A fresh universe: everything uncovered, nothing to cover yet. */
  lemma FreshTracking(fs: seq<CS.Factor>, cs: seq<Word>)
    requires |fs| >= 3 && Ascending(fs) && AllBelow3(AllTriples(fs), |cs|)
    requires cs == Tally3(Zeros(|cs|), AllTriples(fs))
    ensures Tracking(fs, Elems(AllTriples(fs)), cs, [])
  {
    AllTriplesNoDup(fs);
    TallyEstablishesMatch3(AllTriples(fs), |cs|);
  }

  /** Commits a row through AddToT3TestSuite, keeping Tracking. */
  method Commit(ghost fs: seq<CS.Factor>, ts: TS.TestSuite, tc: TC.TestCase) returns (n: nat)
    requires Shape(fs, ts.numFactors, ts.maxSystemLevel) && ts.Valid()
    requires Tracking(fs, ts.uncovered3, ts.levelCount, ts.suite) && FullRow(fs, tc.data)
    modifies ts`testCaseT3Tuples, ts`uncovered3, ts`levelCount, ts`suite
    ensures ts.Valid() && Tracking(fs, ts.uncovered3, ts.levelCount, ts.suite)
    ensures ts.testCaseT3Tuples == RowTriples(tc.data, |fs|)
    ensures ts.uncovered3 == old(ts.uncovered3) - Elems(RowTriples(tc.data, |fs|))
    ensures ts.testCaseT3Tuples != [] ==> ts.suite == old(ts.suite) + [tc.data] && n == |ts.suite|
    ensures ts.testCaseT3Tuples == [] ==> ts.suite == old(ts.suite) && n == 0
  {
    ghost var u, rows := ts.uncovered3, ts.suite;
    n := ts.AddToT3TestSuite(tc);
    if ts.testCaseT3Tuples != [] {
      CommitCovers(fs, u, rows, tc.data);
    } else {
      assert Elems(RowTriples(tc.data, |fs|)) == {};
    }
  }

  /** One pass of Round's loop: a candidate is generated and its reported
      coverage recorded; it replaces the kept row when it reports more, or
      as much and more than 0 on a coin flip. */
  method Consider(system: CS.ComponentSystem, ts: TS.TestSuite, candidate: TC.TestCase,
                  best: TC.TestCase, bestCoverage: nat, ghost reports: seq<nat>)
      returns (best1: TC.TestCase, bestCoverage1: nat, ghost reports1: seq<nat>)
    requires system.Valid() && ts.Valid() && Layout(system.factors, ts.numFactors, ts.maxSystemLevel)
    requires exists l :: 0 <= l < |ts.levelCount| && ts.levelCount[l] > 0
    requires forall l: Word :: l < |ts.levelCount| && ts.levelCount[l] > 0 ==> CS.InSomeFactor(system.factors, l)
    requires best != candidate && forall i :: 0 <= i < |reports| ==> reports[i] <= bestCoverage
    requires bestCoverage > 0 ==> bestCoverage in reports
    requires bestCoverage == 0 ==> best.data == []
    requires bestCoverage > 0 ==> FullRow(system.factors, best.data)
    requires bestCoverage > 0 ==> bestCoverage <= TS.Coverage3(best.data, ts.numFactors, ts.uncovered3)
    modifies candidate, ts`testCaseT3Tuples
    ensures ts.Valid() && best1 != candidate
    ensures |reports1| == |reports| + 1 && forall i :: 0 <= i < |reports1| ==> reports1[i] <= bestCoverage1
    ensures bestCoverage1 > 0 ==> bestCoverage1 in reports1
    ensures bestCoverage1 == 0 ==> best1.data == []
    ensures bestCoverage1 > 0 ==> FullRow(system.factors, best1.data)
    ensures bestCoverage1 > 0 ==> bestCoverage1 <= TS.Coverage3(best1.data, ts.numFactors, ts.uncovered3)
  {
    var nCoverage;
    ghost var order, rows, levels, ns;
    nCoverage, order, rows, levels, ns := ts.GenerateT3TestCaseCandidate(system, candidate);
    reports1 := reports + [nCoverage];
    best1, bestCoverage1 := Keep(system.factors, ts.numFactors, ts.uncovered3, candidate, nCoverage, best, bestCoverage);
  }

  /** The comparison after a candidate: it replaces the kept row when it
      reports more, or as much and more than 0 on a coin flip. */
  method Keep(ghost fs: seq<CS.Factor>, ghost k: nat, ghost u: set<T3>, candidate: TC.TestCase, nCoverage: nat,
              best: TC.TestCase, bestCoverage: nat)
      returns (best1: TC.TestCase, bestCoverage1: nat)
    requires best != candidate && k == |fs|
    requires bestCoverage == 0 ==> best.data == []
    requires bestCoverage > 0 ==> FullRow(fs, best.data) && bestCoverage <= TS.Coverage3(best.data, k, u)
    requires FullRow(fs, candidate.data) && nCoverage <= TS.Coverage3(candidate.data, k, u)
    ensures best1 != candidate
    ensures bestCoverage <= bestCoverage1 && nCoverage <= bestCoverage1
    ensures bestCoverage1 == bestCoverage || bestCoverage1 == nCoverage
    ensures bestCoverage1 == 0 ==> best1.data == []
    ensures bestCoverage1 > 0 ==> FullRow(fs, best1.data) && bestCoverage1 <= TS.Coverage3(best1.data, k, u)
  {
    best1, bestCoverage1 := best, bestCoverage;
    if nCoverage > bestCoverage {
      bestCoverage1 := nCoverage;
      best1 := new TC.TestCase.Copy(candidate);
    } else if nCoverage == bestCoverage && nCoverage != 0 {
      var coin: bool :| true;
      if coin {
        best1 := new TC.TestCase.Copy(candidate);
      }
    }
  }

  /** The candidate loop of a round: TEST_CASE_CANDIDATES candidates are
      generated, and the kept one reports the largest coverage; with every
      report 0 the kept row is the empty row. */
  method PickBest(system: CS.ComponentSystem, ts: TS.TestSuite, candidate: TC.TestCase)
      returns (best: TC.TestCase, bestCoverage: nat, ghost reports: seq<nat>)
    requires system.Valid() && ts.Valid() && Layout(system.factors, ts.numFactors, ts.maxSystemLevel)
    requires exists l :: 0 <= l < |ts.levelCount| && ts.levelCount[l] > 0
    requires forall l: Word :: l < |ts.levelCount| && ts.levelCount[l] > 0 ==> CS.InSomeFactor(system.factors, l)
    modifies candidate, ts`testCaseT3Tuples
    ensures ts.Valid()
    ensures |reports| == TS.TEST_CASE_CANDIDATES
    ensures forall i :: 0 <= i < |reports| ==> reports[i] <= bestCoverage
    ensures bestCoverage > 0 ==> bestCoverage in reports
    ensures bestCoverage == 0 ==> best.data == []
    ensures bestCoverage > 0 ==> FullRow(system.factors, best.data)
    ensures bestCoverage > 0 ==> bestCoverage <= TS.Coverage3(best.data, ts.numFactors, ts.uncovered3)
  {
    best := new TC.TestCase();
    bestCoverage := 0;
    reports := [];
    for j := 0 to TS.TEST_CASE_CANDIDATES
      invariant ts.Valid() && best != candidate
      invariant |reports| == j && forall i :: 0 <= i < j ==> reports[i] <= bestCoverage
      invariant bestCoverage > 0 ==> bestCoverage in reports
      invariant bestCoverage == 0 ==> best.data == []
      invariant bestCoverage > 0 ==> FullRow(system.factors, best.data)
      invariant bestCoverage > 0 ==> bestCoverage <= TS.Coverage3(best.data, ts.numFactors, ts.uncovered3)
    {
      best, bestCoverage, reports := Consider(system, ts, candidate, best, bestCoverage, reports);
    }
  }

  /** One round: TEST_CASE_CANDIDATES candidates are generated and the one
      with the largest reported coverage is kept (an equal positive one
      takes over on a coin flip); the kept row is then committed. When
      every candidate reports 0 the kept row is the empty row, whose
      commit adds nothing and reports 0. */
  method Round(system: CS.ComponentSystem, ts: TS.TestSuite, candidate: TC.TestCase)
      returns (nCur: nat, bestCoverage: nat, ghost reports: seq<nat>, ghost row: seq<LevelT>)
    requires system.Valid() && ts.Valid() && Shape(system.factors, ts.numFactors, ts.maxSystemLevel)
    requires Tracking(system.factors, ts.uncovered3, ts.levelCount, ts.suite) && ts.uncovered3 != {}
    modifies candidate, ts`testCaseT3Tuples, ts`uncovered3, ts`levelCount, ts`suite
    ensures ts.Valid() && Tracking(system.factors, ts.uncovered3, ts.levelCount, ts.suite)
    ensures |reports| == TS.TEST_CASE_CANDIDATES
    ensures forall i :: 0 <= i < |reports| ==> reports[i] <= bestCoverage
    ensures bestCoverage > 0 ==> bestCoverage in reports
    ensures bestCoverage > 0 ==> FullRow(system.factors, row)
    ensures bestCoverage > 0 ==> bestCoverage <= TS.Coverage3(row, ts.numFactors, old(ts.uncovered3))
    ensures bestCoverage > 0 ==> ts.suite == old(ts.suite) + [row] && nCur == |ts.suite|
    ensures bestCoverage > 0 ==> ts.uncovered3 == old(ts.uncovered3) - Elems(RowTriples(row, ts.numFactors))
    ensures bestCoverage > 0 ==> |ts.uncovered3| < |old(ts.uncovered3)|
    ensures bestCoverage == 0 ==> nCur == 0 && ts.suite == old(ts.suite)
    ensures bestCoverage == 0 ==> ts.uncovered3 == old(ts.uncovered3) && ts.levelCount == old(ts.levelCount)
  {
    ghost var fs, u, cs := system.factors, ts.uncovered3, ts.levelCount;
    CandidateReady(fs, u, cs);
    var best;
    best, bestCoverage, reports := PickBest(system, ts, candidate);
    row := best.data;
    nCur := Settle(fs, ts, best, bestCoverage);
  }

  /** The end of a round: a kept row that reported coverage is committed
      and shrinks the uncovered set; the empty row is handed to
      AddToT3TestSuite, which finds nothing in it. */
  method Settle(ghost fs: seq<CS.Factor>, ts: TS.TestSuite, best: TC.TestCase, bestCoverage: nat)
      returns (nCur: nat)
    requires Shape(fs, ts.numFactors, ts.maxSystemLevel) && ts.Valid()
    requires Tracking(fs, ts.uncovered3, ts.levelCount, ts.suite)
    requires bestCoverage == 0 ==> best.data == []
    requires bestCoverage > 0 ==> FullRow(fs, best.data)
    requires bestCoverage > 0 ==> bestCoverage <= TS.Coverage3(best.data, ts.numFactors, ts.uncovered3)
    modifies ts`testCaseT3Tuples, ts`uncovered3, ts`levelCount, ts`suite
    ensures ts.Valid() && Tracking(fs, ts.uncovered3, ts.levelCount, ts.suite)
    ensures bestCoverage > 0 ==> ts.suite == old(ts.suite) + [best.data] && nCur == |ts.suite|
    ensures bestCoverage > 0 ==> ts.uncovered3 == old(ts.uncovered3) - Elems(RowTriples(best.data, ts.numFactors))
    ensures bestCoverage > 0 ==> |ts.uncovered3| < |old(ts.uncovered3)|
    ensures bestCoverage == 0 ==> nCur == 0 && ts.suite == old(ts.suite)
    ensures bestCoverage == 0 ==> ts.uncovered3 == old(ts.uncovered3) && ts.levelCount == old(ts.levelCount)
  {
    ghost var u := ts.uncovered3;
    if bestCoverage > 0 {
      CommitShrinks(RowTriples(best.data, ts.numFactors), u);
      nCur := Commit(fs, ts, best);
      CountInPositive(RowTriples(best.data, ts.numFactors), u);
    } else {
      nCur := ts.AddToT3TestSuite(best);
    }
  }

  /** A full row shows the triple of its first three entries, so
      committing it always appends it. */
  lemma FullRowShows(fs: seq<CS.Factor>, k: nat, top: LevelT, r: seq<LevelT>)
    requires Layout(fs, k, top) && FullRow(fs, r)
    ensures T3(r[0], r[1], r[2]) in RowTriples(r, k)
  {
    assert fs[0].IsInRange(r[0]) && fs[1].IsInRange(r[1]) && fs[2].IsInRange(r[2]);
    ShowsAt(r, k, T3(r[0], r[1], r[2]), 0, 1, 2);
    RowTriplesMembers(r, k, T3(r[0], r[1], r[2]));
  }

  /** Builds and commits one of the two seed rows: every factor at its
      minimum level, or every factor at its maximum level. */
  method CommitSeed(system: CS.ComponentSystem, ts: TS.TestSuite, candidate: TC.TestCase, minimum: bool)
      returns (ghost row: seq<LevelT>)
    requires system.Valid() && ts.Valid() && Shape(system.factors, ts.numFactors, ts.maxSystemLevel)
    requires Tracking(system.factors, ts.uncovered3, ts.levelCount, ts.suite)
    modifies candidate, ts`testCaseT3Tuples, ts`uncovered3, ts`levelCount, ts`suite
    ensures ts.Valid() && Tracking(system.factors, ts.uncovered3, ts.levelCount, ts.suite)
    ensures ts.suite == old(ts.suite) + [row] && |row| == ts.numFactors
    ensures forall g :: 0 <= g < ts.numFactors ==>
              row[g] == if minimum then system.GetMinLevel(g) else system.GetMaxLevel(g)
  {
    var ok;
    if minimum {
      ok := ts.GenerateMinLevelCandidate(system, candidate);
    } else {
      ok := ts.GenerateMaxLevelCandidate(system, candidate);
    }
    row := candidate.data;
    assert FullRow(system.factors, row);
    FullRowShows(system.factors, ts.numFactors, ts.maxSystemLevel, row);
    var n := Commit(system.factors, ts, candidate);
  }

  /** The suite-building part of a trial: the suite is cleared, the 3-way
      universe rebuilt, the all-minimum and all-maximum rows committed,
      then rounds run while triples stay uncovered (at most fuel of them).
      The result is the last round's commit result, 0 when no round ran. */
  method BuildSuite(system: CS.ComponentSystem, ts: TS.TestSuite, candidate: TC.TestCase, fuel: nat)
      returns (nCur: nat, ghost rounds: nat)
    requires system.Valid() && ts.Valid() && Shape(system.factors, ts.numFactors, ts.maxSystemLevel)
    modifies candidate, ts`testCaseT3Tuples, ts`uncovered3, ts`levelCount, ts`suite
    ensures ts.Valid() && Tracking(system.factors, ts.uncovered3, ts.levelCount, ts.suite)
    ensures |ts.suite| >= 2
    ensures forall g :: 0 <= g < ts.numFactors ==>
              ts.suite[0][g] == system.GetMinLevel(g) && ts.suite[1][g] == system.GetMaxLevel(g)
    ensures ts.uncovered3 != {} ==> rounds == fuel
    ensures nCur == 0 || nCur == |ts.suite|
    ensures rounds == 0 ==> nCur == 0
    ensures rounds > 0 && ts.uncovered3 == {} ==> nCur == |ts.suite|
  {
    ghost var fs := system.factors;
    nCur := ts.ClearTestSuite();
    var nNumTuples := ts.GenerateUncoveredT3Tuples(system);
    FreshTracking(fs, ts.levelCount);
    ghost var minRow := CommitSeed(system, ts, candidate, true);
    ghost var maxRow := CommitSeed(system, ts, candidate, false);
    var count: nat := 0;
    while |ts.uncovered3| > 0 && count < fuel
      invariant ts.Valid() && Tracking(fs, ts.uncovered3, ts.levelCount, ts.suite) && fs == system.factors
      invariant |ts.suite| >= 2 && ts.suite[0] == minRow && ts.suite[1] == maxRow
      invariant nCur == 0 || nCur == |ts.suite|
      invariant count == 0 ==> nCur == 0
      invariant count > 0 && ts.uncovered3 == {} ==> nCur == |ts.suite|
      invariant count <= fuel
      decreases fuel - count
    {
      var bestCoverage;
      ghost var reports, row;
      nCur, bestCoverage, reports, row := Round(system, ts, candidate);
      count := count + 1;
    }
    rounds := count;
  }

  /** One trial: BuildSuite, then the finished suite (produced) replaces
      the kept best suite, by splicing, when no best is recorded yet or it
      is smaller; the worst size is updated the same way. When every
      triple is covered, every triple of the universe is a triple of some
      row of the finished suite. */
  method Trial(system: CS.ComponentSystem, ts: TS.TestSuite, candidate: TC.TestCase, fuel: nat,
               kept: seq<seq<LevelT>>, nBest: nat, nWorst: nat)
      returns (nCur: nat, kept1: seq<seq<LevelT>>, nBest1: nat, nWorst1: nat,
               ghost produced: seq<seq<LevelT>>, ghost rounds: nat)
    requires system.Valid() && ts.Valid() && Shape(system.factors, ts.numFactors, ts.maxSystemLevel)
    modifies candidate, ts`testCaseT3Tuples, ts`uncovered3, ts`levelCount, ts`suite
    ensures ts.Valid() && Tracking(system.factors, ts.uncovered3, ts.levelCount, produced)
    ensures |produced| >= 2
    ensures forall g :: 0 <= g < ts.numFactors ==>
              produced[0][g] == system.GetMinLevel(g) && produced[1][g] == system.GetMaxLevel(g)
    ensures ts.uncovered3 != {} ==> rounds == fuel
    ensures ts.uncovered3 == {} ==> forall t :: t in AllTriples(system.factors) ==>
              CoveredBy(produced, ts.numFactors, t)
    ensures nCur == 0 || nCur == |produced|
    ensures rounds == 0 ==> nCur == 0
    ensures rounds > 0 && ts.uncovered3 == {} ==> nCur == |produced|
    ensures nBest == 0 || nCur < nBest ==> nBest1 == nCur && kept1 == produced && ts.suite == []
    ensures !(nBest == 0 || nCur < nBest) ==> nBest1 == nBest && kept1 == kept && ts.suite == produced
    ensures nWorst == 0 || nCur > nWorst ==> nWorst1 == nCur
    ensures !(nWorst == 0 || nCur > nWorst) ==> nWorst1 == nWorst
  {
    nCur, rounds := BuildSuite(system, ts, candidate, fuel);
    produced := ts.suite;
    kept1, nBest1, nWorst1 := kept, nBest, nWorst;
    if nBest == 0 || nCur < nBest {
      nBest1 := nCur;
      var n;
      n, kept1 := ts.SpliceTestSuite([]);
    }
    if nWorst == 0 || nCur > nWorst {
      nWorst1 := nCur;
    }
  }

  /** NUM_REPETITIONS trials on the same system and suite, keeping the
      smallest finished suite and the best and worst reported sizes. */
  method Trials(system: CS.ComponentSystem, ts: TS.TestSuite, fuel: nat)
      returns (kept: seq<seq<LevelT>>, nBest: nat, nWorst: nat)
    requires system.Valid() && ts.Valid() && Shape(system.factors, ts.numFactors, ts.maxSystemLevel)
    modifies ts`testCaseT3Tuples, ts`uncovered3, ts`levelCount, ts`suite
    ensures ts.Valid()
    ensures nBest != 0 ==> nBest == |kept| && nBest <= nWorst
    ensures forall i :: 0 <= i < |kept| ==> FullRow(system.factors, kept[i])
  {
    var candidate := new TC.TestCase();
    kept, nBest, nWorst := [], 0, 0;
    for i := 0 to NUM_REPETITIONS
      invariant ts.Valid() && fresh(candidate)
      invariant nBest != 0 ==> nBest == |kept| && nBest <= nWorst
      invariant forall i :: 0 <= i < |kept| ==> FullRow(system.factors, kept[i])
    {
      var nCur;
      ghost var produced, rounds;
      nCur, kept, nBest, nWorst, produced, rounds := Trial(system, ts, candidate, fuel, kept, nBest, nWorst);
    }
  }
}
