// CTestSuite: the uncovered tuple sets with their per-level occurrence
// counters, the tuples of the test case under consideration, the test
// cases chosen so far, and the greedy AETG candidate construction.

module TestSuite {
  import opened CommonDef
  import opened Collections
  import opened Combination
  import opened Tuple
  import opened TripleCounts
  import opened PairCounts
  import opened TripleUniverse
  import opened PairUniverse
  import opened RowTuples
  import opened TestCase
  import CS = ComponentSystem
  import TC = TestCase

  /** The number of candidate rows generated per chosen row. */
  const TEST_CASE_CANDIDATES: nat := 50

  /** The tuple width of the 3-way generator. */
  const T_WAY: nat := 3

  /** The level with the largest counter, scanning upwards: a larger
      counter always takes over, an equal positive one may (a coin flip).
      LEVEL_INVALID when every counter is zero; otherwise a level whose
      counter is positive and largest. */
  method FindGreatestOccuringLevel(levels: seq<Word>) returns (l: LevelT)
    requires |levels| <= 0x1_0000
    ensures (forall i :: 0 <= i < |levels| ==> levels[i] == 0) ==> l == LEVEL_INVALID
    ensures (exists i :: 0 <= i < |levels| && levels[i] > 0) ==>
              l < |levels| && levels[l] > 0 && forall i :: 0 <= i < |levels| ==> levels[i] <= levels[l]
  {
    l := LEVEL_INVALID;
    var maxCount := 0;
    var i := 0;
    while i < |levels|
      invariant 0 <= i <= |levels|
      invariant maxCount == 0 ==> l == LEVEL_INVALID && forall j :: 0 <= j < i ==> levels[j] == 0
      invariant maxCount > 0 ==> l < i && levels[l] == maxCount
      invariant forall j :: 0 <= j < i ==> levels[j] <= maxCount
    {
      if levels[i] > maxCount {
        maxCount := levels[i];
        l := i;
      } else if levels[i] == maxCount && levels[i] > 0 {
        var coin: bool :| true;
        if coin {
          l := i;
        }
      }
      i := i + 1;
    }
  }

  /** One pass of GenerateUncoveredT3Tuples' outer loop: the product of
      the column triple c joins the visited ones, and NextCombination
      moves on or ends the walk. */
  lemma GenerateStep3(fs: seq<CS.Factor>, all: seq<seq<int>>, done: seq<seq<int>>, c: seq<int>,
                      more: bool, next: seq<int>, z: seq<Word>, cube: seq<T3>)
    requires ColumnTriples(all, |fs|) && |c| == 3 && IsCombination(c, |fs|)
    requires done + LexFrom(c, |fs|) == all
    requires more <==> !IsLast(c, |fs|)
    requires more ==> next == Succ(c, |fs|)
    requires ColumnTriples(done, |fs|) && AllBelow3(Universe3(fs, done), |z|)
    requires cube == CubeAt(fs, c) && AllBelow3(cube, |z|)
    ensures more ==> IsCombination(next, |fs|) && (done + [c]) + LexFrom(next, |fs|) == all
    ensures more ==> |LexFrom(next, |fs|)| < |LexFrom(c, |fs|)|
    ensures !more ==> done + [c] == all
    ensures ColumnTriples(done + [c], |fs|) && AllBelow3(Universe3(fs, done + [c]), |z|)
    ensures Elems(Universe3(fs, done + [c])) == Elems(Universe3(fs, done)) + Elems(cube)
    ensures Tally3(z, Universe3(fs, done + [c])) == Tally3(Tally3(z, Universe3(fs, done)), cube)
  {
    WalkStep(all, done, c, |fs|, more, next);
    ColumnTriplesSplit(done + [c], all[|done| + 1..], |fs|);
    Universe3Append(fs, done, c);
    Concat3(z, Universe3(fs, done), cube);
    AllBelowAppend3(Universe3(fs, done), cube, |z|);
  }

  /** Inserting and tallying s and then t is inserting and tallying s + t. */
  lemma Concat3(z: seq<Word>, s: seq<T3>, t: seq<T3>)
    ensures Elems(s + t) == Elems(s) + Elems(t)
    ensures Tally3(z, s + t) == Tally3(Tally3(z, s), t)
  {
    ElemsAppend(s, t);
    TallyAppend3(z, s, t);
  }

  /** The innermost loops' step: Extend3 for one tuple. */
  lemma ExtendOne3(u: set<T3>, cs: seq<Word>, s: seq<T3>, x: T3,
                    u1: set<T3>, cs1: seq<Word>, v: set<T3>, ds: seq<Word>)
    requires u1 == u + Elems(s) && cs1 == Tally3(cs, s)
    requires v == u1 + {x} && ds == Bump3(cs1, x)
    ensures v == u + Elems(s + [x]) && ds == Tally3(cs, s + [x])
  {
    ElemsSnoc(s, x);
    TallySnoc3(cs, s, x);
  }

  /** A loop step of the insertion loops: (v, ds) is what inserting and
      tallying t does to (u1, cs1), which is what inserting and tallying s
      did to (u, cs). */
  lemma Extend3(u: set<T3>, cs: seq<Word>, s: seq<T3>, t: seq<T3>,
                 u1: set<T3>, cs1: seq<Word>, v: set<T3>, ds: seq<Word>)
    requires u1 == u + Elems(s) && cs1 == Tally3(cs, s)
    requires v == u1 + Elems(t) && ds == Tally3(cs1, t)
    ensures v == u + Elems(s + t) && ds == Tally3(cs, s + t)
  {
    ElemsAppend(s, t);
    TallyAppend3(cs, s, t);
  }

  /** The 2-way counterpart of Concat3. */
  lemma Concat2(z: seq<Word>, s: seq<T2>, t: seq<T2>)
    ensures Elems(s + t) == Elems(s) + Elems(t)
    ensures Tally2(z, s + t) == Tally2(Tally2(z, s), t)
  {
    ElemsAppend(s, t);
    TallyAppend2(z, s, t);
  }

  /** The innermost loops' step: Extend2 for one tuple. */
  lemma ExtendOne2(u: set<T2>, cs: seq<Word>, s: seq<T2>, x: T2,
                    u1: set<T2>, cs1: seq<Word>, v: set<T2>, ds: seq<Word>)
    requires u1 == u + Elems(s) && cs1 == Tally2(cs, s)
    requires v == u1 + {x} && ds == Bump2(cs1, x)
    ensures v == u + Elems(s + [x]) && ds == Tally2(cs, s + [x])
  {
    ElemsSnoc(s, x);
    TallySnoc2(cs, s, x);
  }

  /** A loop step of the insertion loops: (v, ds) is what inserting and
      tallying t does to (u1, cs1), which is what inserting and tallying s
      did to (u, cs). */
  lemma Extend2(u: set<T2>, cs: seq<Word>, s: seq<T2>, t: seq<T2>,
                 u1: set<T2>, cs1: seq<Word>, v: set<T2>, ds: seq<Word>)
    requires u1 == u + Elems(s) && cs1 == Tally2(cs, s)
    requires v == u1 + Elems(t) && ds == Tally2(cs1, t)
    ensures v == u + Elems(s + t) && ds == Tally2(cs, s + t)
  {
    ElemsAppend(s, t);
    TallyAppend2(cs, s, t);
  }

  /** Every triple of a box whose ranges end below n indexes n counters. */
  lemma CubeBelow3(r0: CS.Range, r1: CS.Range, r2: CS.Range, n: int)
    requires r0.max < n && r1.max < n && r2.max < n
    ensures AllBelow3(Cube(r0, r1, r2), n)
  {
    CubeFacts(r0, r1, r2);
    var ts := Cube(r0, r1, r2);
    forall i | 0 <= i < |ts| ensures Below3(ts[i], n) {
      assert ts[i] in ts;
    }
  }

  /** Every element of a sequence of pairs below n is below n. */
  lemma ElemsBelow2(ts: seq<T2>, n: int)
    requires AllBelow2(ts, n)
    ensures forall t :: t in Elems(ts) ==> Below2(t, n)
  {
    forall t | t in Elems(ts) ensures Below2(t, n) {
      var i :| 0 <= i < |ts| && ts[i] == t;
    }
  }

  /** Every pair of a sheet whose levels end at top indexes n > top counters. */
  lemma PairSheetBelow(r: CS.Range, top: int, n: int)
    requires r.max < n && top < n && top < 0x1_0000
    ensures AllBelow2(PairSheet(r, r.max, top), n)
  {
    PairSheetMembers(r, r.max, top);
    var ts := PairSheet(r, r.max, top);
    forall i | 0 <= i < |ts| ensures Below2(ts[i], n) {
      assert ts[i] in ts;
    }
  }

  // ---------------------------------------------------------------------
  // The loops that fill the uncovered sets: each inserts its tuples into
  // u and bumps their levels' counters in cs, in the generators' order.

  /** The body of GenerateUncoveredT3Tuples' innermost loop: insert t and
      increment the counter of each of its levels. */
  method InsertTriple(u: set<T3>, cs: seq<Word>, t: T3) returns (u1: set<T3>, cs1: seq<Word>)
    requires Below3(t, |cs|)
    ensures u1 == u + {t} && cs1 == Bump3(cs, t)
  {
    u1 := u + {t};
    cs1 := cs[t.a := Inc(cs[t.a])];
    cs1 := cs1[t.b := Inc(cs1[t.b])];
    cs1 := cs1[t.c := Inc(cs1[t.c])];
  }

  /** One pass of InsertLane3's loop: the triple (a, b, j). */
  method InsertNextTriple(ghost u: set<T3>, ghost cs: seq<Word>, a: LevelT, b: LevelT, r: CS.Range, j: int,
                          ghost ts: seq<T3>, u1: set<T3>, cs1: seq<Word>)
      returns (v: set<T3>, ds: seq<Word>, ghost ts1: seq<T3>)
    requires r.min <= j <= r.max && a < |cs| && b < |cs| && r.max < |cs| && |cs1| == |cs|
    requires ts == Lane(a, b, r, j - 1) && u1 == u + Elems(ts) && cs1 == Tally3(cs, ts)
    ensures ts1 == Lane(a, b, r, j) && v == u + Elems(ts1) && ds == Tally3(cs, ts1) && |ds| == |cs|
  {
    var t := T3(a, b, j);
    v, ds := InsertTriple(u1, cs1, t);
    ExtendOne3(u, cs, ts, t, u1, cs1, v, ds);
    ts1 := ts + [t];
  }

  /** The innermost loop of GenerateUncoveredT3Tuples: (a, b, j) for every
      level j of r. */
  method InsertLane3(u: set<T3>, cs: seq<Word>, a: LevelT, b: LevelT, r: CS.Range)
      returns (u1: set<T3>, cs1: seq<Word>)
    requires a < |cs| && b < |cs| && r.max < |cs|
    ensures u1 == u + Elems(Lane(a, b, r, r.max))
    ensures cs1 == Tally3(cs, Lane(a, b, r, r.max))
  {
    u1, cs1 := u, cs;
    ghost var ts: seq<T3> := [];
    if r.min <= r.max {
      var j: int := r.min;
      ghost var last := j - 1;
      while j <= r.max
        invariant r.min <= j <= r.max + 1 && last == j - 1
        invariant ts == Lane(a, b, r, last)
        invariant |cs1| == |cs| && u1 == u + Elems(ts) && cs1 == Tally3(cs, ts)
      {
        u1, cs1, ts := InsertNextTriple(u, cs, a, b, r, j, ts, u1, cs1);
        last := j;
        j := j + 1;
      }
      assert last == r.max;
    }
    assert ts == Lane(a, b, r, r.max);
  }

  /** One pass of InsertSheet3's loop: the lane of level j of r1. */
  method InsertNextLane3(ghost u: set<T3>, ghost cs: seq<Word>, a: LevelT, r1: CS.Range, j: int, r2: CS.Range,
                         ghost ts: seq<T3>, u1: set<T3>, cs1: seq<Word>)
      returns (v: set<T3>, ds: seq<Word>, ghost ts1: seq<T3>)
    requires r1.min <= j <= r1.max && a < |cs| && r1.max < |cs| && r2.max < |cs| && |cs1| == |cs|
    requires ts == Sheet(a, r1, j - 1, r2) && u1 == u + Elems(ts) && cs1 == Tally3(cs, ts)
    ensures ts1 == Sheet(a, r1, j, r2) && v == u + Elems(ts1) && ds == Tally3(cs, ts1) && |ds| == |cs|
  {
    ghost var lane := Lane(a, j, r2, r2.max);
    v, ds := InsertLane3(u1, cs1, a, j, r2);
    Extend3(u, cs, ts, lane, u1, cs1, v, ds);
    ts1 := ts + lane;
  }

  /** The middle loop: one lane per level of r1. */
  method InsertSheet3(u: set<T3>, cs: seq<Word>, a: LevelT, r1: CS.Range, r2: CS.Range)
      returns (u1: set<T3>, cs1: seq<Word>)
    requires a < |cs| && r1.max < |cs| && r2.max < |cs|
    ensures u1 == u + Elems(Sheet(a, r1, r1.max, r2))
    ensures cs1 == Tally3(cs, Sheet(a, r1, r1.max, r2))
  {
    u1, cs1 := u, cs;
    ghost var ts: seq<T3> := [];
    if r1.min <= r1.max {
      var j: int := r1.min;
      ghost var last := j - 1;
      while j <= r1.max
        invariant r1.min <= j <= r1.max + 1 && last == j - 1
        invariant ts == Sheet(a, r1, last, r2)
        invariant |cs1| == |cs| && u1 == u + Elems(ts) && cs1 == Tally3(cs, ts)
      {
        u1, cs1, ts := InsertNextLane3(u, cs, a, r1, j, r2, ts, u1, cs1);
        last := j;
        j := j + 1;
      }
      assert last == r1.max;
    }
    assert ts == Sheet(a, r1, r1.max, r2);
  }

  /** One pass of InsertCube3's loop: the sheet of level j of r0. */
  method InsertNextSheet3(ghost u: set<T3>, ghost cs: seq<Word>, r0: CS.Range, j: int, r1: CS.Range, r2: CS.Range,
                          ghost ts: seq<T3>, u1: set<T3>, cs1: seq<Word>)
      returns (v: set<T3>, ds: seq<Word>, ghost ts1: seq<T3>)
    requires r0.min <= j <= r0.max && r0.max < |cs| && r1.max < |cs| && r2.max < |cs| && |cs1| == |cs|
    requires ts == Block(r0, j - 1, r1, r2) && u1 == u + Elems(ts) && cs1 == Tally3(cs, ts)
    ensures ts1 == Block(r0, j, r1, r2) && v == u + Elems(ts1) && ds == Tally3(cs, ts1) && |ds| == |cs|
  {
    ghost var sheet := Sheet(j, r1, r1.max, r2);
    v, ds := InsertSheet3(u1, cs1, j, r1, r2);
    Extend3(u, cs, ts, sheet, u1, cs1, v, ds);
    ts1 := ts + sheet;
  }

  /** The outer loop: one sheet per level of r0, i.e. the product
      r0 x r1 x r2. */
  method InsertCube3(u: set<T3>, cs: seq<Word>, r0: CS.Range, r1: CS.Range, r2: CS.Range)
      returns (u1: set<T3>, cs1: seq<Word>)
    requires r0.max < |cs| && r1.max < |cs| && r2.max < |cs|
    ensures u1 == u + Elems(Cube(r0, r1, r2))
    ensures cs1 == Tally3(cs, Cube(r0, r1, r2))
  {
    u1, cs1 := u, cs;
    ghost var ts: seq<T3> := [];
    if r0.min <= r0.max {
      var j: int := r0.min;
      ghost var last := j - 1;
      while j <= r0.max
        invariant r0.min <= j <= r0.max + 1 && last == j - 1
        invariant ts == Block(r0, last, r1, r2)
        invariant |cs1| == |cs| && u1 == u + Elems(ts) && cs1 == Tally3(cs, ts)
      {
        u1, cs1, ts := InsertNextSheet3(u, cs, r0, j, r1, r2, ts, u1, cs1);
        last := j;
        j := j + 1;
      }
      assert last == r0.max;
    }
    assert ts == Cube(r0, r1, r2);
  }

  /** The body of GenerateUncoveredT2Tuples' innermost loop. */
  method InsertPair(u: set<T2>, cs: seq<Word>, t: T2) returns (u1: set<T2>, cs1: seq<Word>)
    requires Below2(t, |cs|)
    ensures u1 == u + {t} && cs1 == Bump2(cs, t)
  {
    u1 := u + {t};
    cs1 := cs[t.a := Inc(cs[t.a])];
    cs1 := cs1[t.b := Inc(cs1[t.b])];
  }

  /** One pass of InsertPairLane's loop: the pair (a, k). */
  method InsertNextPair(ghost u: set<T2>, ghost cs: seq<Word>, a: LevelT, lo: int, k: int,
                        ghost ts: seq<T2>, u1: set<T2>, cs1: seq<Word>)
      returns (v: set<T2>, ds: seq<Word>, ghost ts1: seq<T2>)
    requires 0 <= lo <= k < |cs| && k < 0x1_0000 && a < |cs| && |cs1| == |cs|
    requires ts == PairLane(a, lo, k - 1) && u1 == u + Elems(ts) && cs1 == Tally2(cs, ts)
    ensures ts1 == PairLane(a, lo, k) && v == u + Elems(ts1) && ds == Tally2(cs, ts1) && |ds| == |cs|
  {
    var t := T2(a, k);
    v, ds := InsertPair(u1, cs1, t);
    ExtendOne2(u, cs, ts, t, u1, cs1, v, ds);
    ts1 := ts + [t];
  }

  /** The innermost loop of GenerateUncoveredT2Tuples: a paired with every
      level from lo up to top. */
  method InsertPairLane(u: set<T2>, cs: seq<Word>, a: LevelT, lo: int, top: LevelT)
      returns (u1: set<T2>, cs1: seq<Word>)
    requires a < |cs| && 0 <= lo && top < |cs|
    ensures u1 == u + Elems(PairLane(a, lo, top))
    ensures cs1 == Tally2(cs, PairLane(a, lo, top))
  {
    u1, cs1 := u, cs;
    ghost var ts: seq<T2> := [];
    if lo <= top {
      var k: int := lo;
      ghost var last := k - 1;
      while k <= top
        invariant lo <= k <= top + 1 && last == k - 1
        invariant ts == PairLane(a, lo, last)
        invariant |cs1| == |cs| && u1 == u + Elems(ts) && cs1 == Tally2(cs, ts)
      {
        u1, cs1, ts := InsertNextPair(u, cs, a, lo, k, ts, u1, cs1);
        last := k;
        k := k + 1;
      }
      assert last == top;
    }
    assert ts == PairLane(a, lo, top);
  }

  /** One pass of InsertPairSheet's loop: the lane of level j of r. */
  method InsertNextPairLane(ghost u: set<T2>, ghost cs: seq<Word>, r: CS.Range, j: int, top: int,
                            ghost ts: seq<T2>, u1: set<T2>, cs1: seq<Word>)
      returns (v: set<T2>, ds: seq<Word>, ghost ts1: seq<T2>)
    requires r.min <= j <= r.max && r.max < |cs| && 0 <= top < 0x1_0000 && top < |cs| && |cs1| == |cs|
    requires ts == PairSheet(r, j - 1, top) && u1 == u + Elems(ts) && cs1 == Tally2(cs, ts)
    ensures ts1 == PairSheet(r, j, top) && v == u + Elems(ts1) && ds == Tally2(cs, ts1) && |ds| == |cs|
  {
    ghost var lane := PairLane(j, r.max + 1, top);
    v, ds := InsertPairLane(u1, cs1, j, r.max + 1, top);
    Extend2(u, cs, ts, lane, u1, cs1, v, ds);
    PairSheetNext(r, j, top);
    ts1 := ts + lane;
  }

  /** The middle loop: every level of r paired with every level above
      r.max up to top. */
  method InsertPairSheet(u: set<T2>, cs: seq<Word>, r: CS.Range, top: LevelT)
      returns (u1: set<T2>, cs1: seq<Word>)
    requires r.max < |cs| && top < |cs|
    ensures u1 == u + Elems(PairSheet(r, r.max, top))
    ensures cs1 == Tally2(cs, PairSheet(r, r.max, top))
  {
    u1, cs1 := u, cs;
    ghost var ts: seq<T2> := [];
    if r.min <= r.max {
      var j: int := r.min;
      ghost var last := j - 1;
      while j <= r.max
        invariant r.min <= j <= r.max + 1 && last == j - 1
        invariant ts == PairSheet(r, last, top)
        invariant |cs1| == |cs| && u1 == u + Elems(ts) && cs1 == Tally2(cs, ts)
      {
        u1, cs1, ts := InsertNextPairLane(u, cs, r, j, top, ts, u1, cs1);
        last := j;
        j := j + 1;
      }
      assert last == r.max;
    }
    assert ts == PairSheet(r, r.max, top);
  }

  // ---------------------------------------------------------------------
  // The loops over a test case's tuples

  /** The inner loop of GenerateTestCaseT2Tuples: row[i] paired with every
      valid entry after it, appended to ts, with the count kept alongside. */
  method AppendPairsWith(row: seq<LevelT>, i: nat, ts: seq<T2>, n: nat) returns (ts1: seq<T2>, n1: nat)
    requires i < |row| && n == |ts|
    ensures ts1 == ts + PairsWith(row, i, |row| - 1) && n1 == |ts1|
  {
    ts1, n1 := ts, n;
    var j := i + 1;
    while j <= |row| - 1
      invariant i + 1 <= j <= |row|
      invariant ts1 == ts + PairsWith(row, i, j - 1) && n1 == |ts1|
    {
      if IsValidLevel(row[j]) {
        ts1 := ts1 + [T2(row[i], row[j])];
        n1 := n1 + 1;
      }
      j := j + 1;
    }
  }

  /** The coverage loops: how many of the listed tuples are still in u. */
  method CountFound<T>(ts: seq<T>, u: set<T>) returns (n: nat)
    ensures n == CountIn(ts, u)
  {
    n := 0;
    var i := 0;
    while i < |ts|
      invariant 0 <= i <= |ts| && n == CountIn(ts[..i], u)
    {
      assert ts[..i + 1][..i] == ts[..i];
      if ts[i] in u {
        n := n + 1;
      }
      i := i + 1;
    }
    assert ts[..|ts|] == ts;
  }

  /** The erase loop of AddToT2TestSuite: each pair still uncovered when
      it is reached is erased and its two counters are decremented. */
  method ErasePairs(u: set<T2>, cs: seq<Word>, ts: seq<T2>) returns (u1: set<T2>, cs1: seq<Word>)
    requires forall t :: t in u ==> Below2(t, |cs|)
    ensures u1 == u - Elems(ts) && cs1 == Erased2(u, cs, ts)
  {
    u1, cs1 := u, cs;
    var i := 0;
    while i < |ts|
      invariant 0 <= i <= |ts|
      invariant u1 == u - Elems(ts[..i]) && cs1 == Erased2(u, cs, ts[..i])
    {
      u1, cs1 := ErasePair(u, cs, ts[..i], ts[i], u1, cs1);
      assert ts[..i + 1] == ts[..i] + [ts[i]];
      i := i + 1;
    }
    assert ts[..|ts|] == ts;
  }

  /** One pass of ErasePairs' loop. */
  method ErasePair(ghost u: set<T2>, ghost cs: seq<Word>, ghost s: seq<T2>, t: T2, u1: set<T2>, cs1: seq<Word>)
      returns (v: set<T2>, ds: seq<Word>)
    requires forall x :: x in u ==> Below2(x, |cs|)
    requires u1 == u - Elems(s) && cs1 == Erased2(u, cs, s)
    ensures v == u - Elems(s + [t]) && ds == Erased2(u, cs, s + [t])
  {
    ElemsSnoc(s, t);
    assert (s + [t])[..|s|] == s;
    v, ds := u1, cs1;
    if t in u1 {
      v := u1 - {t};
      ds := cs1[t.a := Dec(cs1[t.a])];
      ds := ds[t.b := Dec(ds[t.b])];
    }
  }

  /** The erase loop of AddToT3TestSuite. */
  method EraseTriples(u: set<T3>, cs: seq<Word>, ts: seq<T3>) returns (u1: set<T3>, cs1: seq<Word>)
    requires forall t :: t in u ==> Below3(t, |cs|)
    ensures u1 == u - Elems(ts) && cs1 == Erased3(u, cs, ts)
  {
    u1, cs1 := u, cs;
    var i := 0;
    while i < |ts|
      invariant 0 <= i <= |ts|
      invariant u1 == u - Elems(ts[..i]) && cs1 == Erased3(u, cs, ts[..i])
    {
      u1, cs1 := EraseTriple(u, cs, ts[..i], ts[i], u1, cs1);
      assert ts[..i + 1] == ts[..i] + [ts[i]];
      i := i + 1;
    }
    assert ts[..|ts|] == ts;
  }

  /** One pass of EraseTriples' loop. */
  method EraseTriple(ghost u: set<T3>, ghost cs: seq<Word>, ghost s: seq<T3>, t: T3, u1: set<T3>, cs1: seq<Word>)
      returns (v: set<T3>, ds: seq<Word>)
    requires forall x :: x in u ==> Below3(x, |cs|)
    requires u1 == u - Elems(s) && cs1 == Erased3(u, cs, s)
    ensures v == u - Elems(s + [t]) && ds == Erased3(u, cs, s + [t])
  {
    ElemsSnoc(s, t);
    assert (s + [t])[..|s|] == s;
    v, ds := u1, cs1;
    if t in u1 {
      v := u1 - {t};
      ds := cs1[t.a := Dec(cs1[t.a])];
      ds := ds[t.b := Dec(ds[t.b])];
      ds := ds[t.c := Dec(ds[t.c])];
    }
  }

  /** One pass of GenerateUncoveredT2Tuples' loop: the levels of factor f
      paired with every level above its range, top being the system's
      maximum level. */
  method InsertFactorPairs(fs: seq<CS.Factor>, f: int, top: LevelT, z: seq<Word>, ghost ts: seq<T2>,
                           u: set<T2>, cs: seq<Word>) returns (u1: set<T2>, cs1: seq<Word>, ghost ts1: seq<T2>)
    requires 0 <= f < |fs| && top < |z| && fs[f].levels.max <= top
    requires ts == Universe2(fs, f, top) && AllBelow2(ts, |z|)
    requires |cs| == |z| && u == Elems(ts) && cs == Tally2(z, ts)
    ensures ts1 == Universe2(fs, f + 1, top) && AllBelow2(ts1, |z|)
    ensures |cs1| == |z| && u1 == Elems(ts1) && cs1 == Tally2(z, ts1)
  {
    var r := CS.Range(fs[f].levels.min, fs[f].levels.max);
    ghost var sheet := PairSheet(r, r.max, top);
    u1, cs1 := InsertPairSheet(u, cs, r, top);
    Extend2({}, z, ts, sheet, u, cs, u1, cs1);
    PairSheetBelow(r, top, |z|);
    AllBelowAppend2(ts, sheet, |z|);
    Universe2Next(fs, f, top);
    ts1 := ts + sheet;
  }

  /** The loops of GenerateUncoveredT2Tuples over a factor table of k
      factors: every factor but the last, in order. */
  method InsertAllPairs(fs: seq<CS.Factor>, k: FactorT, top: LevelT, z: seq<Word>)
      returns (u: set<T2>, cs: seq<Word>)
    requires k == |fs| && top < |z|
    requires forall g :: 0 <= g < |fs| ==> fs[g].levels.max <= top
    ensures AllBelow2(AllPairs(fs, top), |z|)
    ensures u == Elems(AllPairs(fs, top)) && cs == Tally2(z, AllPairs(fs, top))
  {
    u, cs := {}, z;
    ghost var ts: seq<T2> := [];
    ghost var stop := if k == 0 then 0 else k - 1;
    var f: int := 0;
    while f < k - 1
      invariant 0 <= f <= stop
      invariant ts == Universe2(fs, f, top) && AllBelow2(ts, |z|)
      invariant |cs| == |z| && u == Elems(ts) && cs == Tally2(z, ts)
    {
      u, cs, ts := InsertFactorPairs(fs, f, top, z, ts, u, cs);
      f := f + 1;
    }
  }

  /** l has the largest counter, and that counter is positive. */
  ghost predicate IsMostCounted(cs: seq<Word>, l: int)
  {
    0 <= l < |cs| && cs[l] > 0 && forall m :: 0 <= m < |cs| ==> cs[m] <= cs[l]
  }

  /** The level-count scan GenerateT3TestCaseCandidate makes for a factor
      while the candidate has fewer than two valid entries: the level of
      [lo, hi) with the largest positive counter, a later equal one taking
      over on a coin flip; LEVEL_INVALID when every counter there is zero.
      The upper bound hi (the factor's maximum level) is not scanned. */
  method BestCountedLevel(cs: seq<Word>, lo: int, hi: int) returns (best: LevelT)
    requires 0 <= lo && hi <= |cs| <= LEVEL_INVALID
    ensures best == LEVEL_INVALID <==> forall m :: lo <= m < hi ==> cs[m] == 0
    ensures best != LEVEL_INVALID ==>
              lo <= best < hi && cs[best] > 0 && forall m :: lo <= m < hi ==> cs[m] <= cs[best]
  {
    best := LEVEL_INVALID;
    var bestCount := 0;
    var m := lo;
    while m < hi
      invariant lo <= m && (m <= hi || m == lo)
      invariant best == LEVEL_INVALID ==> bestCount == 0 && forall q :: lo <= q < m ==> cs[q] == 0
      invariant best != LEVEL_INVALID ==> lo <= best < m && cs[best] == bestCount > 0
      invariant forall q :: lo <= q < m ==> cs[q] <= bestCount
    {
      if cs[m] > bestCount {
        best := m;
        bestCount := cs[best];
      } else if cs[m] == bestCount && bestCount > 0 {
        var coin: bool :| true;
        if coin {
          best := m;
        }
      }
      m := m + 1;
    }
  }

  /** How many of the row's triples (k factors) are in u. */
  ghost function Coverage3(row: seq<LevelT>, k: nat, u: set<T3>): nat
    requires |row| == k
  {
    CountIn(RowTriples(row, k), u)
  }

  /** The coverage of base with entry f set to level l. */
  ghost function CoverageAt3(base: seq<LevelT>, f: nat, l: LevelT, u: set<T3>): nat
    requires f < |base|
  {
    Coverage3(base[f := l], |base|, u)
  }

  /** A bound on the coverage of levels [lo, j) that also holds at j
      carries over to [lo, j] under any larger bound. */
  lemma ExtendBound3(base: seq<LevelT>, f: nat, lo: LevelT, j: LevelT, u: set<T3>, b0: nat, b1: nat)
    requires f < |base| && b0 <= b1 && CoverageAt3(base, f, j, u) <= b1
    requires forall l: LevelT :: lo <= l < j ==> CoverageAt3(base, f, l, u) <= b0
    ensures forall l: LevelT :: lo <= l <= j ==> CoverageAt3(base, f, l, u) <= b1
  {
  }

  /** How many of the row's pairs are in u. */
  ghost function Coverage2(row: seq<LevelT>, u: set<T2>): nat
    requires |row| > 1
  {
    CountIn(RowPairs(row), u)
  }

  /** The coverage of base with entry f set to level l. */
  ghost function CoverageAt2(base: seq<LevelT>, f: nat, l: LevelT, u: set<T2>): nat
    requires 1 < |base| && f < |base|
  {
    Coverage2(base[f := l], u)
  }

  /** Every assigned entry of the row lies in its factor's range. */
  ghost predicate InRangeWhereValid(fs: seq<CS.Factor>, row: seq<LevelT>)
  {
    |row| == |fs| && forall g :: 0 <= g < |row| && IsValidLevel(row[g]) ==> fs[g].IsInRange(row[g])
  }

  /** The factors order[0 .. i) of the row are assigned. */
  ghost predicate FilledUpTo(row: seq<LevelT>, order: seq<FactorT>, i: nat)
  {
    i <= |order| && forall q :: 0 <= q < i ==> order[q] < |row| && IsValidLevel(row[order[q]])
  }

  /** Assigning the next factor of the order a level extends FilledUpTo. */
  lemma FilledStep(row: seq<LevelT>, order: seq<FactorT>, i: nat, level: LevelT)
    requires FilledUpTo(row, order, i) && i < |order| && order[i] < |row| && IsValidLevel(level)
    ensures FilledUpTo(row[order[i] := level], order, i + 1)
  {
  }

  /** Once an order holding every factor is filled, every entry is in its
      factor's range. */
  lemma FilledAll(fs: seq<CS.Factor>, row: seq<LevelT>, order: seq<FactorT>)
    requires InRangeWhereValid(fs, row) && FilledUpTo(row, order, |order|)
    requires forall x :: 0 <= x < |row| ==> x in order
    ensures forall g :: 0 <= g < |row| ==> fs[g].IsInRange(row[g])
  {
    forall g | 0 <= g < |row|
      ensures fs[g].IsInRange(row[g])
    {
      assert g in order;
      var q :| 0 <= q < |order| && order[q] == g;
    }
  }

  /** The level the 3-way builder leaves at the unassigned factor f of row,
      whose range is [lo, hi], and the report n it passes on from n0. With
      fewer than T_WAY - 1 valid entries the counters decide: no counter of
      [lo, hi) beats the chosen level's, the chosen level lies below hi
      whenever one of them is positive, and the report is unchanged.
      Otherwise coverage decides: no level of [lo, hi] covers more uncovered
      triples than the chosen one, and the report becomes that coverage
      when it is positive. */
  ghost predicate Greedy3(row: seq<LevelT>, f: nat, lo: LevelT, hi: LevelT, counts: seq<Word>, u: set<T3>,
                          level: LevelT, n0: nat, n: nat)
    requires f < |row| && hi < |counts|
  {
    && lo <= level <= hi
    && if CountValid(row) < T_WAY - 1 then
         && n == n0
         && (forall m :: lo <= m < hi ==> counts[m] <= counts[level])
         && ((exists m :: lo <= m < hi && counts[m] > 0) ==> level < hi)
       else
         && (forall l: LevelT :: lo <= l <= hi ==> CoverageAt3(row, f, l, u) <= CoverageAt3(row, f, level, u))
         && n == if CoverageAt3(row, f, level, u) > 0 then CoverageAt3(row, f, level, u) else n0
  }

  /** Pass g of the 3-way builder's factor loop on row: an assigned factor
      keeps its level and the report; an unassigned one gets a level as
      Greedy3 describes for its range. */
  ghost predicate Step3(fs: seq<CS.Factor>, counts: seq<Word>, u: set<T3>, row: seq<LevelT>, g: nat,
                        level: LevelT, n0: nat, n: nat)
    requires g < |row| == |fs| && fs[g].levels.max < |counts|
  {
    if IsValidLevel(row[g]) then level == row[g] && n == n0
    else Greedy3(row, g, fs[g].levels.min, fs[g].levels.max, counts, u, level, n0, n)
  }

  /** Pass i of a 3-way run: rows[i] and ns[i] are the row and the report
      before it, levels[i] the level it leaves at factor order[i], and
      rows[i + 1] and ns[i + 1] what it passes on. */
  ghost predicate Pass3(fs: seq<CS.Factor>, counts: seq<Word>, u: set<T3>, order: seq<FactorT>,
                        rows: seq<seq<LevelT>>, levels: seq<LevelT>, ns: seq<nat>, i: nat)
  {
    && i < |order| && i + 1 < |rows| && i + 1 < |ns| && i < |levels|
    && order[i] < |rows[i]| == |fs| && fs[order[i]].levels.max < |counts|
    && Step3(fs, counts, u, rows[i], order[i], levels[i], ns[i], ns[i + 1])
    && rows[i + 1] == rows[i][order[i] := levels[i]]
  }

  /** The first m passes of the 3-way factor loop over order, each as
      Pass3. */
  ghost predicate Run3(fs: seq<CS.Factor>, counts: seq<Word>, u: set<T3>, order: seq<FactorT>, m: nat,
                       rows: seq<seq<LevelT>>, levels: seq<LevelT>, ns: seq<nat>)
  {
    && m <= |order| && |rows| == |ns| == m + 1 && |levels| == m
    && forall i: nat :: i < m ==> Pass3(fs, counts, u, order, rows, levels, ns, i)
  }

  /** One more pass extends a run of i passes. */
  lemma RunExtend3(fs: seq<CS.Factor>, counts: seq<Word>, u: set<T3>, order: seq<FactorT>, i: nat,
                   rows: seq<seq<LevelT>>, levels: seq<LevelT>, ns: seq<nat>, level: LevelT, n: nat)
    requires i < |order| && Run3(fs, counts, u, order, i, rows, levels, ns)
    requires order[i] < |rows[i]| == |fs| && fs[order[i]].levels.max < |counts|
    requires Step3(fs, counts, u, rows[i], order[i], level, ns[i], n)
    ensures Run3(fs, counts, u, order, i + 1, rows + [rows[i][order[i] := level]], levels + [level], ns + [n])
  {
    var rows1, levels1, ns1 := rows + [rows[i][order[i] := level]], levels + [level], ns + [n];
    forall k: nat | k < i + 1
      ensures Pass3(fs, counts, u, order, rows1, levels1, ns1, k)
    {
      if k < i {
        assert Pass3(fs, counts, u, order, rows, levels, ns, k);
      }
    }
  }

  /** Pass i of a 3-way run scanned coverage for its unassigned factor:
      n is the coverage of the level it chose, positive and the largest
      over that factor's range. */
  ghost predicate ScanReported3(fs: seq<CS.Factor>, u: set<T3>, order: seq<FactorT>,
                                rows: seq<seq<LevelT>>, levels: seq<LevelT>, i: nat, n: nat)
  {
    && i < |order| && i < |rows| && i < |levels| && order[i] < |rows[i]| == |fs|
    && var row, g, fg := rows[i], order[i], fs[order[i]];
    && !IsValidLevel(row[g]) && CountValid(row) >= T_WAY - 1
    && n == CoverageAt3(row, g, levels[i], u) > 0
    && forall l: LevelT :: fg.levels.min <= l <= fg.levels.max ==> CoverageAt3(row, g, l, u) <= n
  }

  /** A pass that changes the report scanned coverage, and the new report
      is what its scan reached. */
  lemma PassReport3(fs: seq<CS.Factor>, counts: seq<Word>, u: set<T3>, order: seq<FactorT>,
                    rows: seq<seq<LevelT>>, levels: seq<LevelT>, ns: seq<nat>, i: nat)
    requires Pass3(fs, counts, u, order, rows, levels, ns, i) && ns[i + 1] != ns[i]
    ensures ScanReported3(fs, u, order, rows, levels, i, ns[i + 1])
  {
  }

  /** After j passes the report is still the starting one, or it is the
      largest coverage a coverage scan of some earlier pass reached. */
  lemma {:induction false} RunReport3(fs: seq<CS.Factor>, counts: seq<Word>, u: set<T3>, order: seq<FactorT>,
                                      rows: seq<seq<LevelT>>, levels: seq<LevelT>, ns: seq<nat>, j: nat)
    requires Run3(fs, counts, u, order, |order|, rows, levels, ns) && j <= |order|
    ensures ns[j] == ns[0] || exists i :: 0 <= i < j && ScanReported3(fs, u, order, rows, levels, i, ns[j])
    decreases j
  {
    if j > 0 {
      RunReport3(fs, counts, u, order, rows, levels, ns, j - 1);
      var i := j - 1;
      if ns[j] != ns[i] {
        PassReport3(fs, counts, u, order, rows, levels, ns, i);
      }
    }
  }

  /** The level the 2-way builder leaves at the unassigned factor f of row,
      whose range is [lo, hi], and the report n it passes on from n0: no
      level of [lo, hi] covers more uncovered pairs than the chosen one,
      and the report becomes that coverage when it is positive. */
  ghost predicate Greedy2(row: seq<LevelT>, f: nat, lo: LevelT, hi: LevelT, u: set<T2>,
                          level: LevelT, n0: nat, n: nat)
    requires 1 < |row| && f < |row|
  {
    && lo <= level <= hi
    && (forall l: LevelT :: lo <= l <= hi ==> CoverageAt2(row, f, l, u) <= CoverageAt2(row, f, level, u))
    && n == if CoverageAt2(row, f, level, u) > 0 then CoverageAt2(row, f, level, u) else n0
  }

  /** Pass g of the 2-way builder's factor loop on row: an assigned factor
      keeps its level and the report; an unassigned one gets a level as
      Greedy2 describes for its range. */
  ghost predicate Step2(fs: seq<CS.Factor>, u: set<T2>, row: seq<LevelT>, g: nat, level: LevelT, n0: nat, n: nat)
    requires g < |row| == |fs| && 1 < |row|
  {
    if IsValidLevel(row[g]) then level == row[g] && n == n0
    else Greedy2(row, g, fs[g].levels.min, fs[g].levels.max, u, level, n0, n)
  }

  /** Pass i of a 2-way run, as Pass3. */
  ghost predicate Pass2(fs: seq<CS.Factor>, u: set<T2>, order: seq<FactorT>,
                        rows: seq<seq<LevelT>>, levels: seq<LevelT>, ns: seq<nat>, i: nat)
  {
    && i < |order| && i + 1 < |rows| && i + 1 < |ns| && i < |levels|
    && order[i] < |rows[i]| == |fs| && 1 < |fs|
    && Step2(fs, u, rows[i], order[i], levels[i], ns[i], ns[i + 1])
    && rows[i + 1] == rows[i][order[i] := levels[i]]
  }

  /** The first m passes of the 2-way factor loop over order, each as
      Pass2. */
  ghost predicate Run2(fs: seq<CS.Factor>, u: set<T2>, order: seq<FactorT>, m: nat,
                       rows: seq<seq<LevelT>>, levels: seq<LevelT>, ns: seq<nat>)
  {
    && m <= |order| && |rows| == |ns| == m + 1 && |levels| == m && 1 < |fs|
    && forall i: nat :: i < m ==> Pass2(fs, u, order, rows, levels, ns, i)
  }

  /** One more pass extends a 2-way run of i passes. */
  lemma RunExtend2(fs: seq<CS.Factor>, u: set<T2>, order: seq<FactorT>, i: nat,
                   rows: seq<seq<LevelT>>, levels: seq<LevelT>, ns: seq<nat>, level: LevelT, n: nat)
    requires i < |order| && Run2(fs, u, order, i, rows, levels, ns)
    requires order[i] < |rows[i]| == |fs|
    requires Step2(fs, u, rows[i], order[i], level, ns[i], n)
    ensures Run2(fs, u, order, i + 1, rows + [rows[i][order[i] := level]], levels + [level], ns + [n])
  {
    var rows1, levels1, ns1 := rows + [rows[i][order[i] := level]], levels + [level], ns + [n];
    forall k: nat | k < i + 1
      ensures Pass2(fs, u, order, rows1, levels1, ns1, k)
    {
      if k < i {
        assert Pass2(fs, u, order, rows, levels, ns, k);
      }
    }
  }

  /** Pass i of a 2-way run scanned its unassigned factor: n is the
      coverage of the level it chose, positive and the largest over that
      factor's range. */
  ghost predicate ScanReported2(fs: seq<CS.Factor>, u: set<T2>, order: seq<FactorT>,
                                rows: seq<seq<LevelT>>, levels: seq<LevelT>, i: nat, n: nat)
  {
    && i < |order| && i < |rows| && i < |levels| && order[i] < |rows[i]| == |fs| && 1 < |fs|
    && var row, g, fg := rows[i], order[i], fs[order[i]];
    && !IsValidLevel(row[g])
    && n == CoverageAt2(row, g, levels[i], u) > 0
    && forall l: LevelT :: fg.levels.min <= l <= fg.levels.max ==> CoverageAt2(row, g, l, u) <= n
  }

  /** A pass that changes the report scanned coverage, and the new report
      is what its scan reached. */
  lemma PassReport2(fs: seq<CS.Factor>, u: set<T2>, order: seq<FactorT>,
                    rows: seq<seq<LevelT>>, levels: seq<LevelT>, ns: seq<nat>, i: nat)
    requires Pass2(fs, u, order, rows, levels, ns, i) && ns[i + 1] != ns[i]
    ensures ScanReported2(fs, u, order, rows, levels, i, ns[i + 1])
  {
  }

  /** After j passes of a 2-way run the report is still the starting one,
      or it is the largest coverage the scan of some earlier pass reached. */
  lemma {:induction false} RunReport2(fs: seq<CS.Factor>, u: set<T2>, order: seq<FactorT>,
                                      rows: seq<seq<LevelT>>, levels: seq<LevelT>, ns: seq<nat>, j: nat)
    requires Run2(fs, u, order, |order|, rows, levels, ns) && j <= |order|
    ensures ns[j] == ns[0] || exists i :: 0 <= i < j && ScanReported2(fs, u, order, rows, levels, i, ns[j])
    decreases j
  {
    if j > 0 {
      RunReport2(fs, u, order, rows, levels, ns, j - 1);
      var i := j - 1;
      if ns[j] != ns[i] {
        PassReport2(fs, u, order, rows, levels, ns, i);
      }
    }
  }

  class TestSuite {
    var numFactors: FactorT
    var maxSystemLevel: LevelT
    /** One counter per system level: its occurrences among the uncovered
        tuples, on 16 bits. */
    var levelCount: seq<Word>
    var testCaseT2Tuples: seq<T2>
    var testCaseT3Tuples: seq<T3>
    var uncovered2: set<T2>
    var uncovered3: set<T3>
    /** The chosen test cases, in the order they were added. */
    var suite: seq<seq<LevelT>>

    /** One counter per system level, and every level of an uncovered
        tuple has one. */
    ghost predicate Valid()
      reads this
    {
      && |levelCount| == maxSystemLevel + 1
      && (forall t :: t in uncovered2 ==> Below2(t, |levelCount|))
      && (forall t :: t in uncovered3 ==> Below3(t, |levelCount|))
    }

    constructor ()
      ensures numFactors == 0 && maxSystemLevel == LEVEL_INVALID && levelCount == []
      ensures testCaseT2Tuples == [] && testCaseT3Tuples == []
      ensures uncovered2 == {} && uncovered3 == {} && suite == []
    {
      numFactors := 0;
      maxSystemLevel := LEVEL_INVALID;
      levelCount := [];
      testCaseT2Tuples := [];
      testCaseT3Tuples := [];
      uncovered2 := {};
      uncovered3 := {};
      suite := [];
    }

    /** Takes the system's shape: one zero counter per level up to its
        maximum level, nothing uncovered and no test cases. */
    method Init(system: CS.ComponentSystem)
      requires system.Valid()
      modifies this
      ensures Valid()
      ensures maxSystemLevel == system.GetMaxSystemLevel() && numFactors == system.NumFactors()
      ensures levelCount == Zeros(maxSystemLevel + 1)
      ensures uncovered2 == {} && uncovered3 == {} && suite == []
      ensures testCaseT2Tuples == old(testCaseT2Tuples) && testCaseT3Tuples == old(testCaseT3Tuples)
    {
      maxSystemLevel := system.GetMaxSystemLevel();
      numFactors := system.NumFactors();
      levelCount := Zeros(maxSystemLevel + 1);
      uncovered2 := {};
      uncovered3 := {};
      suite := [];
    }

    /** get_NumUncoveredT2Tuples */
    function NumUncoveredT2Tuples(): (n: nat)
      reads this
      ensures n == 0 <==> uncovered2 == {}
    {
      |uncovered2|
    }

    /** get_NumUncoveredT3Tuples */
    function NumUncoveredT3Tuples(): (n: nat)
      reads this
      ensures n == 0 <==> uncovered3 == {}
    {
      |uncovered3|
    }

    /** get_TestSuiteSize */
    function TestSuiteSize(): (n: nat)
      reads this
      ensures n == 0 <==> suite == []
    {
      |suite|
    }

    // -------------------------------------------------------------------
    // The uncovered triples

    /** One pass of the generator's loop: insert the cube of the factor
        triple cols stands at, then advance cols to the next triple. */
    method CoverColumns(system: CS.ComponentSystem, cols: array<int>, z: seq<Word>,
                        ghost all: seq<seq<int>>, ghost done: seq<seq<int>>, ghost cur: seq<int>)
        returns (more: bool, ghost next: seq<int>)
      requires system.Valid() && numFactors == |system.factors|
      requires forall f :: 0 <= f < |system.factors| ==> system.factors[f].levels.max < |z| <= LEVEL_INVALID
      requires |levelCount| == |z| && cols.Length == 3 && cols[..] == cur
      requires IsCombination(cur, numFactors) && done + LexFrom(cur, numFactors) == all
      requires ColumnTriples(all, numFactors) && ColumnTriples(done, numFactors)
      requires AllBelow3(Universe3(system.factors, done), |z|)
      requires uncovered3 == Elems(Universe3(system.factors, done))
      requires levelCount == Tally3(z, Universe3(system.factors, done))
      modifies this`uncovered3, this`levelCount, cols
      ensures |levelCount| == |z|
      ensures more ==> cols[..] == next && IsCombination(next, numFactors)
      ensures more ==> (done + [cur]) + LexFrom(next, numFactors) == all
      ensures more ==> |LexFrom(next, numFactors)| < |LexFrom(cur, numFactors)|
      ensures !more ==> done + [cur] == all
      ensures ColumnTriples(done + [cur], numFactors) && AllBelow3(Universe3(system.factors, done + [cur]), |z|)
      ensures uncovered3 == Elems(Universe3(system.factors, done + [cur]))
      ensures levelCount == Tally3(z, Universe3(system.factors, done + [cur]))
    {
      var c0, c1, c2 := cols[0], cols[1], cols[2];
      assert cur[0] == c0 && cur[1] == c1 && cur[2] == c2;
      var r0 := CS.Range(system.GetMinLevel(c0), system.GetMaxLevel(c0));
      var r1 := CS.Range(system.GetMinLevel(c1), system.GetMaxLevel(c1));
      var r2 := CS.Range(system.GetMinLevel(c2), system.GetMaxLevel(c2));
      assert Cube(r0, r1, r2) == CubeAt(system.factors, cur);
      uncovered3, levelCount := InsertCube3(uncovered3, levelCount, r0, r1, r2);
      CubeBelow3(r0, r1, r2, |z|);
      assert cols[..] == cur;
      more := NextCombination(cols, numFactors);
      next := cols[..];
      GenerateStep3(system.factors, all, done, cur, more, next, z, Cube(r0, r1, r2));
    }

    /** The products of the ranges of every increasing factor triple, in
        the order NextCombination visits them from [0, 1, 2], with each
        level counted once per occurrence. */
    method GenerateUncoveredT3Tuples(system: CS.ComponentSystem) returns (n: nat)
      requires Valid() && system.Valid()
      requires numFactors == |system.factors| && numFactors >= T_WAY
      requires maxSystemLevel < LEVEL_INVALID
      requires forall f :: 0 <= f < |system.factors| ==> system.factors[f].levels.max <= maxSystemLevel
      modifies this`uncovered3, this`levelCount
      ensures Valid()
      ensures AllBelow3(AllTriples(system.factors), maxSystemLevel + 1)
      ensures uncovered3 == Elems(AllTriples(system.factors))
      ensures levelCount == Tally3(Zeros(maxSystemLevel + 1), AllTriples(system.factors))
      ensures n == |uncovered3|
    {
      ghost var fs := system.factors;
      ghost var k := |fs|;
      var z := Zeros(maxSystemLevel + 1);
      uncovered3 := {};
      levelCount := z;
      var cols := new int[T_WAY];
      cols[0], cols[1], cols[2] := 0, 1, 2;
      assert cols[..] == First(3);
      AllColumns(k);
      ghost var all := LexFrom(First(3), k);
      ghost var done: seq<seq<int>> := [];
      ghost var cur := First(3);
      var more := true;
      while more
        invariant cols.Length == 3 && |levelCount| == |z|
        invariant more ==> cols[..] == cur && IsCombination(cur, k) && done + LexFrom(cur, k) == all
        invariant !more ==> done == all
        invariant ColumnTriples(done, k) && AllBelow3(Universe3(fs, done), |z|)
        invariant uncovered3 == Elems(Universe3(fs, done))
        invariant levelCount == Tally3(z, Universe3(fs, done))
        decreases if more then |LexFrom(cur, k)| else 0
      {
        ghost var next;
        more, next := CoverColumns(system, cols, z, all, done, cur);
        done, cur := done + [cur], next;
      }
      n := |uncovered3|;
    }

    // -------------------------------------------------------------------
    // The uncovered pairs

    /** For every factor but the last, each of its levels paired with
        every system level above the factor's range, with each level
        counted once per occurrence. */
    method GenerateUncoveredT2Tuples(system: CS.ComponentSystem) returns (n: nat)
      requires Valid() && system.Valid() && numFactors == |system.factors|
      requires maxSystemLevel < LEVEL_INVALID
      requires forall f :: 0 <= f < |system.factors| ==> system.factors[f].levels.max <= maxSystemLevel
      modifies this`uncovered2, this`levelCount
      ensures Valid()
      ensures AllBelow2(AllPairs(system.factors, maxSystemLevel), maxSystemLevel + 1)
      ensures uncovered2 == Elems(AllPairs(system.factors, maxSystemLevel))
      ensures levelCount == Tally2(Zeros(maxSystemLevel + 1), AllPairs(system.factors, maxSystemLevel))
      ensures n == |uncovered2|
    {
      var z := Zeros(maxSystemLevel + 1);
      ghost var all := AllPairs(system.factors, maxSystemLevel);
      var u, cs := InsertAllPairs(system.factors, numFactors, maxSystemLevel, z);
      ElemsBelow2(all, |z|);
      uncovered2, levelCount := u, cs;
      n := |uncovered2|;
    }
      // -------------------------------------------------------------------
    // A test case's tuples, its coverage, and adding it to the suite

    /** The pairs of the row's valid entries at increasing positions. The
        working vector is cleared and refilled only for a row of at least
        two entries; a shorter row leaves it as it was and yields 0. The
        16-bit loop counters need the row to fit a factor index. */
    method GenerateTestCaseT2Tuples(tc: TC.TestCase) returns (n: nat)
      requires |tc.data| <= WORD_MAX
      modifies this`testCaseT2Tuples
      ensures |tc.data| > 1 ==> testCaseT2Tuples == RowPairs(tc.data) && n == |testCaseT2Tuples|
      ensures |tc.data| <= 1 ==> testCaseT2Tuples == old(testCaseT2Tuples) && n == 0
    {
      n := 0;
      var size := tc.Size();
      if size > 1 {
        var row := tc.data;
        testCaseT2Tuples := [];
        var i := 0;
        while i < size - 1
          invariant 0 <= i <= size - 1
          invariant testCaseT2Tuples == PairsBelow(row, i) && n == |testCaseT2Tuples|
        {
          if IsValidLevel(row[i]) {
            testCaseT2Tuples, n := AppendPairsWith(row, i, testCaseT2Tuples, n);
          }
          PairsBelowNext(row, i + 1);
          i := i + 1;
        }
      }
    }

    /** One pass of GenerateTestCaseT3Tuples' loop: the triple the row
        shows on column triple cols (if its three entries are valid) is
        appended, then NextCombination advances cols. */
    method ShowColumns(row: seq<LevelT>, cols: array<int>, ghost all: seq<seq<int>>,
                       ghost done: seq<seq<int>>, ghost cur: seq<int>)
        returns (more: bool, ghost next: seq<int>)
      requires numFactors <= |row| && cols.Length == 3 && cols[..] == cur
      requires IsCombination(cur, numFactors) && done + LexFrom(cur, numFactors) == all
      requires ColumnTriples(all, numFactors) && ColumnTriples(done, numFactors)
      requires testCaseT3Tuples == TriplesOf(row, done, numFactors)
      modifies this`testCaseT3Tuples, cols
      ensures more ==> cols[..] == next && IsCombination(next, numFactors)
      ensures more ==> (done + [cur]) + LexFrom(next, numFactors) == all
      ensures more ==> |LexFrom(next, numFactors)| < |LexFrom(cur, numFactors)|
      ensures !more ==> done + [cur] == all
      ensures ColumnTriples(done + [cur], numFactors)
      ensures testCaseT3Tuples == TriplesOf(row, done + [cur], numFactors)
    {
      var c0, c1, c2 := cols[0], cols[1], cols[2];
      assert cur[0] == c0 && cur[1] == c1 && cur[2] == c2;
      var l1 := row[c0];
      if IsValidLevel(l1) {
        var l2 := row[c1];
        if IsValidLevel(l2) {
          var l3 := row[c2];
          if IsValidLevel(l3) {
            testCaseT3Tuples := testCaseT3Tuples + [T3(l1, l2, l3)];
          }
        }
      }
      assert testCaseT3Tuples == old(testCaseT3Tuples) + ColumnTriple(row, cur);
      more := NextCombination(cols, numFactors);
      next := cols[..];
      WalkStep(all, done, cur, numFactors, more, next);
      ColumnTriplesSplit(done + [cur], all[|done| + 1..], numFactors);
      TriplesOfAppend(row, done, cur, numFactors);
    }

    /** The row's triples: cleared first; nothing unless three entries are
        valid, otherwise the triple of every increasing column triple with
        three valid entries, in the order NextCombination visits them. */
    method GenerateTestCaseT3Tuples(tc: TC.TestCase) returns (n: nat)
      requires CountValid(tc.data) >= T_WAY ==> T_WAY <= numFactors <= |tc.data|
      modifies this`testCaseT3Tuples
      ensures testCaseT3Tuples == RowTriples(tc.data, numFactors) && n == |testCaseT3Tuples|
    {
      testCaseT3Tuples := [];
      var valid := tc.GetNumValidFactors();
      if valid >= T_WAY {
        var row := tc.data;
        ghost var k := numFactors;
        var cols := new int[T_WAY];
        cols[0], cols[1], cols[2] := 0, 1, 2;
        assert cols[..] == First(3);
        AllColumns(k);
        ghost var all := LexFrom(First(3), k);
        ghost var done: seq<seq<int>> := [];
        ghost var cur := First(3);
        var more := true;
        while more
          invariant cols.Length == 3
          invariant more ==> cols[..] == cur && IsCombination(cur, k) && done + LexFrom(cur, k) == all
          invariant !more ==> done == all
          invariant ColumnTriples(done, k) && testCaseT3Tuples == TriplesOf(row, done, k)
          decreases if more then |LexFrom(cur, k)| else 0
        {
          ghost var next;
          more, next := ShowColumns(row, cols, all, done, cur);
          done, cur := done + [cur], next;
        }
      }
      n := |testCaseT3Tuples|;
    }

    /** The number of the row's listed pairs still uncovered. The pairs are
        regenerated first; for a row shorter than two entries the working
        vector keeps the pairs of the previous row and those are counted.
        Neither the uncovered pairs nor the counters change. */
    method CalculateT2TestCaseCoverage(tc: TC.TestCase) returns (n: nat)
      requires |tc.data| <= WORD_MAX
      modifies this`testCaseT2Tuples
      ensures |tc.data| > 1 ==> testCaseT2Tuples == RowPairs(tc.data)
      ensures |tc.data| <= 1 ==> testCaseT2Tuples == old(testCaseT2Tuples)
      ensures n == CountIn(testCaseT2Tuples, uncovered2)
    {
      var generated := GenerateTestCaseT2Tuples(tc);
      n := CountFound(testCaseT2Tuples, uncovered2);
    }

    /** The number of the row's triples still uncovered (0 when the row
        shows none). Neither the uncovered triples nor the counters
        change. */
    method CalculateT3TestCaseCoverage(tc: TC.TestCase) returns (n: nat)
      requires CountValid(tc.data) >= T_WAY ==> T_WAY <= numFactors <= |tc.data|
      modifies this`testCaseT3Tuples
      ensures testCaseT3Tuples == RowTriples(tc.data, numFactors)
      ensures n == CountIn(RowTriples(tc.data, numFactors), uncovered3)
    {
      n := 0;
      var generated := GenerateTestCaseT3Tuples(tc);
      if generated > 0 {
        n := CountFound(testCaseT3Tuples, uncovered3);
      }
    }

    /** Erases the row's pairs from the uncovered set, decrementing both
        counters of each pair actually erased, and appends the row whether
        or not it covered anything; returns the new suite size. */
    method AddToT2TestSuite(tc: TC.TestCase) returns (n: nat)
      requires Valid() && |tc.data| <= WORD_MAX
      modifies this`testCaseT2Tuples, this`uncovered2, this`levelCount, this`suite
      ensures Valid()
      ensures |tc.data| > 1 ==> testCaseT2Tuples == RowPairs(tc.data)
      ensures |tc.data| <= 1 ==> testCaseT2Tuples == old(testCaseT2Tuples)
      ensures uncovered2 == old(uncovered2) - Elems(testCaseT2Tuples)
      ensures levelCount == Erased2(old(uncovered2), old(levelCount), testCaseT2Tuples)
      ensures CountsMatch2(old(uncovered2), old(levelCount)) ==> CountsMatch2(uncovered2, levelCount)
      ensures suite == old(suite) + [tc.data] && n == |suite|
    {
      var generated := GenerateTestCaseT2Tuples(tc);
      uncovered2, levelCount := ErasePairs(uncovered2, levelCount, testCaseT2Tuples);
      if CountsMatch2(old(uncovered2), old(levelCount)) {
        ErasePreservesMatch2(old(uncovered2), old(levelCount), testCaseT2Tuples);
      }
      suite := suite + [tc.data];
      n := |suite|;
    }

    /** When the row shows at least one triple: erases its triples from the
        uncovered set, decrementing the three counters of each triple
        actually erased, appends the row and returns the new suite size.
        Otherwise nothing but the working vector changes and 0 is
        returned. */
    method AddToT3TestSuite(tc: TC.TestCase) returns (n: nat)
      requires Valid() && (CountValid(tc.data) >= T_WAY ==> T_WAY <= numFactors <= |tc.data|)
      modifies this`testCaseT3Tuples, this`uncovered3, this`levelCount, this`suite
      ensures Valid()
      ensures testCaseT3Tuples == RowTriples(tc.data, numFactors)
      ensures testCaseT3Tuples != [] ==>
                && uncovered3 == old(uncovered3) - Elems(testCaseT3Tuples)
                && levelCount == Erased3(old(uncovered3), old(levelCount), testCaseT3Tuples)
                && suite == old(suite) + [tc.data] && n == |suite|
      ensures testCaseT3Tuples == [] ==>
                && uncovered3 == old(uncovered3) && levelCount == old(levelCount)
                && suite == old(suite) && n == 0
      ensures CountsMatch3(old(uncovered3), old(levelCount)) ==> CountsMatch3(uncovered3, levelCount)
    {
      n := 0;
      var generated := GenerateTestCaseT3Tuples(tc);
      if generated > 0 {
        uncovered3, levelCount := EraseTriples(uncovered3, levelCount, testCaseT3Tuples);
        if CountsMatch3(old(uncovered3), old(levelCount)) {
          ErasePreservesMatch3(old(uncovered3), old(levelCount), testCaseT3Tuples);
        }
        suite := suite + [tc.data];
        n := |suite|;
      }
    }
      // -------------------------------------------------------------------
    // Candidate rows

    /** One pass of ScoreLevels3' loop: level j is written into the row
        and scored; a strictly better coverage takes over and is reported,
        an equal positive one takes over on a coin flip. */
    method ScoreLevel3(tc: TC.TestCase, f: nat, j: LevelT, ghost base: seq<LevelT>, ghost last: LevelT,
                        ghost n0: nat, best: LevelT, bestCov: nat, n: nat)
        returns (best1: LevelT, bestCov1: nat, n1: nat)
      requires |base| == numFactors && f < |base| && tc.data == base[f := last] && j != LEVEL_INVALID
      requires best == LEVEL_INVALID ==> bestCov == 0 && n == n0
      requires best != LEVEL_INVALID ==> bestCov == CoverageAt3(base, f, best, uncovered3)
      requires n == if bestCov > 0 then bestCov else n0
      modifies tc, this`testCaseT3Tuples
      ensures tc.data == base[f := j]
      ensures best1 == best || best1 == j
      ensures best1 == LEVEL_INVALID ==> bestCov1 == 0 && n1 == n0
      ensures best1 != LEVEL_INVALID ==> bestCov1 == CoverageAt3(base, f, best1, uncovered3)
      ensures n1 == if bestCov1 > 0 then bestCov1 else n0
      ensures bestCov <= bestCov1 && CoverageAt3(base, f, j, uncovered3) <= bestCov1
    {
      best1, bestCov1, n1 := best, bestCov, n;
      tc.Set(f, j);
      assert tc.data == base[f := j];
      var coverage := CalculateT3TestCaseCoverage(tc);
      if coverage > bestCov {
        bestCov1 := coverage;
        best1 := j;
        n1 := coverage;
      } else if coverage == bestCov && coverage > 0 {
        var coin: bool :| true;
        if coin {
          best1 := j;
        }
      }
    }

    /** The coverage scan of GenerateT3TestCaseCandidate for factor f: every
        level of [lo, hi] is tried in turn; a strictly better coverage takes
        over (and becomes the reported result n), an equal positive one
        takes over on a coin flip. The row is left with f at hi. */
    method ScoreLevels3(tc: TC.TestCase, f: nat, lo: LevelT, hi: LevelT, ghost base: seq<LevelT>, n0: nat)
        returns (best: LevelT, bestCov: nat, n: nat)
      requires |base| == numFactors && f < numFactors && tc.data == base && lo <= hi < LEVEL_INVALID
      modifies tc, this`testCaseT3Tuples
      ensures tc.data == base[f := hi]
      ensures best == LEVEL_INVALID ==> bestCov == 0 && n == n0
      ensures best != LEVEL_INVALID ==> lo <= best <= hi && bestCov == CoverageAt3(base, f, best, uncovered3)
      ensures n == if bestCov > 0 then bestCov else n0
      ensures forall l: LevelT :: lo <= l <= hi ==> CoverageAt3(base, f, l, uncovered3) <= bestCov
    {
      best, bestCov, n := LEVEL_INVALID, 0, n0;
      var j: LevelT := lo;
      ghost var last: LevelT := base[f];
      ghost var u := uncovered3;
      assert base[f := last] == base;
      while j <= hi
        invariant lo <= j <= hi + 1
        invariant tc.data == base[f := last] && (j > lo ==> last == j - 1)
        invariant best == LEVEL_INVALID ==> bestCov == 0 && n == n0
        invariant best != LEVEL_INVALID ==> lo <= best < j && bestCov == CoverageAt3(base, f, best, u)
        invariant n == if bestCov > 0 then bestCov else n0
        invariant u == uncovered3
        invariant forall l: LevelT :: lo <= l < j ==> CoverageAt3(base, f, l, u) <= bestCov
      {
        ghost var prev := bestCov;
        best, bestCov, n := ScoreLevel3(tc, f, j, base, last, n0, best, bestCov, n);
        ExtendBound3(base, f, lo, j, u, prev, bestCov);
        last := j;
        j := j + 1;
      }
    }

    /** The step of GenerateT3TestCaseCandidate for an unassigned factor f:
        while fewer than two entries are valid, the level of [min, max) with
        the largest counter; otherwise the level of [min, max] whose row
        covers the most uncovered triples; a level drawn from [min, max]
        when neither scan finds one (Greedy3). The reported coverage never
        exceeds the coverage of the row this step leaves. */
    method FillFactor3(system: CS.ComponentSystem, tc: TC.TestCase, f: FactorT, n0: nat)
        returns (n: nat, ghost level: LevelT)
      requires system.Valid() && |system.factors| == numFactors && f < numFactors
      requires |levelCount| == maxSystemLevel + 1 && maxSystemLevel < LEVEL_INVALID
      requires system.factors[f].levels.min <= system.factors[f].levels.max <= maxSystemLevel
      requires |tc.data| == numFactors && tc.data[f] == LEVEL_INVALID && n0 <= Coverage3(tc.data, numFactors, uncovered3)
      modifies tc, this`testCaseT3Tuples
      ensures system.factors[f].IsInRange(level) && tc.data == old(tc.data)[f := level]
      ensures Greedy3(old(tc.data), f, system.factors[f].levels.min, system.factors[f].levels.max,
                      levelCount, uncovered3, level, n0, n)
      ensures n <= Coverage3(tc.data, numFactors, uncovered3)
    {
      ghost var base := tc.data;
      var lo := system.GetMinLevel(f);
      var hi := system.GetMaxLevel(f);
      var best := LEVEL_INVALID;
      n := n0;
      var valid := tc.GetNumValidFactors();
      if valid < T_WAY - 1 {
        best := BestCountedLevel(levelCount, lo, hi);
        if !IsValidLevel(best) {
          assert lo <= lo <= hi;
          best :| lo <= best <= hi;
        }
        tc.Set(f, best);
      } else {
        var bestCov;
        best, bestCov, n := ScoreLevels3(tc, f, lo, hi, base, n0);
      }
      if !IsValidLevel(best) {
        assert lo <= lo <= hi;
        best :| lo <= best <= hi;
      }
      tc.Set(f, best);
      assert tc.data == base[f := best] by {
        assert |tc.data| == |base[f := best]|;
        forall i | 0 <= i < |tc.data|
          ensures tc.data[i] == base[f := best][i]
        {
        }
      }
      level := best;
      FillExtends(base, f, best);
      if numFactors >= 3 {
        RowTriplesGrow(base, base[f := best], numFactors, uncovered3);
      }
    }

    /** The start of both candidate builders: a fresh row of LEVEL_INVALID
        entries with the level of largest counter placed at the first
        factor holding it, and a shuffled order of all factors. */
    method PlaceAnchor(system: CS.ComponentSystem, tc: TC.TestCase) returns (anchor: FactorT, order: seq<FactorT>)
      requires Valid() && system.Valid() && |system.factors| == numFactors > 1 && maxSystemLevel < LEVEL_INVALID
      requires exists l :: 0 <= l < |levelCount| && levelCount[l] > 0
      requires forall l: Word :: l < |levelCount| && levelCount[l] > 0 ==> CS.InSomeFactor(system.factors, l)
      modifies tc
      ensures anchor < numFactors && |tc.data| == numFactors && IsMostCounted(levelCount, tc.data[anchor])
      ensures forall g :: 0 <= g < numFactors && g != anchor ==> tc.data[g] == LEVEL_INVALID
      ensures InRangeWhereValid(system.factors, tc.data) && FilledUpTo(tc.data, order, 0)
      ensures |order| == numFactors && forall i :: 0 <= i < |order| ==> order[i] < numFactors
      ensures forall x :: 0 <= x < numFactors ==> x in order
    {
      tc.Init(numFactors);
      var best := FindGreatestOccuringLevel(levelCount);
      assert IsMostCounted(levelCount, best);
      anchor := system.GetFactor(best);
      tc.Set(anchor, best);
      var count;
      count, order := system.GetShuffledFactors([]);
      CS.PermutationOfIndices(order, numFactors);
    }

    /** One pass of GenerateT3TestCaseCandidate's loop over the shuffled
        factors: factor g keeps its level when it has one, and gets one
        from FillFactor3 otherwise. */
    method FillNext3(system: CS.ComponentSystem, tc: TC.TestCase, g: FactorT, n0: nat)
        returns (n: nat, ghost level: LevelT)
      requires system.Valid() && |system.factors| == numFactors && g < numFactors
      requires |levelCount| == maxSystemLevel + 1 && maxSystemLevel < LEVEL_INVALID
      requires system.factors[g].levels.min <= system.factors[g].levels.max <= maxSystemLevel
      requires |tc.data| == numFactors && InRangeWhereValid(system.factors, tc.data)
      requires n0 <= Coverage3(tc.data, numFactors, uncovered3)
      modifies tc, this`testCaseT3Tuples
      ensures IsValidLevel(level) && tc.data == old(tc.data)[g := level]
      ensures Step3(system.factors, levelCount, uncovered3, old(tc.data), g, level, n0, n)
      ensures InRangeWhereValid(system.factors, tc.data)
      ensures n <= Coverage3(tc.data, numFactors, uncovered3)
    {
      n := n0;
      var current := tc.Get(g);
      level := current;
      if !IsValidLevel(current) {
        n, level := FillFactor3(system, tc, g, n0);
      }
    }

    /** The loop of GenerateT3TestCaseCandidate: each factor of the
        order, in turn, keeps or gets a level (FillNext3); the passes form
        a Run3 from the given row, with the report starting at 0. */
    method FillInOrder3(system: CS.ComponentSystem, tc: TC.TestCase, order: seq<FactorT>, anchor: FactorT)
        returns (n: nat, ghost rows: seq<seq<LevelT>>, ghost levels: seq<LevelT>, ghost ns: seq<nat>)
      requires system.Valid() && |system.factors| == numFactors > 2 && anchor < numFactors
      requires forall g :: 0 <= g < numFactors ==>
                 system.factors[g].levels.min <= system.factors[g].levels.max <= maxSystemLevel
      requires |levelCount| == maxSystemLevel + 1 && maxSystemLevel < LEVEL_INVALID
      requires |tc.data| == numFactors && IsValidLevel(tc.data[anchor])
      requires InRangeWhereValid(system.factors, tc.data)
      requires |order| == numFactors && forall i :: 0 <= i < |order| ==> order[i] < numFactors
      requires forall x :: 0 <= x < numFactors ==> x in order
      modifies tc, this`testCaseT3Tuples
      ensures |tc.data| == numFactors && tc.data[anchor] == old(tc.data)[anchor]
      ensures forall g :: 0 <= g < numFactors ==> system.factors[g].IsInRange(tc.data[g])
      ensures Run3(system.factors, levelCount, uncovered3, order, |order|, rows, levels, ns)
      ensures rows[0] == old(tc.data) && rows[|order|] == tc.data && ns[0] == 0 && n == ns[|order|]
      ensures n <= Coverage3(tc.data, numFactors, uncovered3)
    {
      n := 0;
      ghost var fs, u, best := system.factors, uncovered3, tc.data[anchor];
      rows, levels, ns := [tc.data], [], [0];
      var i := 0;
      while i < |order|
        invariant 0 <= i <= |order| && |tc.data| == numFactors
        invariant fs == system.factors && u == uncovered3
        invariant tc.data[anchor] == best
        invariant InRangeWhereValid(fs, tc.data) && FilledUpTo(tc.data, order, i)
        invariant Run3(fs, levelCount, u, order, i, rows, levels, ns)
        invariant rows[0] == old(tc.data) && rows[i] == tc.data && ns[0] == 0 && ns[i] == n
        invariant n <= Coverage3(tc.data, numFactors, u)
      {
        ghost var row, level := tc.data, 0;
        n, level := FillNext3(system, tc, order[i], n);
        FilledStep(row, order, i, level);
        RunExtend3(fs, levelCount, u, order, i, rows, levels, ns, level, n);
        rows, levels, ns := rows + [tc.data], levels + [level], ns + [n];
        i := i + 1;
      }
      FilledAll(fs, tc.data, order);
    }

    /** Builds a 3-way candidate row for a suite of more than two factors:
        the level with the largest counter is placed at its factor, then
        every other factor, in a shuffled order, gets a level of its range
        (FillFactor3). With at most two factors nothing happens and 0 is
        returned. The ghost results record the run: the shuffled order, the
        row before each pass (the first holds only the anchor), the level
        each pass leaves and the report after each. The result is 0 or the
        largest coverage some pass's scan reached, and it never exceeds the
        finished row's coverage. */
    method GenerateT3TestCaseCandidate(system: CS.ComponentSystem, tc: TC.TestCase)
        returns (n: nat, ghost order: seq<FactorT>, ghost rows: seq<seq<LevelT>>, ghost levels: seq<LevelT>,
                 ghost ns: seq<nat>)
      requires Valid() && system.Valid() && |system.factors| == numFactors && maxSystemLevel < LEVEL_INVALID
      requires forall g :: 0 <= g < numFactors ==>
                 system.factors[g].levels.min <= system.factors[g].levels.max <= maxSystemLevel
      requires numFactors > 2 ==> exists l :: 0 <= l < |levelCount| && levelCount[l] > 0
      requires forall l: Word :: l < |levelCount| && levelCount[l] > 0 ==> CS.InSomeFactor(system.factors, l)
      modifies tc, this`testCaseT3Tuples
      ensures numFactors <= 2 ==> n == 0 && tc.data == old(tc.data) && testCaseT3Tuples == old(testCaseT3Tuples)
      ensures numFactors > 2 ==> |tc.data| == numFactors
      ensures numFactors > 2 ==> forall g :: 0 <= g < numFactors ==> system.factors[g].IsInRange(tc.data[g])
      ensures numFactors > 2 ==> exists g :: 0 <= g < numFactors && IsMostCounted(levelCount, tc.data[g])
      ensures numFactors > 2 ==> |order| == numFactors && forall x :: 0 <= x < numFactors ==> x in order
      ensures numFactors > 2 ==>
                && Run3(system.factors, levelCount, uncovered3, order, |order|, rows, levels, ns)
                && rows[|order|] == tc.data && ns[0] == 0 && n == ns[|order|]
      ensures numFactors > 2 ==> |rows[0]| == numFactors
      ensures numFactors > 2 ==>
                exists a :: (0 <= a < numFactors && IsMostCounted(levelCount, rows[0][a]) &&
                             forall g :: 0 <= g < numFactors && g != a ==> rows[0][g] == LEVEL_INVALID)
      ensures numFactors > 2 ==>
                n == 0 || exists i :: 0 <= i < |order| && ScanReported3(system.factors, uncovered3, order, rows, levels, i, n)
      ensures numFactors > 2 ==> n <= Coverage3(tc.data, numFactors, uncovered3)
    {
      n, order, rows, levels, ns := 0, [], [tc.data], [], [0];
      if numFactors > 2 {
        var anchor, shuffled := PlaceAnchor(system, tc);
        ghost var lc := levelCount;
        order := shuffled;
        n, rows, levels, ns := FillInOrder3(system, tc, shuffled, anchor);
        assert IsMostCounted(lc, tc.data[anchor]);
        RunReport3(system.factors, levelCount, uncovered3, order, rows, levels, ns, |order|);
      }
    }

    /** One pass of ScoreLevels2' loop: level j is written into the row
        and scored; a strictly better coverage takes over and is reported,
        an equal one, even zero, takes over on a coin flip. */
    method ScoreLevel2(tc: TC.TestCase, f: nat, j: LevelT, ghost base: seq<LevelT>, ghost last: LevelT,
                        ghost n0: nat, best: LevelT, bestCov: nat, n: nat)
        returns (best1: LevelT, bestCov1: nat, n1: nat)
      requires 1 < |base| <= WORD_MAX && f < |base| && tc.data == base[f := last] && j != LEVEL_INVALID
      requires best == LEVEL_INVALID ==> bestCov == 0 && n == n0
      requires best != LEVEL_INVALID ==> bestCov == CoverageAt2(base, f, best, uncovered2)
      requires n == if bestCov > 0 then bestCov else n0
      modifies tc, this`testCaseT2Tuples
      ensures tc.data == base[f := j]
      ensures best1 == best || best1 == j
      ensures best1 == LEVEL_INVALID ==> bestCov1 == 0 && n1 == n0
      ensures best1 != LEVEL_INVALID ==> bestCov1 == CoverageAt2(base, f, best1, uncovered2)
      ensures n1 == if bestCov1 > 0 then bestCov1 else n0
      ensures bestCov <= bestCov1 && CoverageAt2(base, f, j, uncovered2) <= bestCov1
    {
      best1, bestCov1, n1 := best, bestCov, n;
      tc.Set(f, j);
      assert tc.data == base[f := j];
      var coverage := CalculateT2TestCaseCoverage(tc);
      if coverage > bestCov {
        bestCov1 := coverage;
        best1 := j;
        n1 := coverage;
      } else if coverage == bestCov {
        var coin: bool :| true;
        if coin {
          best1 := j;
        }
      }
    }

    /** The coverage scan of GenerateT2TestCaseCandidate for factor f: every
        level of [lo, hi] is tried in turn; a strictly better coverage takes
        over (and becomes the reported result n), an equal one, even zero,
        takes over on a coin flip. The row is left with f at hi. */
    method ScoreLevels2(tc: TC.TestCase, f: nat, lo: LevelT, hi: LevelT, ghost base: seq<LevelT>, n0: nat)
        returns (best: LevelT, bestCov: nat, n: nat)
      requires 1 < |base| <= WORD_MAX && f < |base| && tc.data == base && lo <= hi < LEVEL_INVALID
      modifies tc, this`testCaseT2Tuples
      ensures tc.data == base[f := hi]
      ensures best == LEVEL_INVALID ==> bestCov == 0 && n == n0
      ensures best != LEVEL_INVALID ==> lo <= best <= hi && bestCov == CoverageAt2(base, f, best, uncovered2)
      ensures n == if bestCov > 0 then bestCov else n0
      ensures forall l: LevelT :: lo <= l <= hi ==> CoverageAt2(base, f, l, uncovered2) <= bestCov
    {
      best, bestCov, n := LEVEL_INVALID, 0, n0;
      var j: LevelT := lo;
      ghost var last: LevelT := base[f];
      assert base[f := last] == base;
      while j <= hi
        invariant lo <= j <= hi + 1
        invariant tc.data == base[f := last] && (j > lo ==> last == j - 1)
        invariant best == LEVEL_INVALID ==> bestCov == 0 && n == n0
        invariant best != LEVEL_INVALID ==> lo <= best < j && bestCov == CoverageAt2(base, f, best, uncovered2)
        invariant n == if bestCov > 0 then bestCov else n0
        invariant forall l: LevelT :: lo <= l < j ==> CoverageAt2(base, f, l, uncovered2) <= bestCov
      {
        best, bestCov, n := ScoreLevel2(tc, f, j, base, last, n0, best, bestCov, n);
        last := j;
        j := j + 1;
      }
    }

    /** The step of GenerateT2TestCaseCandidate for an unassigned factor f:
        the level of [min, max] whose row covers the most uncovered pairs,
        or the minimum level when the scan keeps none (Greedy2). The
        reported coverage never exceeds the coverage of the row this step
        leaves. */
    method FillFactor2(system: CS.ComponentSystem, tc: TC.TestCase, f: FactorT, n0: nat)
        returns (n: nat, ghost level: LevelT)
      requires system.Valid() && |system.factors| == numFactors && f < numFactors
      requires system.factors[f].levels.min <= system.factors[f].levels.max < LEVEL_INVALID
      requires 1 < |tc.data| == numFactors && tc.data[f] == LEVEL_INVALID && n0 <= Coverage2(tc.data, uncovered2)
      modifies tc, this`testCaseT2Tuples
      ensures system.factors[f].IsInRange(level) && tc.data == old(tc.data)[f := level]
      ensures Greedy2(old(tc.data), f, system.factors[f].levels.min, system.factors[f].levels.max,
                      uncovered2, level, n0, n)
      ensures n <= Coverage2(tc.data, uncovered2)
    {
      ghost var base := tc.data;
      var lo := system.GetMinLevel(f);
      var hi := system.GetMaxLevel(f);
      var best, bestCov;
      best, bestCov, n := ScoreLevels2(tc, f, lo, hi, base, n0);
      if !IsValidLevel(best) {
        best := lo;
      }
      tc.Set(f, best);
      level := best;
      FillExtends(base, f, best);
      RowPairsGrow(base, base[f := best], uncovered2);
    }

    /** One pass of GenerateT2TestCaseCandidate's loop over the shuffled
        factors: factor g keeps its level when it has one, and gets one
        from FillFactor2 otherwise. */
    method FillNext2(system: CS.ComponentSystem, tc: TC.TestCase, g: FactorT, n0: nat)
        returns (n: nat, ghost level: LevelT)
      requires system.Valid() && |system.factors| == numFactors && g < numFactors
      requires system.factors[g].levels.min <= system.factors[g].levels.max < LEVEL_INVALID
      requires 1 < |tc.data| == numFactors && InRangeWhereValid(system.factors, tc.data)
      requires n0 <= Coverage2(tc.data, uncovered2)
      modifies tc, this`testCaseT2Tuples
      ensures IsValidLevel(level) && tc.data == old(tc.data)[g := level]
      ensures Step2(system.factors, uncovered2, old(tc.data), g, level, n0, n)
      ensures InRangeWhereValid(system.factors, tc.data)
      ensures n <= Coverage2(tc.data, uncovered2)
    {
      n := n0;
      var current := tc.Get(g);
      level := current;
      if !IsValidLevel(current) {
        n, level := FillFactor2(system, tc, g, n0);
      }
    }

    /** The loop of GenerateT2TestCaseCandidate: each factor of the
        order, in turn, keeps or gets a level (FillNext2); the passes form
        a Run2 from the given row, with the report starting at 0. */
    method FillInOrder2(system: CS.ComponentSystem, tc: TC.TestCase, order: seq<FactorT>, anchor: FactorT)
        returns (n: nat, ghost rows: seq<seq<LevelT>>, ghost levels: seq<LevelT>, ghost ns: seq<nat>)
      requires system.Valid() && |system.factors| == numFactors > 1 && anchor < numFactors
      requires forall g :: 0 <= g < numFactors ==>
                 system.factors[g].levels.min <= system.factors[g].levels.max <= maxSystemLevel
      requires maxSystemLevel < LEVEL_INVALID
      requires |tc.data| == numFactors && IsValidLevel(tc.data[anchor])
      requires InRangeWhereValid(system.factors, tc.data)
      requires |order| == numFactors && forall i :: 0 <= i < |order| ==> order[i] < numFactors
      requires forall x :: 0 <= x < numFactors ==> x in order
      modifies tc, this`testCaseT2Tuples
      ensures |tc.data| == numFactors && tc.data[anchor] == old(tc.data)[anchor]
      ensures forall g :: 0 <= g < numFactors ==> system.factors[g].IsInRange(tc.data[g])
      ensures Run2(system.factors, uncovered2, order, |order|, rows, levels, ns)
      ensures rows[0] == old(tc.data) && rows[|order|] == tc.data && ns[0] == 0 && n == ns[|order|]
      ensures n <= Coverage2(tc.data, uncovered2)
    {
      n := 0;
      ghost var fs, u, best := system.factors, uncovered2, tc.data[anchor];
      rows, levels, ns := [tc.data], [], [0];
      var i := 0;
      while i < |order|
        invariant 0 <= i <= |order| && |tc.data| == numFactors
        invariant fs == system.factors && u == uncovered2
        invariant tc.data[anchor] == best
        invariant InRangeWhereValid(fs, tc.data) && FilledUpTo(tc.data, order, i)
        invariant Run2(fs, u, order, i, rows, levels, ns)
        invariant rows[0] == old(tc.data) && rows[i] == tc.data && ns[0] == 0 && ns[i] == n
        invariant n <= Coverage2(tc.data, u)
      {
        ghost var row, level := tc.data, 0;
        n, level := FillNext2(system, tc, order[i], n);
        FilledStep(row, order, i, level);
        RunExtend2(fs, u, order, i, rows, levels, ns, level, n);
        rows, levels, ns := rows + [tc.data], levels + [level], ns + [n];
        i := i + 1;
      }
      FilledAll(fs, tc.data, order);
    }

    /** Builds a 2-way candidate row for a suite of more than one factor:
        the level with the largest counter is placed at its factor, then
        every other factor, in a shuffled order, gets a level of its range
        (FillFactor2). With at most one factor nothing happens and 0 is
        returned. The ghost results record the run as for
        GenerateT3TestCaseCandidate. The result is 0 or the largest coverage
        some pass's scan reached, and it never exceeds the finished row's
        coverage. */
    method GenerateT2TestCaseCandidate(system: CS.ComponentSystem, tc: TC.TestCase)
        returns (n: nat, ghost order: seq<FactorT>, ghost rows: seq<seq<LevelT>>, ghost levels: seq<LevelT>,
                 ghost ns: seq<nat>)
      requires Valid() && system.Valid() && |system.factors| == numFactors && maxSystemLevel < LEVEL_INVALID
      requires forall g :: 0 <= g < numFactors ==>
                 system.factors[g].levels.min <= system.factors[g].levels.max <= maxSystemLevel
      requires numFactors > 1 ==> exists l :: 0 <= l < |levelCount| && levelCount[l] > 0
      requires forall l: Word :: l < |levelCount| && levelCount[l] > 0 ==> CS.InSomeFactor(system.factors, l)
      modifies tc, this`testCaseT2Tuples
      ensures numFactors <= 1 ==> n == 0 && tc.data == old(tc.data) && testCaseT2Tuples == old(testCaseT2Tuples)
      ensures numFactors > 1 ==> |tc.data| == numFactors
      ensures numFactors > 1 ==> forall g :: 0 <= g < numFactors ==> system.factors[g].IsInRange(tc.data[g])
      ensures numFactors > 1 ==> exists g :: 0 <= g < numFactors && IsMostCounted(levelCount, tc.data[g])
      ensures numFactors > 1 ==> |order| == numFactors && forall x :: 0 <= x < numFactors ==> x in order
      ensures numFactors > 1 ==>
                && Run2(system.factors, uncovered2, order, |order|, rows, levels, ns)
                && rows[|order|] == tc.data && ns[0] == 0 && n == ns[|order|]
      ensures numFactors > 1 ==> |rows[0]| == numFactors
      ensures numFactors > 1 ==>
                exists a :: (0 <= a < numFactors && IsMostCounted(levelCount, rows[0][a]) &&
                             forall g :: 0 <= g < numFactors && g != a ==> rows[0][g] == LEVEL_INVALID)
      ensures numFactors > 1 ==>
                n == 0 || exists i :: 0 <= i < |order| && ScanReported2(system.factors, uncovered2, order, rows, levels, i, n)
      ensures numFactors > 1 ==> n <= Coverage2(tc.data, uncovered2)
    {
      n, order, rows, levels, ns := 0, [], [tc.data], [], [0];
      if numFactors > 1 {
        var anchor, shuffled := PlaceAnchor(system, tc);
        ghost var lc := levelCount;
        order := shuffled;
        n, rows, levels, ns := FillInOrder2(system, tc, shuffled, anchor);
        assert IsMostCounted(lc, tc.data[anchor]);
        RunReport2(system.factors, uncovered2, order, rows, levels, ns, |order|);
      }
    }

    /** The all-minimum row: for a suite of more than one factor, each
        factor's minimum level (LEVEL_INVALID for a factor the system does
        not have); otherwise false with the row untouched. */
    method GenerateMinLevelCandidate(system: CS.ComponentSystem, tc: TC.TestCase) returns (ok: bool)
      requires system.Valid()
      modifies tc
      ensures ok <==> numFactors > 1
      ensures !ok ==> tc.data == old(tc.data)
      ensures ok ==> |tc.data| == numFactors && forall g :: 0 <= g < numFactors ==> tc.data[g] == system.GetMinLevel(g)
    {
      ok := false;
      if numFactors > 1 {
        tc.Init(numFactors);
        var g: FactorT := 0;
        while g < numFactors
          invariant 0 <= g <= numFactors && |tc.data| == numFactors
          invariant forall h :: 0 <= h < g ==> tc.data[h] == system.GetMinLevel(h)
        {
          tc.Set(g, system.GetMinLevel(g));
          g := g + 1;
        }
        ok := true;
      }
    }

    /** The all-maximum row, as GenerateMinLevelCandidate with each
        factor's maximum level. */
    method GenerateMaxLevelCandidate(system: CS.ComponentSystem, tc: TC.TestCase) returns (ok: bool)
      requires system.Valid()
      modifies tc
      ensures ok <==> numFactors > 1
      ensures !ok ==> tc.data == old(tc.data)
      ensures ok ==> |tc.data| == numFactors && forall g :: 0 <= g < numFactors ==> tc.data[g] == system.GetMaxLevel(g)
    {
      ok := false;
      if numFactors > 1 {
        tc.Init(numFactors);
        var g: FactorT := 0;
        while g < numFactors
          invariant 0 <= g <= numFactors && |tc.data| == numFactors
          invariant forall h :: 0 <= h < g ==> tc.data[h] == system.GetMaxLevel(h)
        {
          tc.Set(g, system.GetMaxLevel(g));
          g := g + 1;
        }
        ok := true;
      }
    }

    // -------------------------------------------------------------------
    // Handing the rows over

    /** Moves every row, in order, to the front of other and empties this
        suite; returns the size of the enlarged list. */
    method SpliceTestSuite(other: seq<seq<LevelT>>) returns (n: nat, other1: seq<seq<LevelT>>)
      modifies this`suite
      ensures other1 == old(suite) + other && suite == [] && n == |other1|
    {
      other1 := suite + other;
      suite := [];
      n := |other1|;
    }

    /** Empties the suite; returns its new size, 0. */
    method ClearTestSuite() returns (n: nat)
      modifies this`suite
      ensures suite == [] && n == 0
    {
      suite := [];
      n := |suite|;
    }
  }
}
