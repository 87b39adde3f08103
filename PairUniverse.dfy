// The 2-way universe: the sequence of level pairs GenerateUncoveredT2Tuples
// inserts. For every factor but the last, each of its levels is paired with
// every system level above the factor's maximum.

module PairUniverse {
  import opened CommonDef
  import opened MathUtility
  import opened Collections
  import opened ComponentSystem
  import opened Tuple
  import opened TripleUniverse

  /** The number of integers from lo up to upto. */
  function Span(lo: int, upto: int): nat
  {
    if upto < lo then 0 else upto - lo + 1
  }

  /** The innermost loop: (a, j) for j from lo up to upto. */
  function PairLane(a: LevelT, lo: int, upto: int): (ts: seq<T2>)
    requires 0 <= lo && upto < 0x1_0000
    decreases upto - lo
  {
    if upto < lo then [] else PairLane(a, lo, upto - 1) + [T2(a, upto)]
  }

  /** One more pair: the lane up to k is the lane up to k - 1 followed by
      (a, k). */
  lemma PairLaneNext(a: LevelT, lo: int, k: int)
    requires 0 <= lo <= k < 0x1_0000
    ensures PairLane(a, lo, k) == PairLane(a, lo, k - 1) + [T2(a, k)]
  {
  }

  /** The middle loop: for each level a of r up to upto, the lane pairing
      a with the levels above r.max up to top. */
  function PairSheet(r: Range, upto: int, top: int): (ts: seq<T2>)
    requires upto <= r.max && top < 0x1_0000
    decreases upto - r.min
  {
    if upto < r.min then [] else PairSheet(r, upto - 1, top) + PairLane(upto, r.max + 1, top)
  }

  /** One more lane: the sheet up to j is the sheet up to j - 1 followed by
      the lane of level j. */
  lemma PairSheetNext(r: Range, j: int, top: int)
    requires r.min <= j <= r.max && top < 0x1_0000
    ensures PairSheet(r, j, top) == PairSheet(r, j - 1, top) + PairLane(j, r.max + 1, top)
  {
  }

  /** The outer loop over the first m factors, top being the system's
      maximum level. */
  function Universe2(fs: seq<Factor>, m: nat, top: int): (ts: seq<T2>)
    requires m <= |fs| && top < 0x1_0000
  {
    if m == 0 then [] else Universe2(fs, m - 1, top) + PairSheet(fs[m - 1].levels, fs[m - 1].levels.max, top)
  }

  /** One more factor: its sheet follows the pairs of the factors before it. */
  lemma Universe2Next(fs: seq<Factor>, f: nat, top: int)
    requires f < |fs| && top < 0x1_0000
    ensures Universe2(fs, f + 1, top) == Universe2(fs, f, top) + PairSheet(fs[f].levels, fs[f].levels.max, top)
  {
  }

  /** Everything GenerateUncoveredT2Tuples inserts, in insertion order: the
      factor loop stops before the last factor (and does not run at all
      without factors). */
  function AllPairs(fs: seq<Factor>, top: int): seq<T2>
    requires top < 0x1_0000
  {
    Universe2(fs, if |fs| == 0 then 0 else |fs| - 1, top)
  }

  /** The pair takes its levels from two distinct factors, in increasing
      factor order. */
  ghost predicate Spans2(fs: seq<Factor>, t: T2)
  {
    exists i, j :: 0 <= i < j < |fs| && fs[i].IsInRange(t.a) && fs[j].IsInRange(t.b)
  }

  /** The pair starts at a level of factor f and ends above that factor's
      range, no higher than top. */
  ghost predicate AboveFactor(fs: seq<Factor>, f: int, top: int, t: T2)
    requires 0 <= f < |fs|
  {
    fs[f].IsInRange(t.a) && fs[f].levels.max < t.b <= top
  }

  lemma {:induction false} PairLaneFacts(a: LevelT, lo: int, upto: int)
    requires 0 <= lo && upto < 0x1_0000
    ensures |PairLane(a, lo, upto)| == Span(lo, upto)
    ensures NoDup(PairLane(a, lo, upto))
    ensures forall t :: t in PairLane(a, lo, upto) <==> t.a == a && lo <= t.b <= upto
    decreases upto - lo
  {
    if upto >= lo {
      PairLaneFacts(a, lo, upto - 1);
      NoDupAppend(PairLane(a, lo, upto - 1), [T2(a, upto)]);
    }
  }

  /** The pair t lies on the lane of a exactly when it starts at a and ends
      between lo and upto. */
  lemma {:induction false} PairLaneMembers(a: LevelT, lo: int, upto: int, t: T2)
    requires 0 <= lo && upto < 0x1_0000
    ensures t in PairLane(a, lo, upto) <==> t.a == a && lo <= t.b <= upto
    decreases upto - lo
  {
    if upto >= lo {
      PairLaneMembers(a, lo, upto - 1, t);
      assert t in PairLane(a, lo, upto) <==> t in PairLane(a, lo, upto - 1) || t == T2(a, upto);
    }
  }

  lemma {:induction false} PairSheetMembers(r: Range, upto: int, top: int)
    requires upto <= r.max && top < 0x1_0000
    ensures forall t :: t in PairSheet(r, upto, top) <==> r.min <= t.a <= upto && r.max < t.b <= top
    decreases upto - r.min
  {
    if upto >= r.min {
      var init, lane := PairSheet(r, upto - 1, top), PairLane(upto, r.max + 1, top);
      PairSheetMembers(r, upto - 1, top);
      PairSheetNext(r, upto, top);
      forall t ensures t in PairSheet(r, upto, top) <==> r.min <= t.a <= upto && r.max < t.b <= top {
        PairLaneMembers(upto, r.max + 1, top, t);
        assert t in PairSheet(r, upto, top) <==> t in init || t in lane;
      }
    }
  }

  lemma {:induction false} PairSheetSize(r: Range, upto: int, top: int)
    requires upto <= r.max && top < 0x1_0000
    ensures |PairSheet(r, upto, top)| == Width(r, upto) * Span(r.max + 1, top)
    decreases upto - r.min
  {
    if upto >= r.min {
      PairSheetSize(r, upto - 1, top);
      PairLaneFacts(upto, r.max + 1, top);
      assert Width(r, upto) == Width(r, upto - 1) + 1;
      NextMultiple(Width(r, upto - 1), Span(r.max + 1, top));
    }
  }

  lemma {:induction false} PairSheetNoDup(r: Range, upto: int, top: int)
    requires upto <= r.max && top < 0x1_0000
    ensures NoDup(PairSheet(r, upto, top))
    decreases upto - r.min
  {
    if upto >= r.min {
      var init, lane := PairSheet(r, upto - 1, top), PairLane(upto, r.max + 1, top);
      PairSheetNoDup(r, upto - 1, top);
      PairSheetMembers(r, upto - 1, top);
      PairLaneFacts(upto, r.max + 1, top);
      assert forall t :: t in init ==> t.a < upto;
      NoDupAppend(init, lane);
    }
  }

  /** A pair sheet has Width * Span distinct pairs: the levels of r up to
      upto, each with every level above r.max up to top. */
  lemma PairSheetFacts(r: Range, upto: int, top: int)
    requires upto <= r.max && top < 0x1_0000
    ensures |PairSheet(r, upto, top)| == Width(r, upto) * Span(r.max + 1, top)
    ensures NoDup(PairSheet(r, upto, top))
    ensures forall t :: t in PairSheet(r, upto, top) <==> r.min <= t.a <= upto && r.max < t.b <= top
  {
    PairSheetSize(r, upto, top);
    PairSheetNoDup(r, upto, top);
    PairSheetMembers(r, upto, top);
  }

  lemma {:induction false} Universe2Members(fs: seq<Factor>, m: nat, top: int, t: T2)
    requires m <= |fs| && top < 0x1_0000
    ensures t in Universe2(fs, m, top) <==> exists f :: 0 <= f < m && AboveFactor(fs, f, top, t)
    decreases m
  {
    if m > 0 {
      var p := m - 1;
      assert p + 1 == m;
      var r := fs[p].levels;
      var init, sheet := Universe2(fs, p, top), PairSheet(r, r.max, top);
      Universe2Members(fs, p, top, t);
      PairSheetFacts(r, r.max, top);
      assert Universe2(fs, m, top) == init + sheet;
      if t in init + sheet {
        if t in init {
          var f :| 0 <= f < p && AboveFactor(fs, f, top, t);
          assert 0 <= f < m && AboveFactor(fs, f, top, t);
        } else {
          assert t in sheet;
          assert AboveFactor(fs, p, top, t);
        }
      }
      if exists f :: 0 <= f < m && AboveFactor(fs, f, top, t) {
        var f :| 0 <= f < m && AboveFactor(fs, f, top, t);
        if f < p {
          assert t in init;
        } else {
          assert t in sheet;
        }
      }
    }
  }

  /** The universe holds exactly the pairs whose first level lies in some
      factor but the last and whose second level lies above that factor,
      up to top. */
  lemma AllPairsMembers(fs: seq<Factor>, top: int, t: T2)
    requires top < 0x1_0000
    ensures t in AllPairs(fs, top) <==> exists f :: 0 <= f < |fs| - 1 && AboveFactor(fs, f, top, t)
  {
    Universe2Members(fs, if |fs| == 0 then 0 else |fs| - 1, top, t);
  }

  /** With ascending factor ranges no pair is inserted twice: pairs from
      different factors differ in their first level. */
  lemma {:induction false} Universe2NoDup(fs: seq<Factor>, m: nat, top: int)
    requires m <= |fs| && top < 0x1_0000 && Ascending(fs)
    ensures NoDup(Universe2(fs, m, top))
    decreases m
  {
    if m > 0 {
      var p := m - 1;
      assert p + 1 == m;
      var r := fs[p].levels;
      var init, sheet := Universe2(fs, p, top), PairSheet(r, r.max, top);
      Universe2NoDup(fs, p, top);
      PairSheetFacts(r, r.max, top);
      EarlierPairsOutsideSheet(fs, p, top);
      NoDupAppend(init, sheet);
      Universe2Next(fs, p, top);
    }
  }

  /** The pairs of the factors before p never start in factor p. */
  lemma EarlierPairsOutsideSheet(fs: seq<Factor>, p: nat, top: int)
    requires p < |fs| && top < 0x1_0000 && Ascending(fs)
    ensures forall t :: t in Universe2(fs, p, top) ==> t !in PairSheet(fs[p].levels, fs[p].levels.max, top)
  {
    var r := fs[p].levels;
    PairSheetFacts(r, r.max, top);
    forall t | t in Universe2(fs, p, top) ensures t !in PairSheet(r, r.max, top) {
      Universe2Members(fs, p, top, t);
      var f :| 0 <= f < p && AboveFactor(fs, f, top, t);
      DisjointFactors(fs, f, p, t.a);
    }
  }

  lemma AllPairsNoDup(fs: seq<Factor>, top: int)
    requires top < 0x1_0000 && Ascending(fs)
    ensures NoDup(AllPairs(fs, top))
  {
    Universe2NoDup(fs, if |fs| == 0 then 0 else |fs| - 1, top);
  }

  // ---------------------------------------------------------------------
  // The uniform layout

  /** In the uniform layout with top the last factor's maximum level
      (k * v - 1), "above factor f up to top" means "in a later factor":
      the universe holds exactly the pairs spanning two factors. */
  lemma UniformPairsMembers(k: nat, v: Word, t: T2)
    requires 0 < v && k * v <= 0x1_0000
    ensures t in AllPairs(UniformFactors(k, v), k * v - 1) <==> Spans2(UniformFactors(k, v), t)
  {
    var fs, top := UniformFactors(k, v), k * v - 1;
    AllPairsMembers(fs, top, t);
    if t in AllPairs(fs, top) {
      var f :| 0 <= f < k - 1 && AboveFactor(fs, f, top, t);
      AboveFactorSpans(k, v, f, t);
    }
    if Spans2(fs, t) {
      var i, j :| 0 <= i < j < k && fs[i].IsInRange(t.a) && fs[j].IsInRange(t.b);
      SpansAboveFactor(k, v, i, j, t);
    }
  }

  /** A pair above factor f, up to the top level, ends in a later factor. */
  lemma AboveFactorSpans(k: nat, v: Word, f: int, t: T2)
    requires 0 < v && k * v <= 0x1_0000 && 0 <= f < k
    requires AboveFactor(UniformFactors(k, v), f, k * v - 1, t)
    ensures Spans2(UniformFactors(k, v), t)
  {
    var fs := UniformFactors(k, v);
    assert fs[f] == UniformFactor(f, v);
    var j := UniformOwner(k, v, t.b);
    if j <= f {
      if j < f {
        UniformLayout(k, v, j, f);
      }
      assert false;
    }
    assert fs[f].IsInRange(t.a) && fs[j].IsInRange(t.b);
  }

  /** A pair spanning factors i < j lies above factor i, up to the top
      level. */
  lemma SpansAboveFactor(k: nat, v: Word, i: int, j: int, t: T2)
    requires 0 < v && k * v <= 0x1_0000 && 0 <= i < j < k
    requires UniformFactor(i, v).IsInRange(t.a) && UniformFactor(j, v).IsInRange(t.b)
    ensures AboveFactor(UniformFactors(k, v), i, k * v - 1, t)
  {
    var fs := UniformFactors(k, v);
    assert fs[i] == UniformFactor(i, v);
    UniformLayout(k, v, i, j);
    UniformBounds(k, v, j);
    MulMono(j + 1, k, v);
    NextMultiple(j, v);
    assert t.b <= j * v + v - 1 <= k * v - 1;
  }

  lemma Regroup(v: int, w: int)
    ensures v * (w * v) == w * (v * v)
  {
  }

  /** Factor f of the uniform layout pairs each of its v levels with the
      (k - 1 - f) * v levels of the later factors. */
  lemma UniformSheetSize(k: nat, v: Word, f: nat)
    requires 0 < v && k * v <= 0x1_0000 && f < k
    ensures var r := UniformFactor(f, v).levels;
            |PairSheet(r, r.max, k * v - 1)| == (k - 1 - f) * (v * v)
  {
    var r := UniformFactor(f, v).levels;
    PairSheetFacts(r, r.max, k * v - 1);
    UniformBounds(k, v, f);
    NextMultiple(f, v);
    NextMultiple(k - 1 - f, v);
    ProductFits(f, k, v);
    assert Span(r.max + 1, k * v - 1) == (k - 1 - f) * v;
    Regroup(v, k - 1 - f);
  }

  /** The first m factors of the uniform layout contribute
      (C(k, 2) - C(k - m, 2)) * v^2 pairs. */
  lemma {:induction false} UniformUniverse2Size(k: nat, v: Word, m: nat)
    requires 0 < v && k * v <= 0x1_0000 && m < k
    ensures |Universe2(UniformFactors(k, v), m, k * v - 1)| == (Binomial(k, 2) - Binomial(k - m, 2)) * (v * v)
    decreases m
  {
    if m > 0 {
      var p := m - 1;
      assert p + 1 == m;
      var fs, top, w := UniformFactors(k, v), k * v - 1, v * v;
      var r := fs[p].levels;
      assert r == UniformFactor(p, v).levels;
      Universe2Next(fs, p, top);
      var init, sheet := Universe2(fs, p, top), PairSheet(r, r.max, top);
      assert |Universe2(fs, m, top)| == |init| + |sheet|;
      UniformUniverse2Size(k, v, p);
      UniformSheetSize(k, v, p);
      var n := k - p;
      assert n - 1 == k - m;
      assert Binomial(n, 2) == Binomial(n - 1, 1) + Binomial(n - 1, 2);
      BinomialOne(n - 1);
      SumStep(|Universe2(fs, m, top)|, |init|, |sheet|, Binomial(k, 2), Binomial(n, 2), Binomial(k - m, 2), n - 1, w);
    }
  }

  /** The size bookkeeping of one more sheet: a + b pairs, the first a
      matching C(k, 2) - C(n, 2) blocks and b the next d blocks. */
  lemma SumStep(total: int, a: int, b: int, bk: int, bn: int, bn1: int, d: int, w: int)
    requires total == a + b && a == (bk - bn) * w && b == d * w && bn == d + bn1
    ensures total == (bk - bn1) * w
  {
    assert (bk - bn) * w + d * w == (bk - bn1) * w;
  }

  lemma {:induction false} BinomialOne(n: nat)
    ensures Binomial(n, 1) == n
  {
    if n > 0 {
      BinomialOne(n - 1);
      assert Binomial(n - 1, 0) == 1;
    }
  }

  /** The uniform layout of k factors with v levels each has C(k, 2) * v^2
      distinct pairs. */
  lemma UniformPairCount(k: nat, v: Word)
    requires 0 < k && 0 < v && k * v <= 0x1_0000
    ensures |Elems(AllPairs(UniformFactors(k, v), k * v - 1))| == Binomial(k, 2) * (v * v)
  {
    var fs := UniformFactors(k, v);
    forall i, j | 0 <= i < j < k ensures fs[i].levels.max < fs[j].levels.min {
      UniformLayout(k, v, i, j);
    }
    AllPairsNoDup(fs, k * v - 1);
    DistinctCard(AllPairs(fs, k * v - 1));
    UniformUniverse2Size(k, v, k - 1);
    assert Binomial(1, 2) == Binomial(0, 1) + Binomial(0, 2);
  }
}
