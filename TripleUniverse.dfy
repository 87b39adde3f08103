// The 3-way universe: the sequence of level triples GenerateUncoveredT3Tuples
// inserts, one Cartesian product of three factor ranges per increasing
// factor triple, in the order of its nested loops.

module TripleUniverse {
  import opened CommonDef
  import opened MathUtility
  import opened Combination
  import opened Collections
  import opened ComponentSystem
  import opened Tuple

  /** The number of levels from r.min up to upto. */
  function Width(r: Range, upto: int): nat
  {
    if upto < r.min then 0 else upto - r.min + 1
  }

  /** The innermost loop: (a, b, j) for j from r.min up to upto. */
  function Lane(a: LevelT, b: LevelT, r: Range, upto: int): (ts: seq<T3>)
    requires upto <= r.max
    decreases upto - r.min
  {
    if upto < r.min then [] else Lane(a, b, r, upto - 1) + [T3(a, b, upto)]
  }

  /** The middle loop: the lanes for b from r1.min up to upto. */
  function Sheet(a: LevelT, r1: Range, upto: int, r2: Range): (ts: seq<T3>)
    requires upto <= r1.max
    decreases upto - r1.min
  {
    if upto < r1.min then [] else Sheet(a, r1, upto - 1, r2) + Lane(a, upto, r2, r2.max)
  }

  /** The outer loop: the sheets for a from r0.min up to upto. */
  function Block(r0: Range, upto: int, r1: Range, r2: Range): (ts: seq<T3>)
    requires upto <= r0.max
    decreases upto - r0.min
  {
    if upto < r0.min then [] else Block(r0, upto - 1, r1, r2) + Sheet(upto, r1, r1.max, r2)
  }

  /** All three loops: the product r0 x r1 x r2 in lexicographic order. */
  function Cube(r0: Range, r1: Range, r2: Range): seq<T3>
  {
    Block(r0, r0.max, r1, r2)
  }

  ghost predicate InBox(t: T3, r0: Range, r1: Range, r2: Range)
  {
    r0.IsInRange(t.a) && r1.IsInRange(t.b) && r2.IsInRange(t.c)
  }

  lemma {:induction false} LaneFacts(a: LevelT, b: LevelT, r: Range, upto: int)
    requires upto <= r.max
    ensures |Lane(a, b, r, upto)| == Width(r, upto)
    ensures NoDup(Lane(a, b, r, upto))
    ensures forall t :: t in Lane(a, b, r, upto) <==> t.a == a && t.b == b && r.min <= t.c <= upto
    decreases upto - r.min
  {
    if upto >= r.min {
      var init := Lane(a, b, r, upto - 1);
      LaneFacts(a, b, r, upto - 1);
      NoDupAppend(init, [T3(a, b, upto)]);
    }
  }

  lemma {:induction false} SheetFacts(a: LevelT, r1: Range, upto: int, r2: Range)
    requires upto <= r1.max
    ensures |Sheet(a, r1, upto, r2)| == Width(r1, upto) * Width(r2, r2.max)
    ensures NoDup(Sheet(a, r1, upto, r2))
    ensures forall t :: t in Sheet(a, r1, upto, r2) <==>
              t.a == a && r1.min <= t.b <= upto && r2.IsInRange(t.c)
    decreases upto - r1.min
  {
    if upto >= r1.min {
      var init, lane := Sheet(a, r1, upto - 1, r2), Lane(a, upto, r2, r2.max);
      SheetFacts(a, r1, upto - 1, r2);
      LaneFacts(a, upto, r2, r2.max);
      assert forall t :: t in init ==> t.b < upto;
      NoDupAppend(init, lane);
      assert Width(r1, upto) == Width(r1, upto - 1) + 1;
      NextMultiple(Width(r1, upto - 1), Width(r2, r2.max));
    }
  }

  lemma {:induction false} BlockFacts(r0: Range, upto: int, r1: Range, r2: Range)
    requires upto <= r0.max
    ensures |Block(r0, upto, r1, r2)| == Width(r0, upto) * (Width(r1, r1.max) * Width(r2, r2.max))
    ensures NoDup(Block(r0, upto, r1, r2))
    ensures forall t :: t in Block(r0, upto, r1, r2) <==>
              r0.min <= t.a <= upto && r1.IsInRange(t.b) && r2.IsInRange(t.c)
    decreases upto - r0.min
  {
    if upto >= r0.min {
      var init, sheet := Block(r0, upto - 1, r1, r2), Sheet(upto, r1, r1.max, r2);
      BlockFacts(r0, upto - 1, r1, r2);
      SheetFacts(upto, r1, r1.max, r2);
      NoDupAppend(init, sheet);
      assert forall t :: t in init ==> t.a < upto;
      assert Width(r0, upto) == Width(r0, upto - 1) + 1;
      NextMultiple(Width(r0, upto - 1), Width(r1, r1.max) * Width(r2, r2.max));
    }
  }

  /** The product holds exactly the triples inside the three ranges, each
      once, and has as many as the three widths multiplied. */
  lemma CubeFacts(r0: Range, r1: Range, r2: Range)
    ensures |Cube(r0, r1, r2)| == Width(r0, r0.max) * (Width(r1, r1.max) * Width(r2, r2.max))
    ensures NoDup(Cube(r0, r1, r2))
    ensures forall t :: t in Cube(r0, r1, r2) <==> InBox(t, r0, r1, r2)
  {
    BlockFacts(r0, r0.max, r1, r2);
  }

  // ---------------------------------------------------------------------
  // The walk over factor triples

  /** Each entry is an increasing triple of factor indices below n. */
  ghost predicate ColumnTriples(cols: seq<seq<int>>, n: nat)
  {
    forall i :: 0 <= i < |cols| ==> |cols[i]| == 3 && IsCombination(cols[i], n)
  }

  lemma ColumnTriplesSplit(s: seq<seq<int>>, t: seq<seq<int>>, n: nat)
    requires ColumnTriples(s + t, n)
    ensures ColumnTriples(s, n) && ColumnTriples(t, n)
  {
    assert forall i :: 0 <= i < |s| ==> s[i] == (s + t)[i];
    assert forall i :: 0 <= i < |t| ==> t[i] == (s + t)[|s| + i];
  }

  /** The product of the ranges of the factors in column triple c. */
  function CubeAt(fs: seq<Factor>, c: seq<int>): seq<T3>
    requires |c| == 3 && forall i :: 0 <= i < 3 ==> 0 <= c[i] < |fs|
  {
    Cube(fs[c[0]].levels, fs[c[1]].levels, fs[c[2]].levels)
  }

  ghost predicate InCubeAt(fs: seq<Factor>, c: seq<int>, t: T3)
    requires |c| == 3 && forall i :: 0 <= i < 3 ==> 0 <= c[i] < |fs|
  {
    InBox(t, fs[c[0]].levels, fs[c[1]].levels, fs[c[2]].levels)
  }

  /** The walk NextCombination takes from [0, 1, 2] visits column
      triples only. */
  lemma AllColumns(k: nat)
    requires 3 <= k
    ensures IsCombination(First(3), k)
    ensures ColumnTriples(LexFrom(First(3), k), k)
  {
    EnumerationIsComplete(k, 3);
    LexFromMembers(First(3), k);
  }

  /** The products for the column triples of cols, in order. */
  ghost function Universe3(fs: seq<Factor>, cols: seq<seq<int>>): seq<T3>
    requires ColumnTriples(cols, |fs|)
  {
    if cols == [] then [] else CubeAt(fs, cols[0]) + Universe3(fs, cols[1..])
  }

  /** Everything GenerateUncoveredT3Tuples inserts, in insertion order: the
      products for every factor triple NextCombination visits from
      [0, 1, 2]. */
  ghost function AllTriples(fs: seq<Factor>): seq<T3>
    requires |fs| >= 3
  {
    EnumerationIsComplete(|fs|, 3);
    LexFromMembers(First(3), |fs|);
    Universe3(fs, LexFrom(First(3), |fs|))
  }

  /** The triple takes its three levels from three distinct factors, in
      increasing factor order. */
  ghost predicate Spans3(fs: seq<Factor>, t: T3)
  {
    exists i, j, m :: 0 <= i < j < m < |fs| && fs[i].IsInRange(t.a) && fs[j].IsInRange(t.b)
                      && fs[m].IsInRange(t.c)
  }

  /** Factor ranges in ascending order without overlap, as the uniform
      layout has them. */
  ghost predicate Ascending(fs: seq<Factor>)
  {
    forall i, j :: 0 <= i < j < |fs| ==> fs[i].levels.max < fs[j].levels.min
  }

  /** Visiting one more column triple appends its product. */
  lemma {:induction false} Universe3Append(fs: seq<Factor>, cols: seq<seq<int>>, c: seq<int>)
    requires ColumnTriples(cols + [c], |fs|)
    ensures ColumnTriples(cols, |fs|)
    ensures |c| == 3 && IsCombination(c, |fs|)
    ensures Universe3(fs, cols + [c]) == Universe3(fs, cols) + CubeAt(fs, c)
    decreases |cols|
  {
    assert forall i :: 0 <= i < |cols| ==> cols[i] == (cols + [c])[i];
    assert (cols + [c])[|cols|] == c;
    if cols == [] {
      assert [c][1..] == [];
    } else {
      assert (cols + [c])[1..] == cols[1..] + [c];
      Universe3Append(fs, cols[1..], c);
    }
  }

  lemma {:induction false} Universe3Members(fs: seq<Factor>, cols: seq<seq<int>>, t: T3)
    requires ColumnTriples(cols, |fs|)
    ensures t in Universe3(fs, cols) <==> exists i :: 0 <= i < |cols| && InCubeAt(fs, cols[i], t)
    decreases |cols|
  {
    if cols != [] {
      Universe3Members(fs, cols[1..], t);
      CubeFacts(fs[cols[0][0]].levels, fs[cols[0][1]].levels, fs[cols[0][2]].levels);
      if exists i :: 0 <= i < |cols| && InCubeAt(fs, cols[i], t) {
        var i :| 0 <= i < |cols| && InCubeAt(fs, cols[i], t);
        if i > 0 {
          assert cols[1..][i - 1] == cols[i];
        }
      }
      if t in Universe3(fs, cols[1..]) {
        var i :| 0 <= i < |cols[1..]| && InCubeAt(fs, cols[1..][i], t);
        assert cols[1..][i] == cols[i + 1];
      }
    }
  }

  /** The universe holds exactly the triples spanning three factors. */
  lemma AllTriplesMembers(fs: seq<Factor>, t: T3)
    requires |fs| >= 3
    ensures t in AllTriples(fs) <==> Spans3(fs, t)
  {
    if t in AllTriples(fs) {
      MemberSpans(fs, t);
    }
    if Spans3(fs, t) {
      SpansMember(fs, t);
    }
  }

  lemma MemberSpans(fs: seq<Factor>, t: T3)
    requires |fs| >= 3 && t in AllTriples(fs)
    ensures Spans3(fs, t)
  {
    var k := |fs|;
    EnumerationIsComplete(k, 3);
    LexFromMembers(First(3), k);
    var e := LexFrom(First(3), k);
    Universe3Members(fs, e, t);
    var i :| 0 <= i < |e| && InCubeAt(fs, e[i], t);
    var c := e[i];
    assert c[0] < c[1] < c[2];
    assert fs[c[0]].IsInRange(t.a) && fs[c[1]].IsInRange(t.b) && fs[c[2]].IsInRange(t.c);
  }

  lemma SpansMember(fs: seq<Factor>, t: T3)
    requires |fs| >= 3 && Spans3(fs, t)
    ensures t in AllTriples(fs)
  {
    var k := |fs|;
    var i, j, m :| 0 <= i < j < m < k && fs[i].IsInRange(t.a) && fs[j].IsInRange(t.b)
                   && fs[m].IsInRange(t.c);
    var c := [i, j, m];
    TripleIsCombination(i, j, m, k);
    var e, p := ColumnListed(k, c);
    assert InCubeAt(fs, e[p], t);
    Universe3Members(fs, e, t);
  }

  /** Every increasing factor triple is visited by the enumeration. */
  lemma ColumnListed(k: nat, c: seq<int>) returns (e: seq<seq<int>>, p: nat)
    requires 3 <= k && |c| == 3 && IsCombination(c, k)
    ensures e == LexFrom(First(3), k) && ColumnTriples(e, k)
    ensures p < |e| && e[p] == c
  {
    EnumerationIsComplete(k, 3);
    LexFromMembers(First(3), k);
    e := LexFrom(First(3), k);
    CombosMembers(k, 3, c);
    p :| 0 <= p < |e| && e[p] == c;
  }

  lemma DisjointFactors(fs: seq<Factor>, f: int, g: int, l: Word)
    requires Ascending(fs) && 0 <= f < |fs| && 0 <= g < |fs| && f != g
    ensures !(fs[f].IsInRange(l) && fs[g].IsInRange(l))
  {
  }

  /** Distinct factor triples have disjoint products. */
  lemma CubeDisjoint(fs: seq<Factor>, c: seq<int>, d: seq<int>, t: T3)
    requires Ascending(fs) && c != d
    requires |c| == 3 && forall i :: 0 <= i < 3 ==> 0 <= c[i] < |fs|
    requires |d| == 3 && forall i :: 0 <= i < 3 ==> 0 <= d[i] < |fs|
    requires InCubeAt(fs, c, t)
    ensures !InCubeAt(fs, d, t)
  {
    if c[0] != d[0] {
      DisjointFactors(fs, c[0], d[0], t.a);
    } else if c[1] != d[1] {
      DisjointFactors(fs, c[1], d[1], t.b);
    } else {
      assert c == [c[0], c[1], c[2]] && d == [d[0], d[1], d[2]];
      DisjointFactors(fs, c[2], d[2], t.c);
    }
  }

  lemma {:induction false} Universe3NoDup(fs: seq<Factor>, cols: seq<seq<int>>)
    requires ColumnTriples(cols, |fs|) && NoDup(cols) && Ascending(fs)
    ensures NoDup(Universe3(fs, cols))
    decreases |cols|
  {
    if cols != [] {
      var c, rest := cols[0], cols[1..];
      assert NoDup(rest) by {
        forall i, j | 0 <= i < j < |rest| ensures rest[i] != rest[j] {
          assert rest[i] == cols[i + 1] && rest[j] == cols[j + 1];
        }
      }
      Universe3NoDup(fs, rest);
      CubeFacts(fs[c[0]].levels, fs[c[1]].levels, fs[c[2]].levels);
      forall t | t in CubeAt(fs, c)
        ensures t !in Universe3(fs, rest)
      {
        Universe3Members(fs, rest, t);
        forall i | 0 <= i < |rest| ensures !InCubeAt(fs, rest[i], t) {
          assert rest[i] == cols[i + 1];
          CubeDisjoint(fs, c, rest[i], t);
        }
      }
      NoDupAppend(CubeAt(fs, c), Universe3(fs, rest));
    }
  }

  /** With ascending factor ranges no triple is inserted twice. */
  lemma AllTriplesNoDup(fs: seq<Factor>)
    requires |fs| >= 3 && Ascending(fs)
    ensures NoDup(AllTriples(fs))
  {
    var k := |fs|;
    EnumerationIsComplete(k, 3);
    LexFromMembers(First(3), k);
    LexFromIncreasing(First(3), k);
    var e := LexFrom(First(3), k);
    forall i, j | 0 <= i < j < |e| ensures e[i] != e[j] {
      LexAsymmetric(e[i], e[j]);
    }
    Universe3NoDup(fs, e);
  }

  /** With every factor holding v levels, each factor triple contributes
      v^3 triples. */
  lemma {:induction false} Universe3Size(fs: seq<Factor>, cols: seq<seq<int>>, v: nat)
    requires ColumnTriples(cols, |fs|)
    requires forall f :: 0 <= f < |fs| ==> Width(fs[f].levels, fs[f].levels.max) == v
    ensures |Universe3(fs, cols)| == |cols| * (v * (v * v))
    decreases |cols|
  {
    if cols != [] {
      var c := cols[0];
      Universe3Size(fs, cols[1..], v);
      CubeFacts(fs[c[0]].levels, fs[c[1]].levels, fs[c[2]].levels);
      assert |Universe3(fs, cols)| == v * (v * v) + (|cols| - 1) * (v * (v * v));
    }
  }

  /** The uniform layout of k factors with v levels each (k * v within 16
      bits) has C(k, 3) * v^3 distinct triples. */
  lemma UniformTripleCount(k: nat, v: Word)
    requires 3 <= k && 0 < v && k * v <= 0x1_0000
    ensures |Elems(AllTriples(UniformFactors(k, v)))| == Binomial(k, 3) * (v * (v * v))
  {
    var fs := UniformFactors(k, v);
    forall i, j | 0 <= i < j < k ensures fs[i].levels.max < fs[j].levels.min {
      UniformLayout(k, v, i, j);
    }
    forall f | 0 <= f < k ensures Width(fs[f].levels, fs[f].levels.max) == v {
      UniformBounds(k, v, f);
    }
    AllTriplesNoDup(fs);
    DistinctCard(AllTriples(fs));
    EnumerationIsComplete(k, 3);
    LexFromMembers(First(3), k);
    Universe3Size(fs, LexFrom(First(3), k), v);
  }
}
