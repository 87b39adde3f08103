// The tuples a test case shows: the level triples on its increasing
// column triples and the level pairs on its increasing column pairs, as
// GenerateTestCaseT3Tuples and GenerateTestCaseT2Tuples list them.

module RowTuples {
  import opened CommonDef
  import opened Combination
  import opened Collections
  import opened Tuple
  import opened TestCase
  import opened TripleUniverse

  // ---------------------------------------------------------------------
  // Valid entries

  lemma {:induction false} CountValidPrefix(row: seq<LevelT>, n: nat)
    requires n <= |row|
    ensures CountValid(row[..n]) <= CountValid(row)
    decreases |row|
  {
    if n < |row| {
      var init := row[..|row| - 1];
      assert init[..n] == row[..n];
      CountValidPrefix(init, n);
    } else {
      assert row[..n] == row;
    }
  }

  lemma CountValidStep(row: seq<LevelT>, p: nat)
    requires p < |row|
    ensures CountValid(row[..p + 1]) == CountValid(row[..p]) + (if IsValidLevel(row[p]) then 1 else 0)
  {
    assert row[..p + 1][..p] == row[..p];
  }

  /** A longer prefix has at least as many valid entries. */
  lemma PrefixMono(row: seq<LevelT>, a: nat, b: nat)
    requires a <= b <= |row|
    ensures CountValid(row[..a]) <= CountValid(row[..b])
  {
    assert row[..b][..a] == row[..a];
    CountValidPrefix(row[..b], a);
  }

  /** Three valid entries make the row count at least three. */
  lemma ThreeValid(row: seq<LevelT>, i: nat, j: nat, m: nat)
    requires i < j < m < |row|
    requires IsValidLevel(row[i]) && IsValidLevel(row[j]) && IsValidLevel(row[m])
    ensures CountValid(row) >= 3
  {
    CountValidStep(row, i);
    assert CountValid(row[..i + 1]) >= 1;
    PrefixMono(row, i + 1, j);
    CountValidStep(row, j);
    assert CountValid(row[..j + 1]) >= 2;
    PrefixMono(row, j + 1, m);
    CountValidStep(row, m);
    assert CountValid(row[..m + 1]) >= 3;
    CountValidPrefix(row, m + 1);
  }

  /** row2 keeps every valid entry of row and may fill in others. */
  ghost predicate Extends(row: seq<LevelT>, row2: seq<LevelT>)
  {
    |row| == |row2| && forall i :: 0 <= i < |row| && IsValidLevel(row[i]) ==> row2[i] == row[i]
  }

  /** Writing a level into an unassigned entry extends the row. */
  lemma FillExtends(row: seq<LevelT>, f: nat, l: LevelT)
    requires f < |row| && row[f] == LEVEL_INVALID
    ensures Extends(row, row[f := l])
  {
  }

  lemma ExtendsTransitive(r1: seq<LevelT>, r2: seq<LevelT>, r3: seq<LevelT>)
    requires Extends(r1, r2) && Extends(r2, r3)
    ensures Extends(r1, r3)
  {
  }

  lemma {:induction false} ExtendsCountValid(row: seq<LevelT>, row2: seq<LevelT>)
    requires Extends(row, row2)
    ensures CountValid(row) <= CountValid(row2)
    decreases |row|
  {
    if row != [] {
      var n := |row| - 1;
      assert Extends(row[..n], row2[..n]);
      ExtendsCountValid(row[..n], row2[..n]);
    }
  }

  // ---------------------------------------------------------------------
  // Triples

  /** The triple the row shows on column triple c: none unless all three
      entries are valid. */
  function ColumnTriple(row: seq<LevelT>, c: seq<int>): seq<T3>
    requires |c| == 3 && forall i :: 0 <= i < 3 ==> 0 <= c[i] < |row|
  {
    if IsValidLevel(row[c[0]]) && IsValidLevel(row[c[1]]) && IsValidLevel(row[c[2]])
    then [T3(row[c[0]], row[c[1]], row[c[2]])]
    else []
  }

  /** The triples on the column triples of cols, in order. */
  ghost function TriplesOf(row: seq<LevelT>, cols: seq<seq<int>>, k: nat): seq<T3>
    requires ColumnTriples(cols, k) && k <= |row|
  {
    if cols == [] then [] else ColumnTriple(row, cols[0]) + TriplesOf(row, cols[1..], k)
  }

  /** Visiting one more column triple appends the triple it shows. */
  lemma {:induction false} TriplesOfAppend(row: seq<LevelT>, cols: seq<seq<int>>, c: seq<int>, k: nat)
    requires ColumnTriples(cols + [c], k) && k <= |row|
    ensures ColumnTriples(cols, k)
    ensures |c| == 3 && IsCombination(c, k)
    ensures TriplesOf(row, cols + [c], k) == TriplesOf(row, cols, k) + ColumnTriple(row, c)
    decreases |cols|
  {
    assert forall i :: 0 <= i < |cols| ==> cols[i] == (cols + [c])[i];
    assert (cols + [c])[|cols|] == c;
    if cols == [] {
      assert [c][1..] == [];
    } else {
      assert (cols + [c])[1..] == cols[1..] + [c];
      TriplesOfAppend(row, cols[1..], c, k);
    }
  }

  /** What GenerateTestCaseT3Tuples lists for a row of a k-factor suite:
      nothing unless three entries are valid, otherwise the triple of every
      column triple NextCombination visits whose entries are all valid. */
  ghost function RowTriples(row: seq<LevelT>, k: nat): seq<T3>
    requires CountValid(row) >= 3 ==> 3 <= k <= |row|
  {
    if CountValid(row) >= 3 then
      EnumerationIsComplete(k, 3);
      LexFromMembers(First(3), k);
      TriplesOf(row, LexFrom(First(3), k), k)
    else []
  }

  /** The row shows t on some increasing column triple below k. */
  ghost predicate Shows3(row: seq<LevelT>, k: nat, t: T3)
    requires k <= |row|
  {
    exists i, j, m :: 0 <= i < j < m < k
      && IsValidLevel(row[i]) && IsValidLevel(row[j]) && IsValidLevel(row[m])
      && t == T3(row[i], row[j], row[m])
  }

  lemma {:induction false} TriplesOfMembers(row: seq<LevelT>, cols: seq<seq<int>>, k: nat, t: T3)
    requires ColumnTriples(cols, k) && k <= |row|
    ensures t in TriplesOf(row, cols, k) <==> exists i :: 0 <= i < |cols| && t in ColumnTriple(row, cols[i])
    decreases |cols|
  {
    if cols != [] {
      TriplesOfMembers(row, cols[1..], k, t);
      if exists i :: 0 <= i < |cols| && t in ColumnTriple(row, cols[i]) {
        var i :| 0 <= i < |cols| && t in ColumnTriple(row, cols[i]);
        if i > 0 {
          assert cols[1..][i - 1] == cols[i];
        }
      }
      if t in TriplesOf(row, cols[1..], k) {
        var i :| 0 <= i < |cols[1..]| && t in ColumnTriple(row, cols[1..][i]);
        assert cols[1..][i] == cols[i + 1];
      }
    }
  }

  /** A row's triples are exactly the triples it shows on increasing
      column triples. */
  lemma RowTriplesMembers(row: seq<LevelT>, k: nat, t: T3)
    requires 3 <= k <= |row|
    ensures t in RowTriples(row, k) <==> Shows3(row, k, t)
  {
    if t in RowTriples(row, k) {
      RowTripleShown(row, k, t);
    }
    if Shows3(row, k, t) {
      ShownRowTriple(row, k, t);
    }
  }

  lemma RowTripleShown(row: seq<LevelT>, k: nat, t: T3)
    requires 3 <= k <= |row| && t in RowTriples(row, k)
    ensures Shows3(row, k, t)
  {
    var e := LexFrom(First(3), k);
    AllColumns(k);
    assert t in TriplesOf(row, e, k);
    TriplesOfMembers(row, e, k, t);
    var i :| 0 <= i < |e| && t in ColumnTriple(row, e[i]);
    var c := e[i];
    assert |c| == 3 && IsCombination(c, k);
    var x, y, z := c[0], c[1], c[2];
    assert 0 <= x < y < z < k;
    assert ColumnTriple(row, c) == [T3(row[x], row[y], row[z])];
    ShowsAt(row, k, t, x, y, z);
  }

  /** Three valid entries at increasing positions below k show their
      triple. */
  lemma ShowsAt(row: seq<LevelT>, k: nat, t: T3, i: int, j: int, m: int)
    requires 0 <= i < j < m < k <= |row|
    requires IsValidLevel(row[i]) && IsValidLevel(row[j]) && IsValidLevel(row[m])
    requires t == T3(row[i], row[j], row[m])
    ensures Shows3(row, k, t)
  {
  }

  lemma ShownRowTriple(row: seq<LevelT>, k: nat, t: T3)
    requires 3 <= k <= |row| && Shows3(row, k, t)
    ensures t in RowTriples(row, k)
  {
    var i, j, m :| 0 <= i < j < m < k
      && IsValidLevel(row[i]) && IsValidLevel(row[j]) && IsValidLevel(row[m])
      && t == T3(row[i], row[j], row[m]);
    ThreeValid(row, i, j, m);
    var c := [i, j, m];
    TripleIsCombination(i, j, m, k);
    var e, p := ColumnListed(k, c);
    assert ColumnTriple(row, c) == [t];
    TriplesOfMembers(row, e, k, t);
  }

  lemma {:induction false} TriplesOfGrow(row: seq<LevelT>, row2: seq<LevelT>, cols: seq<seq<int>>,
                                         k: nat, u: set<T3>)
    requires Extends(row, row2) && ColumnTriples(cols, k) && k <= |row|
    ensures CountIn(TriplesOf(row, cols, k), u) <= CountIn(TriplesOf(row2, cols, k), u)
    decreases |cols|
  {
    if cols != [] {
      TriplesOfGrow(row, row2, cols[1..], k, u);
      var c := cols[0];
      CountInAppend(ColumnTriple(row, c), TriplesOf(row, cols[1..], k), u);
      CountInAppend(ColumnTriple(row2, c), TriplesOf(row2, cols[1..], k), u);
      assert ColumnTriple(row, c) == [] || ColumnTriple(row, c) == ColumnTriple(row2, c);
    }
  }

  /** Filling in more entries never lowers a row's count of uncovered
      triples. */
  lemma RowTriplesGrow(row: seq<LevelT>, row2: seq<LevelT>, k: nat, u: set<T3>)
    requires Extends(row, row2) && 3 <= k <= |row|
    ensures CountIn(RowTriples(row, k), u) <= CountIn(RowTriples(row2, k), u)
  {
    ExtendsCountValid(row, row2);
    if CountValid(row) >= 3 {
      EnumerationIsComplete(k, 3);
      LexFromMembers(First(3), k);
      TriplesOfGrow(row, row2, LexFrom(First(3), k), k, u);
    }
  }

  // ---------------------------------------------------------------------
  // Pairs

  /** The pairs (row[i], row[j]) for j from i + 1 up to upto with row[j]
      valid, in order. */
  function PairsWith(row: seq<LevelT>, i: nat, upto: int): seq<T2>
    requires i < |row| && upto < |row|
    decreases upto - i
  {
    if upto <= i then []
    else PairsWith(row, i, upto - 1) + (if IsValidLevel(row[upto]) then [T2(row[i], row[upto])] else [])
  }

  /** The pairs whose first position is below m, in loop order; a first
      position holding no valid level contributes nothing. */
  function PairsBelow(row: seq<LevelT>, m: nat): seq<T2>
    requires m <= |row|
  {
    if m == 0 then [] else PairsBelow(row, m - 1) + Anchored(row, m - 1)
  }

  /** The pairs whose first position is p: none when p holds no valid
      level. */
  function Anchored(row: seq<LevelT>, p: nat): seq<T2>
    requires p < |row|
  {
    if IsValidLevel(row[p]) then PairsWith(row, p, |row| - 1) else []
  }

  /** What GenerateTestCaseT2Tuples lists for a row of at least two
      positions: every pair of valid entries at increasing positions. */
  function RowPairs(row: seq<LevelT>): seq<T2>
    requires |row| > 1
  {
    PairsBelow(row, |row| - 1)
  }

  /** The row shows t on some increasing position pair. */
  ghost predicate Shows2(row: seq<LevelT>, t: T2)
  {
    exists i, j :: 0 <= i < j < |row| && IsValidLevel(row[i]) && IsValidLevel(row[j])
                   && t == T2(row[i], row[j])
  }

  lemma {:induction false} PairsWithMembers(row: seq<LevelT>, i: nat, upto: int, t: T2)
    requires i < |row| && upto < |row|
    ensures t in PairsWith(row, i, upto) <==>
              exists j :: i < j <= upto && IsValidLevel(row[j]) && t == T2(row[i], row[j])
    decreases upto - i
  {
    if upto > i {
      PairsWithMembers(row, i, upto - 1, t);
    }
  }

  lemma {:induction false} PairsBelowMembers(row: seq<LevelT>, m: nat, t: T2)
    requires m <= |row|
    ensures t in PairsBelow(row, m) <==>
              exists i, j :: 0 <= i < m && i < j < |row| && IsValidLevel(row[i])
                             && IsValidLevel(row[j]) && t == T2(row[i], row[j])
    decreases m
  {
    if m > 0 {
      var p := m - 1;
      assert p + 1 == m;
      PairsBelowMembers(row, p, t);
      AnchoredMembers(row, p, t);
      assert PairsBelow(row, p + 1) == PairsBelow(row, p) + Anchored(row, p);
      if t in PairsBelow(row, m) && t !in PairsBelow(row, p) {
        var j :| p < j < |row| && IsValidLevel(row[j]) && t == T2(row[p], row[j]);
        assert 0 <= p < m && p < j < |row| && IsValidLevel(row[p]);
      }
      if exists i, j :: 0 <= i < m && i < j < |row| && IsValidLevel(row[i])
                        && IsValidLevel(row[j]) && t == T2(row[i], row[j]) {
        var i, j :| 0 <= i < m && i < j < |row| && IsValidLevel(row[i])
                    && IsValidLevel(row[j]) && t == T2(row[i], row[j]);
        if i == p {
          assert t in Anchored(row, p);
        } else {
          assert 0 <= i < p;
        }
      }
    }
  }

  /** The pairs anchored at p are row[p] with every later valid entry,
      and none when row[p] is not valid. */
  lemma AnchoredMembers(row: seq<LevelT>, p: nat, t: T2)
    requires p < |row|
    ensures t in Anchored(row, p) <==>
              IsValidLevel(row[p]) && exists j :: p < j < |row| && IsValidLevel(row[j]) && t == T2(row[p], row[j])
  {
    PairsWithMembers(row, p, |row| - 1, t);
  }

  /** A row's pairs are exactly the pairs it shows. */
  lemma RowPairsMembers(row: seq<LevelT>, t: T2)
    requires |row| > 1
    ensures t in RowPairs(row) <==> Shows2(row, t)
  {
    PairsBelowMembers(row, |row| - 1, t);
  }

  lemma {:induction false} PairsWithGrow(row: seq<LevelT>, row2: seq<LevelT>, i: nat, upto: int,
                                         u: set<T2>)
    requires Extends(row, row2) && i < |row| && upto < |row| && IsValidLevel(row[i])
    ensures CountIn(PairsWith(row, i, upto), u) <= CountIn(PairsWith(row2, i, upto), u)
    decreases upto - i
  {
    if upto > i {
      PairsWithGrow(row, row2, i, upto - 1, u);
      var last := if IsValidLevel(row[upto]) then [T2(row[i], row[upto])] else [];
      var last2 := if IsValidLevel(row2[upto]) then [T2(row2[i], row2[upto])] else [];
      CountInAppend(PairsWith(row, i, upto - 1), last, u);
      CountInAppend(PairsWith(row2, i, upto - 1), last2, u);
    }
  }

  lemma {:induction false} PairsBelowGrow(row: seq<LevelT>, row2: seq<LevelT>, m: nat, u: set<T2>)
    requires Extends(row, row2) && m <= |row|
    ensures CountIn(PairsBelow(row, m), u) <= CountIn(PairsBelow(row2, m), u)
    decreases m
  {
    if m > 0 {
      var p := m - 1;
      assert p + 1 == m;
      CountPairsBelowSplit(row, p, u);
      CountPairsBelowSplit(row2, p, u);
      PairsBelowGrow(row, row2, p, u);
      AnchoredGrow(row, row2, p, u);
    }
  }

  /** The count over the first p + 1 anchors is the count over the first p
      plus the count of anchor p. */
  lemma CountPairsBelowSplit(row: seq<LevelT>, p: nat, u: set<T2>)
    requires p < |row|
    ensures CountIn(PairsBelow(row, p + 1), u) == CountIn(PairsBelow(row, p), u) + CountIn(Anchored(row, p), u)
  {
    assert PairsBelow(row, p + 1) == PairsBelow(row, p) + Anchored(row, p);
    CountInAppend(PairsBelow(row, p), Anchored(row, p), u);
  }

  lemma PairsBelowNext(row: seq<LevelT>, m: nat)
    requires 0 < m <= |row|
    ensures PairsBelow(row, m) == PairsBelow(row, m - 1) + Anchored(row, m - 1)
  {
  }

  /** The pairs anchored at position p count no fewer once the row is
      extended. */
  lemma AnchoredGrow(row: seq<LevelT>, row2: seq<LevelT>, p: nat, u: set<T2>)
    requires Extends(row, row2) && p < |row|
    ensures CountIn(Anchored(row, p), u) <= CountIn(Anchored(row2, p), u)
  {
    if IsValidLevel(row[p]) {
      assert row2[p] == row[p];
      assert Anchored(row, p) == PairsWith(row, p, |row| - 1);
      assert Anchored(row2, p) == PairsWith(row2, p, |row| - 1);
      PairsWithGrow(row, row2, p, |row| - 1, u);
    }
  }

  /** Filling in more entries never lowers a row's count of uncovered
      pairs. */
  lemma RowPairsGrow(row: seq<LevelT>, row2: seq<LevelT>, u: set<T2>)
    requires Extends(row, row2) && |row| > 1
    ensures CountIn(RowPairs(row), u) <= CountIn(RowPairs(row2), u)
  {
    PairsBelowGrow(row, row2, |row| - 1, u);
  }
}
