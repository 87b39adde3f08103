// The factor/level domain: inclusive level ranges, factors owning a range,
// and the component system that lays factors out over the level space.

module ComponentSystem {
  import opened CommonDef
  import opened MathUtility

  /** TRange: an inclusive [min, max] interval. The source mutates a range
      in place through its setters; a range is held by value inside its
      factor, so a setter is modelled as producing the updated value. */
  datatype Range = Range(min: Word, max: Word)
  {
    /** The inclusive membership test. */
    predicate IsInRange(x: Word)
    {
      min <= x <= max
    }

    function SetMin(v: Word): (r: Range)
      ensures r.min == v && r.max == max
    {
      this.(min := v)
    }

    function SetMax(v: Word): (r: Range)
      ensures r.max == v && r.min == min
    {
      this.(max := v)
    }
  }

  /** The default range is [0, 0]. */
  const DEFAULT_RANGE: Range := Range(0, 0)

  /** TFactor: a factor and the range of levels it may take. */
  datatype Factor = Factor(levels: Range)
  {
    function SetLevelRange(lo: Word, hi: Word): (f: Factor)
      ensures f.MinLevel() == lo && f.MaxLevel() == hi
    {
      Factor(levels.SetMin(lo).SetMax(hi))
    }

    predicate IsInRange(l: Word)
    {
      levels.IsInRange(l)
    }

    function MinLevel(): Word
    {
      levels.min
    }

    function MaxLevel(): Word
    {
      levels.max
    }
  }

  /** A default factor has the range [LEVEL_INVALID, LEVEL_INVALID]. */
  const DEFAULT_FACTOR: Factor := Factor(Range(LEVEL_INVALID, LEVEL_INVALID))

  /** Range membership is inclusive at both ends and empty when the bounds
      are inverted; the default range holds only 0 and the default factor
      holds only the sentinel. */
  lemma RangeFacts(r: Range, x: Word)
    ensures r.IsInRange(r.min) <==> r.min <= r.max
    ensures r.IsInRange(r.max) <==> r.min <= r.max
    ensures r.min > r.max ==> !r.IsInRange(x)
    ensures DEFAULT_RANGE.IsInRange(x) <==> x == 0
    ensures DEFAULT_FACTOR.IsInRange(x) <==> x == LEVEL_INVALID
  {
  }

  /** Factor i of a uniform layout with v levels per factor: the range
      starting at i * v, both bounds truncated to 16 bits as the source's
      casts do. */
  function UniformFactor(i: nat, v: Word): Factor
  {
    var lo := (i * v) % 0x1_0000;
    Factor(Range(lo, (lo + v - 1) % 0x1_0000))
  }

  function UniformFactors(k: nat, v: Word): (fs: seq<Factor>)
    ensures |fs| == k && forall i :: 0 <= i < k ==> fs[i] == UniformFactor(i, v)
  {
    seq(k, i requires 0 <= i => UniformFactor(i, v))
  }

  /** The factor table after vector::resize(k): a shorter table is padded
      with default factors, a longer one is truncated. */
  function Resize(fs: seq<Factor>, k: nat): (r: seq<Factor>)
    ensures |r| == k
    ensures forall i :: 0 <= i < k && i < |fs| ==> r[i] == fs[i]
    ensures forall i :: |fs| <= i < k ==> r[i] == DEFAULT_FACTOR
  {
    if k <= |fs| then fs[..k] else fs + seq(k - |fs|, _ => DEFAULT_FACTOR)
  }

  lemma NoTruncation(x: int)
    requires 0 <= x < 0x1_0000
    ensures x % 0x1_0000 == x
  {
  }

  /** (i + 1) * v written out, kept apart so the solver sees no product. */
  lemma {:induction false} NextMultiple(i: nat, v: nat)
    ensures (i + 1) * v == i * v + v
  {
  }

  /** When the layout fits in 16 bits (k * v <= 65536) no truncation
      happens: factor i owns exactly [i * v, i * v + v - 1]. */
  lemma {:induction false} UniformBounds(k: nat, v: Word, i: nat)
    requires 0 < v && k * v <= 0x1_0000 && i < k
    ensures UniformFactor(i, v).MinLevel() == i * v
    ensures UniformFactor(i, v).MaxLevel() == i * v + v - 1
  {
    ProductFits(i, k, v);
    TruncatedRange(i * v, v);
  }

  lemma {:induction false} ProductFits(i: nat, k: nat, v: nat)
    requires i < k && 0 < v && k * v <= 0x1_0000
    ensures i * v + v <= 0x1_0000
  {
    MulMono(i + 1, k, v);
    NextMultiple(i, v);
  }

  lemma TruncatedRange(p: int, v: Word)
    requires 0 <= p && 0 < v && p + v <= 0x1_0000
    ensures (p + v - 1) % 0x1_0000 == p + v - 1 && p % 0x1_0000 == p
  {
    NoTruncation(p);
    NoTruncation(p + v - 1);
  }

  /** In a fitting uniform layout consecutive factors are contiguous and
      earlier factors lie wholly below later ones. */
  lemma {:induction false} UniformLayout(k: nat, v: Word, i: nat, j: nat)
    requires 0 < v && k * v <= 0x1_0000 && i < j < k
    ensures UniformFactor(i, v).MaxLevel() < UniformFactor(j, v).MinLevel()
    ensures j == i + 1 ==> UniformFactor(i, v).MaxLevel() + 1 == UniformFactor(j, v).MinLevel()
  {
    UniformBounds(k, v, i);
    UniformBounds(k, v, j);
    MulMono(i + 1, j, v);
    NextMultiple(i, v);
  }

  /** Under a uniform layout that fits, level l below k * v lies in factor
      l / v and in no other. */
  lemma {:induction false} UniformLookup(k: nat, v: Word, l: Word)
    requires 0 < v && k * v <= 0x1_0000 && l < k * v
    ensures l / v < k && UniformFactor(l / v, v).IsInRange(l)
    ensures forall i :: 0 <= i < k && i != l / v ==> !UniformFactor(i, v).IsInRange(l)
  {
    var q := l / v;
    DivisionBounds(l, v);
    NextMultiple(q, v);
    if q >= k {
      MulMono(k, q, v);
    }
    UniformBounds(k, v, q);
    forall i | 0 <= i < k && i != q
      ensures !UniformFactor(i, v).IsInRange(l)
    {
      UniformBounds(k, v, i);
      if i < q {
        MulMono(i + 1, q, v);
        NextMultiple(i, v);
      } else {
        MulMono(q + 1, i, v);
      }
    }
  }

  lemma {:induction false} DivisionBounds(l: nat, v: nat)
    requires v > 0
    ensures (l / v) * v <= l < (l / v) * v + v
  {
  }

  /** Under a uniform layout that fits, the last factor's maximum is
      k * v - 1, every factor's range is proper and ends at or below it,
      and every level up to it lies in some factor. */
  lemma {:induction false} UniformSystemLevel(k: nat, v: Word)
    requires 0 < k && 0 < v && k * v <= 0x1_0000
    ensures UniformFactor(k - 1, v).MaxLevel() == k * v - 1
    ensures forall i :: 0 <= i < k ==> UniformFactor(i, v).MaxLevel() <= k * v - 1
    ensures forall i :: 0 <= i < k ==> UniformFactor(i, v).MinLevel() <= UniformFactor(i, v).MaxLevel()
    ensures forall l: Word :: l < k * v ==> InSomeFactor(UniformFactors(k, v), l)
  {
    UniformBounds(k, v, k - 1);
    NextMultiple(k - 1, v);
    forall i | 0 <= i < k
      ensures UniformFactor(i, v).MaxLevel() <= k * v - 1
      ensures UniformFactor(i, v).MinLevel() <= UniformFactor(i, v).MaxLevel()
    {
      UniformBounds(k, v, i);
      MulMono(i + 1, k, v);
      NextMultiple(i, v);
    }
    forall l: Word | l < k * v
      ensures InSomeFactor(UniformFactors(k, v), l)
    {
      UniformCovers(k, v, l);
    }
  }

  lemma {:induction false} UniformCovers(k: nat, v: Word, l: Word)
    requires 0 < v && k * v <= 0x1_0000 && l < k * v
    ensures InSomeFactor(UniformFactors(k, v), l)
  {
    var i := UniformOwner(k, v, l);
  }

  /** The index of the one factor of a fitting uniform layout that holds
      level l. */
  lemma {:induction false} UniformOwner(k: nat, v: Word, l: Word) returns (i: nat)
    requires 0 < v && k * v <= 0x1_0000 && l < k * v
    ensures i < k && UniformFactors(k, v)[i] == UniformFactor(i, v)
    ensures UniformFactor(i, v).IsInRange(l)
    ensures forall j :: 0 <= j < k && j != i ==> !UniformFactor(j, v).IsInRange(l)
  {
    UniformLookup(k, v, l);
    i := l / v;
  }

  /** Some factor of the table holds level l. */
  ghost predicate InSomeFactor(fs: seq<Factor>, l: Word)
  {
    exists i :: 0 <= i < |fs| && fs[i].IsInRange(l)
  }

  /** Indices 0 .. n - 1, the order GetShuffledFactors starts from. */
  function Indices(n: nat): (s: seq<int>)
    ensures |s| == n && forall i :: 0 <= i < n ==> s[i] == i
  {
    seq(n, i => i)
  }

  /** A sequence with the same elements as [0, n) (as a multiset) has
      length n and holds each of 0 .. n - 1 exactly once. */
  lemma PermutationOfIndices(s: seq<int>, n: nat)
    requires multiset(s) == multiset(Indices(n))
    ensures |s| == n
    ensures forall x :: 0 <= x < n ==> x in s
    ensures forall i :: 0 <= i < |s| ==> 0 <= s[i] < n
    ensures forall i, j :: 0 <= i < j < |s| ==> s[i] != s[j]
  {
    assert |s| == |multiset(s)| == |multiset(Indices(n))| == n;
    forall x | 0 <= x < n
      ensures x in s
    {
      assert Indices(n)[x] == x;
      assert x in multiset(Indices(n));
    }
    forall i | 0 <= i < |s|
      ensures 0 <= s[i] < n
    {
      assert s[i] in multiset(s);
    }
    forall i, j | 0 <= i < j < |s|
      ensures s[i] != s[j]
    {
      if s[i] == s[j] {
        TwoCopies(s, i, j);
        IndicesOnce(n, s[i]);
      }
    }
  }

  lemma TwoCopies(s: seq<int>, i: int, j: int)
    requires 0 <= i < j < |s| && s[i] == s[j]
    ensures multiset(s)[s[i]] >= 2
  {
    assert s == s[..j] + [s[j]] + s[j + 1..];
    assert s[i] in s[..j];
  }

  lemma {:induction false} IndicesOnce(n: nat, x: int)
    ensures multiset(Indices(n))[x] <= 1
  {
    if n > 0 {
      IndicesOnce(n - 1, x);
      assert Indices(n) == Indices(n - 1) + [n - 1];
      if x == n - 1 {
        assert x !in Indices(n - 1);
      }
    }
  }

  /** Exchanging two entries keeps the multiset of a sequence. */
  lemma SwapKeepsMultiset(s: seq<int>, i: nat, j: nat)
    requires i < |s| && j < |s|
    ensures multiset(s[i := s[j]][j := s[i]]) == multiset(s)
  {
  }

  /** CComponentSystem: the number of factors, the number of levels per
      factor and the table of factor ranges. */
  class ComponentSystem {
    var numFactors: FactorT
    var numLevels: LevelT
    var factors: seq<Factor>

    ghost predicate Valid()
      reads this
    {
      |factors| == numFactors
    }

    /** A new system has no factors. */
    constructor ()
      ensures Valid() && numFactors == 0 && numLevels == 0 && factors == []
    {
      numFactors := 0;
      numLevels := 0;
      factors := [];
    }

    /** get_NumFactors */
    function NumFactors(): (n: FactorT)
      requires Valid()
      reads this
      ensures n == |factors|
    {
      numFactors
    }

    /** Lays out k factors with v levels each. Fails, changing nothing,
        when either count is 0. */
    method Init(k: FactorT, v: LevelT) returns (ok: bool)
      requires Valid()
      modifies this
      ensures Valid()
      ensures ok <==> k > 0 && v > 0
      ensures !ok ==> numFactors == old(numFactors) && numLevels == old(numLevels)
                      && factors == old(factors)
      ensures ok ==> numFactors == k && numLevels == v && factors == UniformFactors(k, v)
    {
      ok := false;
      if k > 0 && v > 0 {
        numFactors := k;
        numLevels := v;
        factors := Resize(factors, k);
        var i := 0;
        while i < k
          invariant 0 <= i <= k && Valid() && numFactors == k && numLevels == v
          invariant forall j :: 0 <= j < i ==> factors[j] == UniformFactor(j, v)
        {
          var lo: LevelT := (i * v) % 0x1_0000;
          var hi: LevelT := (lo + v - 1) % 0x1_0000;
          var stored := SetLevelRange(i, lo, hi);
          i := i + 1;
        }
        ok := true;
      }
    }

    /** Sets one factor's range; fails, changing nothing, for a factor
        that does not exist. */
    method SetLevelRange(f: FactorT, lo: LevelT, hi: LevelT) returns (ok: bool)
      requires Valid()
      modifies this
      ensures Valid() && numFactors == old(numFactors) && numLevels == old(numLevels)
      ensures ok <==> f < numFactors
      ensures ok ==> factors == old(factors)[f := old(factors)[f].SetLevelRange(lo, hi)]
      ensures !ok ==> factors == old(factors)
    {
      ok := false;
      if f < numFactors {
        factors := factors[f := factors[f].SetLevelRange(lo, hi)];
        ok := true;
      }
    }

    /** A factor's minimum level, or LEVEL_INVALID for a factor that does
        not exist. */
    function GetMinLevel(f: FactorT): (l: LevelT)
      requires Valid()
      reads this
      ensures f < |factors| ==> l == factors[f].levels.min
      ensures f >= |factors| ==> l == LEVEL_INVALID
    {
      if f < numFactors then factors[f].MinLevel() else LEVEL_INVALID
    }

    /** A factor's maximum level, or LEVEL_INVALID for a factor that does
        not exist. */
    function GetMaxLevel(f: FactorT): (l: LevelT)
      requires Valid()
      reads this
      ensures f < |factors| ==> l == factors[f].levels.max
      ensures f >= |factors| ==> l == LEVEL_INVALID
    {
      if f < numFactors then factors[f].MaxLevel() else LEVEL_INVALID
    }

    /** The last factor's maximum level, or LEVEL_INVALID without factors. */
    function GetMaxSystemLevel(): (l: LevelT)
      requires Valid()
      reads this
      ensures |factors| > 0 ==> l == factors[|factors| - 1].levels.max
      ensures |factors| == 0 ==> l == LEVEL_INVALID
    {
      if numFactors > 0 then factors[numFactors - 1].MaxLevel() else LEVEL_INVALID
    }

    /** A level drawn from the factor's range (any level of it may come
        out), or LEVEL_INVALID for a factor that does not exist. The
        uniform distribution needs min <= max. */
    method GetRandomLevel(f: FactorT) returns (l: LevelT)
      requires Valid()
      requires f < numFactors ==> factors[f].levels.min <= factors[f].levels.max
      ensures f < numFactors ==> factors[f].IsInRange(l)
      ensures f >= numFactors ==> l == LEVEL_INVALID
    {
      l := LEVEL_INVALID;
      if f < numFactors {
        var lo, hi := factors[f].MinLevel(), factors[f].MaxLevel();
        assert lo <= lo <= hi;
        l :| lo <= l <= hi;
      }
    }

    /** A factor drawn from [0, k), or FACTOR_INVALID unless there are at
        least two factors. */
    method GetRandomFactor() returns (f: FactorT)
      requires Valid()
      ensures numFactors > 1 ==> f < numFactors
      ensures numFactors <= 1 ==> f == FACTOR_INVALID
    {
      f := FACTOR_INVALID;
      if numFactors > 1 {
        var zero: FactorT := 0;
        assert zero < numFactors;
        f :| f < numFactors;
      }
    }

    /** The factor whose range holds the level, scanning factors in order
        and stopping at the first match; FACTOR_INVALID when none holds it. */
    method GetFactor(l: LevelT) returns (f: FactorT)
      requires Valid()
      ensures f != FACTOR_INVALID ==> f < |factors| && factors[f].IsInRange(l)
      ensures f != FACTOR_INVALID ==> forall j :: 0 <= j < f ==> !factors[j].IsInRange(l)
      ensures f == FACTOR_INVALID <==> forall j :: 0 <= j < |factors| ==> !factors[j].IsInRange(l)
    {
      f := FACTOR_INVALID;
      if numFactors > 0 {
        var i := 0;
        while i < |factors| && !IsValidFactor(f)
          invariant 0 <= i <= |factors|
          invariant f == FACTOR_INVALID ==> forall j :: 0 <= j < i ==> !factors[j].IsInRange(l)
          invariant f != FACTOR_INVALID ==>
                      f == i - 1 && factors[f].IsInRange(l)
                      && forall j :: 0 <= j < f ==> !factors[j].IsInRange(l)
        {
          if factors[i].IsInRange(l) {
            f := i;
          }
          i := i + 1;
        }
      }
    }

    /** Fills [0, k) and shuffles it in place (Fisher-Yates, each swap
        partner drawn freely). Without at least two factors it returns 0
        and hands back the vector untouched. */
    method GetShuffledFactors(vec: seq<FactorT>) returns (n: nat, shuffled: seq<FactorT>)
      requires Valid()
      ensures numFactors <= 1 ==> n == 0 && shuffled == vec
      ensures numFactors > 1 ==> n == numFactors
      ensures numFactors > 1 ==> multiset(shuffled) == multiset(Indices(numFactors))
    {
      n := 0;
      shuffled := vec;
      if numFactors > 1 {
        var k := numFactors;
        var a := new FactorT[k];
        var i := 0;
        while i < k
          invariant 0 <= i <= k
          invariant forall j :: 0 <= j < i ==> a[j] == j
        {
          a[i] := i;
          i := i + 1;
        }
        assert a[..] == Indices(k);
        i := k - 1;
        while i > 0
          invariant 0 <= i < k == a.Length
          invariant multiset(a[..]) == multiset(Indices(k))
        {
          var j: int :| 0 <= j <= i;
          ghost var before := a[..];
          a[i], a[j] := a[j], a[i];
          assert a[..] == before[i := before[j]][j := before[i]];
          SwapKeepsMultiset(before, i, j);
          i := i - 1;
        }
        shuffled := a[..];
        n := |shuffled|;
      }
    }

    /** C(k, t): the number of t-way factor combinations, from a fresh
        50 x 50 Pascal table (so k < 50; t <= k as the table demands). */
    method CalcNumberOfVariableCombinations(t: Word) returns (n: nat)
      requires Valid() && t <= numFactors < 50
      ensures n == Binomial(numFactors, t)
    {
      var table := new ChooseTable(50);
      n := table.Choose(numFactors, t);
    }
  }

  /** After a uniform Init that fits in 16 bits, the level lookup returns
      l / v for every level below k * v, and FACTOR_INVALID above it. */
  lemma GetFactorAfterUniformInit(k: nat, v: Word, l: Word, f: Word)
    requires 0 < v && k * v <= 0x1_0000
    requires f != FACTOR_INVALID ==> f < k && UniformFactor(f, v).IsInRange(l)
    requires f == FACTOR_INVALID <==> forall j :: 0 <= j < k ==> !UniformFactor(j, v).IsInRange(l)
    ensures l < k * v ==> f == l / v
    ensures l >= k * v ==> f == FACTOR_INVALID
  {
    if l < k * v {
      UniformLookup(k, v, l);
    } else {
      forall j | 0 <= j < k
        ensures !UniformFactor(j, v).IsInRange(l)
      {
        AboveUniform(k, v, j, l);
      }
    }
  }

  /** A level at or above k * v lies above every factor of the layout. */
  lemma AboveUniform(k: nat, v: Word, j: nat, l: Word)
    requires 0 < v && k * v <= 0x1_0000 && j < k && l >= k * v
    ensures !UniformFactor(j, v).IsInRange(l)
  {
    UniformBounds(k, v, j);
    MulMono(j + 1, k, v);
    NextMultiple(j, v);
  }
}
