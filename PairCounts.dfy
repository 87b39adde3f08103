// The per-level occurrence counts for the 2-way variant: the same
// bookkeeping as for pairs, over the uncovered pair set.

module PairCounts {
  import opened CommonDef
  import opened Collections
  import opened Tuple

  /** The level at position p (0 or 1) of a pair. */
  function Pos2(t: T2, p: int): LevelT
  {
    if p == 0 then t.a else t.b
  }

  /** How many positions of t hold level l. */
  function Occ2(t: T2, l: int): nat
  {
    (if t.a == l then 1 else 0) + (if t.b == l then 1 else 0)
  }

  /** The pairs of u holding level l at position p. */
  ghost function Fiber2(u: set<T2>, p: int, l: int): set<T2>
  {
    set t | t in u && Pos2(t, p) == l
  }

  /** The occurrences of level l over a set of pairs, position by position.
      When no pair repeats a level this is the number of pairs holding l. */
  ghost function OccIn2(u: set<T2>, l: int): nat
  {
    |Fiber2(u, 0, l)| + |Fiber2(u, 1, l)|
  }

  /** The occurrences of level l along a sequence of pairs. */
  function SeqOcc2(ts: seq<T2>, l: int): nat
  {
    if ts == [] then 0 else SeqOcc2(ts[..|ts| - 1], l) + Occ2(ts[|ts| - 1], l)
  }

  lemma FiberInsert2(u: set<T2>, x: T2, p: int, l: int)
    requires x !in u
    ensures |Fiber2(u + {x}, p, l)| == |Fiber2(u, p, l)| + (if Pos2(x, p) == l then 1 else 0)
  {
    if Pos2(x, p) == l {
      assert Fiber2(u + {x}, p, l) == Fiber2(u, p, l) + {x};
    } else {
      assert Fiber2(u + {x}, p, l) == Fiber2(u, p, l);
    }
  }

  /** Adding a new pair adds its occurrences. */
  lemma OccInsert2(u: set<T2>, x: T2, l: int)
    requires x !in u
    ensures OccIn2(u + {x}, l) == OccIn2(u, l) + Occ2(x, l)
  {
    FiberInsert2(u, x, 0, l);
    FiberInsert2(u, x, 1, l);
  }

  /** Removing a present pair removes its occurrences. */
  lemma OccRemove2(u: set<T2>, x: T2, l: int)
    requires x in u
    ensures OccIn2(u - {x}, l) + Occ2(x, l) == OccIn2(u, l)
  {
    OccInsert2(u - {x}, x, l);
    assert (u - {x}) + {x} == u;
  }

  /** A smaller set has no more occurrences. */
  lemma OccSubset2(v: set<T2>, u: set<T2>, l: int)
    requires v <= u
    ensures OccIn2(v, l) <= OccIn2(u, l)
  {
    SubsetCard(Fiber2(v, 0, l), Fiber2(u, 0, l));
    SubsetCard(Fiber2(v, 1, l), Fiber2(u, 1, l));
  }

  /** Each level of a member pair occurs at least once. */
  lemma OccOfMember2(u: set<T2>, t: T2)
    requires t in u
    ensures OccIn2(u, t.a) >= 1
  {
    assert t in Fiber2(u, 0, t.a);
  }

  /** Along a sequence without repetitions the occurrences are those of
      its element set. */
  lemma {:induction false} SeqOccIsOcc2(ts: seq<T2>, l: int)
    requires NoDup(ts)
    ensures SeqOcc2(ts, l) == OccIn2(Elems(ts), l)
    decreases |ts|
  {
    if ts != [] {
      var init, x := ts[..|ts| - 1], ts[|ts| - 1];
      assert NoDup(init) by {
        forall i, j | 0 <= i < j < |init| ensures init[i] != init[j] {
          assert init[i] == ts[i] && init[j] == ts[j];
        }
      }
      SeqOccIsOcc2(init, l);
      assert ts == init + [x];
      ElemsSnoc(init, x);
      assert x !in Elems(init) by {
        forall i | 0 <= i < |init| ensures init[i] != x {
          assert init[i] == ts[i];
        }
      }
      OccInsert2(Elems(init), x, l);
    }
  }

  lemma {:induction false} SeqOccAppend2(s: seq<T2>, t: seq<T2>, l: int)
    ensures SeqOcc2(s + t, l) == SeqOcc2(s, l) + SeqOcc2(t, l)
    decreases |t|
  {
    if t == [] {
      assert s + t == s;
    } else {
      var init := t[..|t| - 1];
      SeqOccAppend2(s, init, l);
      assert (s + t)[..|s + t| - 1] == s + init;
      assert (s + t)[|s + t| - 1] == t[|t| - 1];
    }
  }

  // ---------------------------------------------------------------------
  // The counter vector

  /** Every level of t indexes a vector of length n. */
  predicate Below2(t: T2, n: int)
  {
    t.a < n && t.b < n
  }

  ghost predicate AllBelow2(ts: seq<T2>, n: int)
  {
    forall i :: 0 <= i < |ts| ==> Below2(ts[i], n)
  }

  /** ++ on the counters of t's levels, in the order a, b. A level that
      does not index cs is passed over; the generator only bumps tuples whose
      levels all index the counters. */
  function Bump2(cs: seq<Word>, t: T2): (r: seq<Word>)
    ensures |r| == |cs|
  {
    IncAt(IncAt(cs, t.a), t.b)
  }

  /** -- on the counters of t's two levels, in the order a, b. */
  function Drop2(cs: seq<Word>, t: T2): (r: seq<Word>)
    requires Below2(t, |cs|)
    ensures |r| == |cs|
  {
    var c1 := cs[t.a := Dec(cs[t.a])];
    c1[t.b := Dec(c1[t.b])]
  }

  /** Each counter moves by the level's occurrences in t, modulo 2^16. */
  lemma BumpValue2(cs: seq<Word>, t: T2, l: int)
    requires 0 <= l < |cs|
    ensures Bump2(cs, t)[l] == (cs[l] + Occ2(t, l)) % COUNT_MODULUS
  {
    var x: int := cs[l];
    ModAdd(x + (if t.a == l then 1 else 0), if t.b == l then 1 else 0);
  }

  /** Dropping moves each counter back by the level's occurrences in t. */
  lemma DropValue2(cs: seq<Word>, t: T2, l: int)
    requires Below2(t, |cs|) && 0 <= l < |cs|
    ensures Drop2(cs, t)[l] == (cs[l] - Occ2(t, l)) % COUNT_MODULUS
  {
    var x: int := cs[l];
    ModAdd(x - (if t.a == l then 1 else 0), -(if t.b == l then 1 else 0));
  }

  /** The counters after the generator's ++ for every pair of ts, in
      order, starting from cs. */
  function Tally2(cs: seq<Word>, ts: seq<T2>): (r: seq<Word>)
    ensures |r| == |cs|
  {
    if ts == [] then cs else Bump2(Tally2(cs, ts[..|ts| - 1]), ts[|ts| - 1])
  }

  /** Tallying adds each level's occurrences along ts, modulo 2^16. */
  lemma {:induction false} TallyValue2(cs: seq<Word>, ts: seq<T2>, l: int)
    requires 0 <= l < |cs|
    ensures Tally2(cs, ts)[l] == (cs[l] + SeqOcc2(ts, l)) % COUNT_MODULUS
    decreases |ts|
  {
    if ts != [] {
      var init, x := ts[..|ts| - 1], ts[|ts| - 1];
      var prev := Tally2(cs, init);
      var before: int, d: int := cs[l] + SeqOcc2(init, l), Occ2(x, l);
      assert Tally2(cs, ts) == Bump2(prev, x);
      assert SeqOcc2(ts, l) == SeqOcc2(init, l) + Occ2(x, l);
      TallyValue2(cs, init, l);
      BumpValue2(prev, x, l);
      ModStep(prev[l], before, d, Bump2(prev, x)[l]);
    }
  }

  lemma AllBelowAppend2(s: seq<T2>, t: seq<T2>, n: int)
    requires AllBelow2(s, n) && AllBelow2(t, n)
    ensures AllBelow2(s + t, n)
  {
    forall i | 0 <= i < |s + t| ensures Below2((s + t)[i], n) {
      if i < |s| {
        assert (s + t)[i] == s[i];
      } else {
        assert (s + t)[i] == t[i - |s|];
      }
    }
  }

  /** Tallying one more tuple bumps its counters. */
  lemma TallySnoc2(cs: seq<Word>, s: seq<T2>, x: T2)
    ensures Tally2(cs, s + [x]) == Bump2(Tally2(cs, s), x)
  {
    assert (s + [x])[..|s + [x]| - 1] == s;
  }

  /** Tallying a concatenation is tallying one part after the other. */
  lemma {:induction false} TallyAppend2(cs: seq<Word>, s: seq<T2>, t: seq<T2>)
    ensures Tally2(cs, s + t) == Tally2(Tally2(cs, s), t)
    decreases |t|
  {
    if t == [] {
      assert s + t == s;
    } else {
      var init := t[..|t| - 1];
      assert (s + t)[..|s + t| - 1] == s + init;
      assert (s + t)[|s + t| - 1] == t[|t| - 1];
      TallyAppend2(cs, s, init);
    }
  }

  /** The counters after AddToT2TestSuite's loop over ts: each pair still
      in the set when it is reached is erased and its two counters are
      decremented; a pair already gone changes nothing. */
  function Erased2(u: set<T2>, cs: seq<Word>, ts: seq<T2>): (r: seq<Word>)
    requires forall t :: t in u ==> Below2(t, |cs|)
    ensures |r| == |cs|
  {
    if ts == [] then cs
    else
      var init, x := ts[..|ts| - 1], ts[|ts| - 1];
      var before := Erased2(u, cs, init);
      if x in u && x !in init then Drop2(before, x) else before
  }

  /** The central invariant: every level of an uncovered pair indexes
      the counters, and each counter holds its level's occurrences among
      the uncovered pairs (modulo 2^16, the counters' width). */
  ghost predicate CountsMatch2(u: set<T2>, cs: seq<Word>)
  {
    && (forall t :: t in u ==> Below2(t, |cs|))
    && forall l :: 0 <= l < |cs| ==> cs[l] == OccIn2(u, l) % COUNT_MODULUS
  }

  /** The generator establishes the invariant: tallying a repetition-free
      sequence of pairs from zero counters matches its element set. */
  lemma TallyEstablishesMatch2(ts: seq<T2>, n: nat)
    requires NoDup(ts) && AllBelow2(ts, n)
    ensures CountsMatch2(Elems(ts), Tally2(Zeros(n), ts))
  {
    forall t | t in Elems(ts) ensures Below2(t, n) {
      var i :| 0 <= i < |ts| && ts[i] == t;
    }
    forall l | 0 <= l < n
      ensures Tally2(Zeros(n), ts)[l] == OccIn2(Elems(ts), l) % COUNT_MODULUS
    {
      TallyFromZero2(ts, n, l);
    }
  }

  /** From zero counters, counter l ends at l's occurrences in ts. */
  lemma TallyFromZero2(ts: seq<T2>, n: nat, l: int)
    requires NoDup(ts) && 0 <= l < n
    ensures Tally2(Zeros(n), ts)[l] == OccIn2(Elems(ts), l) % COUNT_MODULUS
  {
    var z := Zeros(n);
    TallyValue2(z, ts, l);
    assert z[l] == 0;
    SeqOccIsOcc2(ts, l);
  }

  /** AddToT2TestSuite preserves the invariant: after erasing ts the
      counters match the set with ts's pairs removed. */
  /** Erasing a present pair and decrementing its counters keeps one
      level's counter matched. */
  lemma DropStep2(v: set<T2>, before: seq<Word>, x: T2, l: int)
    requires x in v && Below2(x, |before|) && 0 <= l < |before|
    requires before[l] == OccIn2(v, l) % COUNT_MODULUS
    ensures Drop2(before, x)[l] == OccIn2(v - {x}, l) % COUNT_MODULUS
  {
    DropValue2(before, x, l);
    OccRemove2(v, x, l);
    ModStep(before[l], OccIn2(v, l), -(Occ2(x, l) as int), Drop2(before, x)[l]);
  }

  lemma {:induction false} ErasePreservesMatch2(u: set<T2>, cs: seq<Word>, ts: seq<T2>)
    requires CountsMatch2(u, cs)
    ensures CountsMatch2(u - Elems(ts), Erased2(u, cs, ts))
    decreases |ts|
  {
    if ts == [] {
      assert u - Elems(ts) == u;
    } else {
      var init, x := ts[..|ts| - 1], ts[|ts| - 1];
      ErasePreservesMatch2(u, cs, init);
      var v, before := u - Elems(init), Erased2(u, cs, init);
      assert ts == init + [x];
      ElemsSnoc(init, x);
      assert u - Elems(ts) == v - {x};
      if x in u && x !in init {
        assert x in v;
        forall l | 0 <= l < |cs|
          ensures Drop2(before, x)[l] == OccIn2(v - {x}, l) % COUNT_MODULUS
        {
          DropStep2(v, before, x, l);
        }
      } else {
        assert v - {x} == v;
      }
    }
  }

  /** Erasing tuples none of which is present changes no counter (a row
      added a second time erases nothing). */
  lemma {:induction false} EraseNothing2(u: set<T2>, cs: seq<Word>, ts: seq<T2>)
    requires forall t :: t in u ==> Below2(t, |cs|)
    requires forall i :: 0 <= i < |ts| ==> ts[i] !in u
    ensures Erased2(u, cs, ts) == cs && u - Elems(ts) == u
    decreases |ts|
  {
    if ts != [] {
      EraseNothing2(u, cs, ts[..|ts| - 1]);
    }
  }

  /** While no level's occurrences reach 2^16 the counters are exact, so
      a nonempty set shows a positive counter. */
  lemma PositiveCount2(u: set<T2>, cs: seq<Word>)
    requires CountsMatch2(u, cs) && u != {}
    requires forall l :: 0 <= l < |cs| ==> OccIn2(u, l) < COUNT_MODULUS
    ensures exists l :: 0 <= l < |cs| && cs[l] > 0
  {
    var t :| t in u;
    OccOfMember2(u, t);
    assert cs[t.a] > 0;
  }
}
