// The per-level occurrence counts kept beside the uncovered triple set:
// what a count means, how inserting and erasing triples move it, and the
// invariant tying the counts to the set.

module TripleCounts {
  import opened CommonDef
  import opened Collections
  import opened Tuple

  /** The level at position p (0, 1 or 2) of a triple. */
  function Pos3(t: T3, p: int): LevelT
  {
    if p == 0 then t.a else if p == 1 then t.b else t.c
  }

  /** How many positions of t hold level l. */
  function Occ3(t: T3, l: int): nat
  {
    (if t.a == l then 1 else 0) + (if t.b == l then 1 else 0) + (if t.c == l then 1 else 0)
  }

  /** The triples of u holding level l at position p. */
  ghost function Fiber3(u: set<T3>, p: int, l: int): set<T3>
  {
    set t | t in u && Pos3(t, p) == l
  }

  /** The occurrences of level l over a set of triples, position by position.
      When no triple repeats a level this is the number of triples holding l. */
  ghost function OccIn3(u: set<T3>, l: int): nat
  {
    |Fiber3(u, 0, l)| + |Fiber3(u, 1, l)| + |Fiber3(u, 2, l)|
  }

  /** The occurrences of level l along a sequence of triples. */
  function SeqOcc3(ts: seq<T3>, l: int): nat
  {
    if ts == [] then 0 else SeqOcc3(ts[..|ts| - 1], l) + Occ3(ts[|ts| - 1], l)
  }

  lemma FiberInsert3(u: set<T3>, x: T3, p: int, l: int)
    requires x !in u
    ensures |Fiber3(u + {x}, p, l)| == |Fiber3(u, p, l)| + (if Pos3(x, p) == l then 1 else 0)
  {
    if Pos3(x, p) == l {
      assert Fiber3(u + {x}, p, l) == Fiber3(u, p, l) + {x};
    } else {
      assert Fiber3(u + {x}, p, l) == Fiber3(u, p, l);
    }
  }

  /** Adding a new triple adds its occurrences. */
  lemma OccInsert3(u: set<T3>, x: T3, l: int)
    requires x !in u
    ensures OccIn3(u + {x}, l) == OccIn3(u, l) + Occ3(x, l)
  {
    FiberInsert3(u, x, 0, l);
    FiberInsert3(u, x, 1, l);
    FiberInsert3(u, x, 2, l);
  }

  /** Removing a present triple removes its occurrences. */
  lemma OccRemove3(u: set<T3>, x: T3, l: int)
    requires x in u
    ensures OccIn3(u - {x}, l) + Occ3(x, l) == OccIn3(u, l)
  {
    OccInsert3(u - {x}, x, l);
    assert (u - {x}) + {x} == u;
  }

  /** A smaller set has no more occurrences. */
  lemma OccSubset3(v: set<T3>, u: set<T3>, l: int)
    requires v <= u
    ensures OccIn3(v, l) <= OccIn3(u, l)
  {
    SubsetCard(Fiber3(v, 0, l), Fiber3(u, 0, l));
    SubsetCard(Fiber3(v, 1, l), Fiber3(u, 1, l));
    SubsetCard(Fiber3(v, 2, l), Fiber3(u, 2, l));
  }

  /** Each level of a member triple occurs at least once. */
  lemma OccOfMember3(u: set<T3>, t: T3)
    requires t in u
    ensures OccIn3(u, t.a) >= 1
  {
    assert t in Fiber3(u, 0, t.a);
  }

  /** Along a sequence without repetitions the occurrences are those of
      its element set. */
  lemma {:induction false} SeqOccIsOcc3(ts: seq<T3>, l: int)
    requires NoDup(ts)
    ensures SeqOcc3(ts, l) == OccIn3(Elems(ts), l)
    decreases |ts|
  {
    if ts != [] {
      var init, x := ts[..|ts| - 1], ts[|ts| - 1];
      assert NoDup(init) by {
        forall i, j | 0 <= i < j < |init| ensures init[i] != init[j] {
          assert init[i] == ts[i] && init[j] == ts[j];
        }
      }
      SeqOccIsOcc3(init, l);
      assert ts == init + [x];
      ElemsSnoc(init, x);
      assert x !in Elems(init) by {
        forall i | 0 <= i < |init| ensures init[i] != x {
          assert init[i] == ts[i];
        }
      }
      OccInsert3(Elems(init), x, l);
    }
  }

  lemma {:induction false} SeqOccAppend3(s: seq<T3>, t: seq<T3>, l: int)
    ensures SeqOcc3(s + t, l) == SeqOcc3(s, l) + SeqOcc3(t, l)
    decreases |t|
  {
    if t == [] {
      assert s + t == s;
    } else {
      var init := t[..|t| - 1];
      SeqOccAppend3(s, init, l);
      assert (s + t)[..|s + t| - 1] == s + init;
      assert (s + t)[|s + t| - 1] == t[|t| - 1];
    }
  }

  // ---------------------------------------------------------------------
  // The counter vector

  /** Every level of t indexes a vector of length n. */
  predicate Below3(t: T3, n: int)
  {
    t.a < n && t.b < n && t.c < n
  }

  ghost predicate AllBelow3(ts: seq<T3>, n: int)
  {
    forall i :: 0 <= i < |ts| ==> Below3(ts[i], n)
  }

  /** ++ on the counters of t's levels, in the order a, b, c. A level that
      does not index cs is passed over; the generator only bumps tuples whose
      levels all index the counters. */
  function Bump3(cs: seq<Word>, t: T3): (r: seq<Word>)
    ensures |r| == |cs|
  {
    IncAt(IncAt(IncAt(cs, t.a), t.b), t.c)
  }

  /** -- on the counters of t's three levels, in the order a, b, c. */
  function Drop3(cs: seq<Word>, t: T3): (r: seq<Word>)
    requires Below3(t, |cs|)
    ensures |r| == |cs|
  {
    var c1 := cs[t.a := Dec(cs[t.a])];
    var c2 := c1[t.b := Dec(c1[t.b])];
    c2[t.c := Dec(c2[t.c])]
  }

  /** Each counter moves by the level's occurrences in t, modulo 2^16. */
  lemma BumpValue3(cs: seq<Word>, t: T3, l: int)
    requires 0 <= l < |cs|
    ensures Bump3(cs, t)[l] == (cs[l] + Occ3(t, l)) % COUNT_MODULUS
  {
    var x: int := cs[l];
    var da: int, db: int := (if t.a == l then 1 else 0), (if t.b == l then 1 else 0);
    ModAdd(x + da, db);
    ModAdd(x + da + db, if t.c == l then 1 else 0);
  }

  /** Dropping moves each counter back by the level's occurrences in t. */
  lemma DropValue3(cs: seq<Word>, t: T3, l: int)
    requires Below3(t, |cs|) && 0 <= l < |cs|
    ensures Drop3(cs, t)[l] == (cs[l] - Occ3(t, l)) % COUNT_MODULUS
  {
    var x: int := cs[l];
    var da: int, db: int := (if t.a == l then 1 else 0), (if t.b == l then 1 else 0);
    ModAdd(x - da, -db);
    ModAdd(x - da - db, -(if t.c == l then 1 else 0));
  }

  /** The counters after the generator's ++ for every triple of ts, in
      order, starting from cs. */
  function Tally3(cs: seq<Word>, ts: seq<T3>): (r: seq<Word>)
    ensures |r| == |cs|
  {
    if ts == [] then cs else Bump3(Tally3(cs, ts[..|ts| - 1]), ts[|ts| - 1])
  }

  /** Tallying adds each level's occurrences along ts, modulo 2^16. */
  lemma {:induction false} TallyValue3(cs: seq<Word>, ts: seq<T3>, l: int)
    requires 0 <= l < |cs|
    ensures Tally3(cs, ts)[l] == (cs[l] + SeqOcc3(ts, l)) % COUNT_MODULUS
    decreases |ts|
  {
    if ts != [] {
      var init, x := ts[..|ts| - 1], ts[|ts| - 1];
      var prev := Tally3(cs, init);
      var before: int, d: int := cs[l] + SeqOcc3(init, l), Occ3(x, l);
      assert Tally3(cs, ts) == Bump3(prev, x);
      assert SeqOcc3(ts, l) == SeqOcc3(init, l) + Occ3(x, l);
      TallyValue3(cs, init, l);
      BumpValue3(prev, x, l);
      ModStep(prev[l], before, d, Bump3(prev, x)[l]);
    }
  }

  lemma AllBelowAppend3(s: seq<T3>, t: seq<T3>, n: int)
    requires AllBelow3(s, n) && AllBelow3(t, n)
    ensures AllBelow3(s + t, n)
  {
    forall i | 0 <= i < |s + t| ensures Below3((s + t)[i], n) {
      if i < |s| {
        assert (s + t)[i] == s[i];
      } else {
        assert (s + t)[i] == t[i - |s|];
      }
    }
  }

  /** Tallying one more tuple bumps its counters. */
  lemma TallySnoc3(cs: seq<Word>, s: seq<T3>, x: T3)
    ensures Tally3(cs, s + [x]) == Bump3(Tally3(cs, s), x)
  {
    assert (s + [x])[..|s + [x]| - 1] == s;
  }

  /** Tallying a concatenation is tallying one part after the other. */
  lemma {:induction false} TallyAppend3(cs: seq<Word>, s: seq<T3>, t: seq<T3>)
    ensures Tally3(cs, s + t) == Tally3(Tally3(cs, s), t)
    decreases |t|
  {
    if t == [] {
      assert s + t == s;
    } else {
      var init := t[..|t| - 1];
      assert (s + t)[..|s + t| - 1] == s + init;
      assert (s + t)[|s + t| - 1] == t[|t| - 1];
      TallyAppend3(cs, s, init);
    }
  }

  /** The counters after AddToT3TestSuite's loop over ts: each triple still
      in the set when it is reached is erased and its three counters are
      decremented; a triple already gone changes nothing. */
  function Erased3(u: set<T3>, cs: seq<Word>, ts: seq<T3>): (r: seq<Word>)
    requires forall t :: t in u ==> Below3(t, |cs|)
    ensures |r| == |cs|
  {
    if ts == [] then cs
    else
      var init, x := ts[..|ts| - 1], ts[|ts| - 1];
      var before := Erased3(u, cs, init);
      if x in u && x !in init then Drop3(before, x) else before
  }

  /** The central invariant: every level of an uncovered triple indexes
      the counters, and each counter holds its level's occurrences among
      the uncovered triples (modulo 2^16, the counters' width). */
  ghost predicate CountsMatch3(u: set<T3>, cs: seq<Word>)
  {
    && (forall t :: t in u ==> Below3(t, |cs|))
    && forall l :: 0 <= l < |cs| ==> cs[l] == OccIn3(u, l) % COUNT_MODULUS
  }

  /** The generator establishes the invariant: tallying a repetition-free
      sequence of triples from zero counters matches its element set. */
  lemma TallyEstablishesMatch3(ts: seq<T3>, n: nat)
    requires NoDup(ts) && AllBelow3(ts, n)
    ensures CountsMatch3(Elems(ts), Tally3(Zeros(n), ts))
  {
    forall t | t in Elems(ts) ensures Below3(t, n) {
      var i :| 0 <= i < |ts| && ts[i] == t;
    }
    forall l | 0 <= l < n
      ensures Tally3(Zeros(n), ts)[l] == OccIn3(Elems(ts), l) % COUNT_MODULUS
    {
      TallyFromZero3(ts, n, l);
    }
  }

  /** From zero counters, counter l ends at l's occurrences in ts. */
  lemma TallyFromZero3(ts: seq<T3>, n: nat, l: int)
    requires NoDup(ts) && 0 <= l < n
    ensures Tally3(Zeros(n), ts)[l] == OccIn3(Elems(ts), l) % COUNT_MODULUS
  {
    var z := Zeros(n);
    TallyValue3(z, ts, l);
    assert z[l] == 0;
    SeqOccIsOcc3(ts, l);
  }

  /** Erasing a present triple and decrementing its counters keeps one
      level's counter matched. */
  lemma DropStep3(v: set<T3>, before: seq<Word>, x: T3, l: int)
    requires x in v && Below3(x, |before|) && 0 <= l < |before|
    requires before[l] == OccIn3(v, l) % COUNT_MODULUS
    ensures Drop3(before, x)[l] == OccIn3(v - {x}, l) % COUNT_MODULUS
  {
    DropValue3(before, x, l);
    OccRemove3(v, x, l);
    ModStep(before[l], OccIn3(v, l), -(Occ3(x, l) as int), Drop3(before, x)[l]);
  }

  /** AddToT3TestSuite preserves the invariant: after erasing ts the
      counters match the set with ts's triples removed. */
  lemma {:induction false} ErasePreservesMatch3(u: set<T3>, cs: seq<Word>, ts: seq<T3>)
    requires CountsMatch3(u, cs)
    ensures CountsMatch3(u - Elems(ts), Erased3(u, cs, ts))
    decreases |ts|
  {
    if ts == [] {
      assert u - Elems(ts) == u;
    } else {
      var init, x := ts[..|ts| - 1], ts[|ts| - 1];
      ErasePreservesMatch3(u, cs, init);
      var v, before := u - Elems(init), Erased3(u, cs, init);
      assert ts == init + [x];
      ElemsSnoc(init, x);
      assert u - Elems(ts) == v - {x};
      if x in u && x !in init {
        assert x in v;
        forall l | 0 <= l < |cs|
          ensures Drop3(before, x)[l] == OccIn3(v - {x}, l) % COUNT_MODULUS
        {
          DropStep3(v, before, x, l);
        }
      } else {
        assert v - {x} == v;
      }
    }
  }

  /** Erasing tuples none of which is present changes no counter (a row
      added a second time erases nothing). */
  lemma {:induction false} EraseNothing3(u: set<T3>, cs: seq<Word>, ts: seq<T3>)
    requires forall t :: t in u ==> Below3(t, |cs|)
    requires forall i :: 0 <= i < |ts| ==> ts[i] !in u
    ensures Erased3(u, cs, ts) == cs && u - Elems(ts) == u
    decreases |ts|
  {
    if ts != [] {
      EraseNothing3(u, cs, ts[..|ts| - 1]);
    }
  }

  /** While no level's occurrences reach 2^16 the counters are exact, so
      a nonempty set shows a positive counter. */
  lemma PositiveCount3(u: set<T3>, cs: seq<Word>)
    requires CountsMatch3(u, cs) && u != {}
    requires forall l :: 0 <= l < |cs| ==> OccIn3(u, l) < COUNT_MODULUS
    ensures exists l :: 0 <= l < |cs| && cs[l] > 0
  {
    var t :| t in u;
    OccOfMember3(u, t);
    assert cs[t.a] > 0;
  }
}
