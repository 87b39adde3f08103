// Sequence and set facts shared by the tuple bookkeeping, and the 16-bit
// wrap-around of the per-level counters.

module Collections {
  import opened CommonDef

  /** The elements of a sequence, as a set. */
  function Elems<T>(s: seq<T>): set<T>
  {
    set x | x in s
  }

  /** No element occurs twice. */
  ghost predicate NoDup<T>(s: seq<T>)
  {
    forall i, j :: 0 <= i < j < |s| ==> s[i] != s[j]
  }

  /** A sequence without repetitions has as many distinct elements as
      positions. */
  lemma {:induction false} DistinctCard<T>(s: seq<T>)
    requires NoDup(s)
    ensures |Elems(s)| == |s|
    decreases |s|
  {
    if |s| > 0 {
      var init := s[..|s| - 1];
      assert NoDup(init) by {
        forall i, j | 0 <= i < j < |init| ensures init[i] != init[j] {
          assert init[i] == s[i] && init[j] == s[j];
        }
      }
      DistinctCard(init);
      ElemsSnoc(init, s[|s| - 1]);
      assert s == init + [s[|s| - 1]];
      assert s[|s| - 1] !in init by {
        forall i | 0 <= i < |init| ensures init[i] != s[|s| - 1] {
          assert init[i] == s[i];
        }
      }
    }
  }

  lemma ElemsSnoc<T>(s: seq<T>, x: T)
    ensures Elems(s + [x]) == Elems(s) + {x}
  {
    assert forall y :: y in s + [x] <==> y in s || y == x;
  }

  lemma ElemsAppend<T>(s: seq<T>, t: seq<T>)
    ensures Elems(s + t) == Elems(s) + Elems(t)
  {
    assert forall y :: y in s + t <==> y in s || y in t;
  }

  /** The concatenation of two repetition-free sequences with no element
      in common has no repetitions. */
  lemma NoDupAppend<T>(s: seq<T>, t: seq<T>)
    requires NoDup(s) && NoDup(t)
    requires forall x :: x in s ==> x !in t
    ensures NoDup(s + t)
  {
    var u := s + t;
    forall i, j | 0 <= i < j < |u| ensures u[i] != u[j] {
      if j < |s| {
        assert u[i] == s[i] && u[j] == s[j];
      } else if i >= |s| {
        assert u[i] == t[i - |s|] && u[j] == t[j - |s|];
      } else {
        assert u[i] == s[i] && u[j] == t[j - |s|];
        assert s[i] in s;
      }
    }
  }

  /** A subset is no larger than its superset. */
  lemma SubsetCard<T>(a: set<T>, b: set<T>)
    requires a <= b
    ensures |a| <= |b|
  {
    assert b == a + (b - a);
    assert a * (b - a) == {};
  }

  /** How many positions of ts hold an element of u (duplicates counted
      once per position). */
  function CountIn<T>(ts: seq<T>, u: set<T>): (n: nat)
    ensures n <= |ts|
  {
    if ts == [] then 0
    else CountIn(ts[..|ts| - 1], u) + (if ts[|ts| - 1] in u then 1 else 0)
  }

  lemma {:induction false} CountInAppend<T>(s: seq<T>, t: seq<T>, u: set<T>)
    ensures CountIn(s + t, u) == CountIn(s, u) + CountIn(t, u)
    decreases |t|
  {
    if t != [] {
      var init := t[..|t| - 1];
      CountInAppend(s, init, u);
      assert (s + t)[..|s + t| - 1] == s + init;
      assert (s + t)[|s + t| - 1] == t[|t| - 1];
      assert CountIn(s + t, u) == CountIn(s + init, u) + (if t[|t| - 1] in u then 1 else 0);
    } else {
      assert s + t == s;
    }
  }

  /** The count is positive exactly when some position holds an element
      of u. */
  lemma {:induction false} CountInPositive<T>(ts: seq<T>, u: set<T>)
    ensures CountIn(ts, u) > 0 <==> exists i :: 0 <= i < |ts| && ts[i] in u
    decreases |ts|
  {
    if ts != [] {
      var init := ts[..|ts| - 1];
      CountInPositive(init, u);
      if exists i :: 0 <= i < |init| && init[i] in u {
        var i :| 0 <= i < |init| && init[i] in u;
        assert ts[i] == init[i];
      }
      if exists i :: 0 <= i < |ts| && ts[i] in u {
        var i :| 0 <= i < |ts| && ts[i] in u;
        if i < |init| {
          assert init[i] == ts[i];
        }
      }
    }
  }

  /** The count is at least the number of distinct counted elements. */
  lemma {:induction false} CountInAtLeastDistinct<T>(ts: seq<T>, u: set<T>)
    ensures |Elems(ts) * u| <= CountIn(ts, u)
    decreases |ts|
  {
    if ts != [] {
      var init, x := ts[..|ts| - 1], ts[|ts| - 1];
      CountInAtLeastDistinct(init, u);
      assert ts == init + [x];
      ElemsSnoc(init, x);
      if x in u {
        assert Elems(ts) * u <= (Elems(init) * u) + {x};
        SubsetCard(Elems(ts) * u, (Elems(init) * u) + {x});
      } else {
        assert Elems(ts) * u == Elems(init) * u;
      }
    }
  }

  // ---------------------------------------------------------------------
  // LEVEL_T counters: ++ and -- wrap around modulo 2^16

  const COUNT_MODULUS: int := 0x1_0000

  function Inc(c: Word): (r: Word)
    ensures r == (c + 1) % COUNT_MODULUS
  {
    if c == WORD_MAX then 0 else c + 1
  }

  function Dec(c: Word): (r: Word)
    ensures r == (c - 1) % COUNT_MODULUS
  {
    if c == 0 then WORD_MAX else c - 1
  }

  /** ++ on counter l of cs; an l that does not index cs changes nothing. */
  function IncAt(cs: seq<Word>, l: int): (r: seq<Word>)
    ensures |r| == |cs|
  {
    if 0 <= l < |cs| then cs[l := Inc(cs[l])] else cs
  }

  /** Reducing before adding does not change the residue. */
  lemma ModAdd(x: int, d: int)
    ensures (x % COUNT_MODULUS + d) % COUNT_MODULUS == (x + d) % COUNT_MODULUS
  {
    var q := x / COUNT_MODULUS;
    assert x == q * COUNT_MODULUS + x % COUNT_MODULUS;
    ModShift(x % COUNT_MODULUS + d, q);
  }

  /** A counter that held before modulo 2^16 and then moved by d holds
      before + d modulo 2^16. */
  lemma ModStep(held: int, before: int, d: int, after: int)
    requires held == before % COUNT_MODULUS && after == (held + d) % COUNT_MODULUS
    ensures after == (before + d) % COUNT_MODULUS
  {
    ModAdd(before, d);
  }

  lemma ModShift(y: int, q: int)
    ensures (y + q * COUNT_MODULUS) % COUNT_MODULUS == y % COUNT_MODULUS
  {
    var r := y % COUNT_MODULUS;
    var p := y / COUNT_MODULUS;
    assert y + q * COUNT_MODULUS == (p + q) * COUNT_MODULUS + r;
  }

  /** A row of zero counters. */
  function Zeros(n: nat): (z: seq<Word>)
    ensures |z| == n && forall i :: 0 <= i < n ==> z[i] == 0
  {
    seq(n, _ => 0)
  }
}
