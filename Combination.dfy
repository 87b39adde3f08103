// The lexicographic "next combination" successor over strictly increasing
// index subsets, and the theory that says what it enumerates.

module Combination {
  import opened MathUtility
  import opened Collections

  /** s is a strictly increasing sequence of indices drawn from [0, n). */
  ghost predicate IsCombination(s: seq<int>, n: nat)
  {
    && (forall i :: 0 <= i < |s| ==> 0 <= s[i] < n)
    && (forall i, j :: 0 <= i < j < |s| ==> s[i] < s[j])
  }

  /** [x, x + 1, ..., x + m - 1] */
  function Run(x: int, m: nat): (s: seq<int>)
    ensures |s| == m && forall i :: 0 <= i < m ==> s[i] == x + i
  {
    seq(m, i => x + i)
  }

  /** The lexicographically first subset of size r: [0, ..., r - 1]. */
  function First(r: nat): seq<int>
  {
    Run(0, r)
  }

  /** s is the lexicographically last subset of its size: [n - r, ..., n - 1]. */
  ghost predicate IsLast(s: seq<int>, n: nat)
  {
    |s| <= n && s == Run(n - |s|, |s|)
  }

  /** Strict lexicographic order, compared from the front. */
  ghost predicate LexLess(s: seq<int>, t: seq<int>)
    decreases |s|
  {
    && |s| > 0 && |t| > 0
    && (s[0] < t[0] || (s[0] == t[0] && LexLess(s[1..], t[1..])))
  }

  /** Every element after an increment by one (what NextCombination leaves
      behind when it reports exhaustion). */
  function Bumped(s: seq<int>): (t: seq<int>)
    ensures |t| == |s| && forall i :: 0 <= i < |s| ==> t[i] == s[i] + 1
  {
    seq(|s|, i requires 0 <= i < |s| => s[i] + 1)
  }

  /** The lexicographic successor of a subset that is not the last one:
      advance the rightmost element that can still advance and make the
      elements after it consecutive. */
  ghost function Succ(s: seq<int>, n: nat): (t: seq<int>)
    requires IsCombination(s, n) && !IsLast(s, n)
    ensures |t| == |s|
    decreases |s|
  {
    CombinationBounds(s, n);
    var tail := s[1..];
    if !IsLast(tail, n) then [s[0]] + Succ(tail, n) else Run(s[0] + 1, |s|)
  }

  // ---------------------------------------------------------------------
  // Elementary facts about subsets

  lemma {:induction false} Gap(s: seq<int>, n: nat, i: int, j: int)
    requires IsCombination(s, n) && 0 <= i <= j < |s|
    ensures s[j] - s[i] >= j - i
    decreases j - i
  {
    if i < j {
      Gap(s, n, i, j - 1);
    }
  }

  /** Position i of a size-r subset of [0, n) holds a value in [i, n - r + i];
      in particular r <= n. */
  lemma CombinationBounds(s: seq<int>, n: nat)
    requires IsCombination(s, n)
    ensures |s| <= n
    ensures forall i :: 0 <= i < |s| ==> i <= s[i] <= n - |s| + i
  {
    forall i | 0 <= i < |s|
      ensures i <= s[i] <= n - |s| + i
    {
      Gap(s, n, 0, i);
      Gap(s, n, i, |s| - 1);
    }
    if |s| > 0 {
      Gap(s, n, 0, |s| - 1);
    }
  }

  /** Three increasing indices below n form a subset of size three. */
  lemma TripleIsCombination(i: int, j: int, m: int, n: nat)
    requires 0 <= i < j < m < n
    ensures IsCombination([i, j, m], n)
  {
    var c := [i, j, m];
    assert c[0] == i && c[1] == j && c[2] == m;
  }

  lemma TailIsCombination(s: seq<int>, n: nat)
    requires IsCombination(s, n) && |s| > 0
    ensures IsCombination(s[1..], n)
  {
  }

  lemma IsLastAt(s: seq<int>, n: nat)
    requires |s| <= n
    ensures IsLast(s, n) <==> forall i :: 0 <= i < |s| ==> s[i] == n - |s| + i
  {
  }

  // ---------------------------------------------------------------------
  // The lexicographic order

  lemma {:induction false} LexIrreflexive(s: seq<int>)
    ensures !LexLess(s, s)
    decreases |s|
  {
    if |s| > 0 {
      LexIrreflexive(s[1..]);
    }
  }

  lemma {:induction false} LexTransitive(s: seq<int>, t: seq<int>, u: seq<int>)
    requires LexLess(s, t) && LexLess(t, u)
    ensures LexLess(s, u)
    decreases |s|
  {
    if s[0] == t[0] && t[0] == u[0] {
      LexTransitive(s[1..], t[1..], u[1..]);
    }
  }

  lemma {:induction false} LexTotal(s: seq<int>, t: seq<int>)
    requires |s| == |t|
    ensures s == t || LexLess(s, t) || LexLess(t, s)
    decreases |s|
  {
    if |s| > 0 && s[0] == t[0] {
      LexTotal(s[1..], t[1..]);
      if s[1..] == t[1..] {
        assert s == [s[0]] + s[1..] && t == [t[0]] + t[1..];
      }
    }
  }

  lemma LexAsymmetric(s: seq<int>, t: seq<int>)
    requires LexLess(s, t)
    ensures !LexLess(t, s) && s != t
  {
    if LexLess(t, s) {
      LexTransitive(s, t, s);
      LexIrreflexive(s);
    }
    LexIrreflexive(s);
  }

  /** A sequence that is pointwise at most another of the same length is
      lexicographically at most it. */
  lemma {:induction false} PointwiseLexLe(s: seq<int>, t: seq<int>)
    requires |s| == |t| && forall i :: 0 <= i < |s| ==> s[i] <= t[i]
    ensures s == t || LexLess(s, t)
    decreases |s|
  {
    if |s| > 0 && s[0] == t[0] {
      PointwiseLexLe(s[1..], t[1..]);
      if s[1..] == t[1..] {
        assert s == [s[0]] + s[1..] && t == [t[0]] + t[1..];
      }
    }
  }

  /** The last subset is the maximum: no subset of its size lies above it. */
  lemma LastIsMaximum(s: seq<int>, t: seq<int>, n: nat)
    requires IsLast(s, n) && IsCombination(t, n) && |t| == |s|
    ensures !LexLess(s, t)
  {
    CombinationBounds(t, n);
    PointwiseLexLe(t, s);
    if t != s {
      LexAsymmetric(t, s);
    } else {
      LexIrreflexive(s);
    }
  }

  /** [x, ..., x + m - 1] is the least increasing sequence of length m
      whose elements are all at least x. */
  lemma {:induction false} RunIsMinimum(x: int, t: seq<int>, n: nat)
    requires IsCombination(t, n) && forall i :: 0 <= i < |t| ==> t[i] >= x
    ensures Run(x, |t|) == t || LexLess(Run(x, |t|), t)
    decreases |t|
  {
    if |t| > 0 && t[0] == x {
      var tail := t[1..];
      assert forall i :: 0 <= i < |tail| ==> tail[i] >= x + 1 by {
        forall i | 0 <= i < |tail| ensures tail[i] >= x + 1 {
          assert tail[i] == t[i + 1] > t[0];
        }
      }
      RunIsMinimum(x + 1, tail, n);
      assert Run(x, |t|)[1..] == Run(x + 1, |tail|);
      if Run(x + 1, |tail|) == tail {
        assert Run(x, |t|) == [x] + Run(x + 1, |tail|);
        assert t == [t[0]] + tail;
      }
    }
  }

  // ---------------------------------------------------------------------
  // The successor

  /** Succ yields a subset of the same size whose first element is not
      below the original's. */
  lemma {:induction false} SuccIsCombination(s: seq<int>, n: nat)
    requires IsCombination(s, n) && !IsLast(s, n)
    ensures IsCombination(Succ(s, n), n) && Succ(s, n)[0] >= s[0]
    decreases |s|
  {
    CombinationBounds(s, n);
    var tail := s[1..];
    if !IsLast(tail, n) {
      SuccIsCombination(tail, n);
      SuccUnfoldHead(s, n);
      var st := Succ(tail, n);
      assert st[0] >= tail[0] > s[0];
      ConsIsCombination(s[0], st, n);
    } else {
      IsLastAt(tail, n);
      IsLastAt(s, n);
      assert s[0] + |s| <= n;
      assert Succ(s, n) == Run(s[0] + 1, |s|);
      RunIsCombination(s[0] + 1, |s|, n);
    }
  }

  /** A value below the head of a subset extends it to a subset. */
  lemma ConsIsCombination(x: int, st: seq<int>, n: nat)
    requires IsCombination(st, n) && |st| > 0 && 0 <= x < st[0]
    ensures IsCombination([x] + st, n)
  {
    var t := [x] + st;
    forall i, j | 0 <= i < j < |t|
      ensures t[i] < t[j]
    {
      if i > 0 {
        assert t[i] == st[i - 1] && t[j] == st[j - 1];
      } else {
        assert t[j] == st[j - 1];
        assert st[0] <= st[j - 1] by {
          if j - 1 > 0 {
            assert st[0] < st[j - 1];
          }
        }
      }
    }
  }

  /** A run that fits below n is a subset. */
  lemma RunIsCombination(x: int, m: nat, n: nat)
    requires 0 <= x && x + m <= n
    ensures IsCombination(Run(x, m), n)
  {
  }

  lemma {:induction false} SuccIsGreater(s: seq<int>, n: nat)
    requires IsCombination(s, n) && !IsLast(s, n)
    ensures LexLess(s, Succ(s, n))
    decreases |s|
  {
    CombinationBounds(s, n);
    var tail := s[1..];
    if !IsLast(tail, n) {
      SuccIsGreater(tail, n);
      assert Succ(s, n)[1..] == Succ(tail, n);
    }
  }

  /** No subset lies strictly between s and Succ(s). */
  lemma {:induction false} SuccIsNext(s: seq<int>, t: seq<int>, n: nat)
    requires IsCombination(s, n) && !IsLast(s, n)
    requires IsCombination(t, n) && |t| == |s| && LexLess(s, t)
    ensures Succ(s, n) == t || LexLess(Succ(s, n), t)
    decreases |s|
  {
    CombinationBounds(s, n);
    var tail := s[1..];
    if !IsLast(tail, n) {
      var u := Succ(s, n);
      assert u == [s[0]] + Succ(tail, n);
      if s[0] == t[0] {
        SuccIsNext(tail, t[1..], n);
        if Succ(tail, n) == t[1..] {
          assert t == [t[0]] + t[1..];
        } else {
          assert u[1..] == Succ(tail, n);
        }
      }
    } else {
      SuccIsNextBump(s, t, n);
    }
  }

  /** SuccIsNext when only the first element can advance: the successor is
      the run that starts one above it. */
  lemma SuccIsNextBump(s: seq<int>, t: seq<int>, n: nat)
    requires IsCombination(s, n) && !IsLast(s, n) && |s| > 0 && IsLast(s[1..], n)
    requires IsCombination(t, n) && |t| == |s| && LexLess(s, t)
    ensures Succ(s, n) == t || LexLess(Succ(s, n), t)
  {
    CombinationBounds(s, n);
    var tail := s[1..];
    var r := |s|;
    if s[0] == t[0] {
      LastIsMaximum(tail, t[1..], n);
      assert false;
    }
    var u := Run(s[0] + 1, r);
    assert Succ(s, n) == u;
    if t[0] == s[0] + 1 {
      var tt := t[1..];
      assert forall i :: 0 <= i < |tt| ==> tt[i] >= s[0] + 2 by {
        forall i | 0 <= i < |tt| ensures tt[i] >= s[0] + 2 {
          assert tt[i] == t[i + 1] > t[0];
        }
      }
      RunIsMinimum(s[0] + 2, tt, n);
      RunTail(s[0] + 1, r);
      if Run(s[0] + 2, |tt|) == tt {
        assert u == [u[0]] + u[1..] && t == [t[0]] + tt;
      }
    }
  }

  lemma RunTail(x: int, m: nat)
    requires m > 0
    ensures Run(x, m)[1..] == Run(x + 1, m - 1)
  {
  }

  /** The successor written out at its pivot i: the elements after i are
      all at their maxima and s[i] can still advance. */
  lemma {:induction false} SuccAtPivot(s: seq<int>, n: nat, i: int)
    requires IsCombination(s, n) && 0 <= i < |s| && s[i] < n - |s| + i
    requires forall j :: i < j < |s| ==> s[j] == n - |s| + j
    ensures !IsLast(s, n)
    ensures Succ(s, n) == s[..i] + Run(s[i] + 1, |s| - i)
    decreases i
  {
    CombinationBounds(s, n);
    IsLastAt(s, n);
    var tail := s[1..];
    var r := |s|;
    if i == 0 {
      IsLastAt(tail, n);
      assert IsLast(tail, n) by {
        forall j | 0 <= j < |tail| ensures tail[j] == n - |tail| + j {
          assert tail[j] == s[j + 1];
        }
      }
      assert Succ(s, n) == Run(s[0] + 1, r);
      assert s[..0] + Run(s[0] + 1, r) == Run(s[0] + 1, r);
    } else {
      assert tail[i - 1] == s[i];
      SuccAtPivot(tail, n, i - 1);
      SuccUnfoldHead(s, n);
      ConsPrefix(s, i, Run(s[i] + 1, r - i));
    }
  }

  /** While the tail can still advance, Succ keeps the head. */
  lemma SuccUnfoldHead(s: seq<int>, n: nat)
    requires IsCombination(s, n) && |s| > 0 && !IsLast(s[1..], n)
    ensures !IsLast(s, n) && Succ(s, n) == [s[0]] + Succ(s[1..], n)
  {
    CombinationBounds(s, n);
  }

  lemma ConsPrefix(s: seq<int>, i: nat, rest: seq<int>)
    requires 0 < i <= |s|
    ensures [s[0]] + (s[1..][..i - 1] + rest) == s[..i] + rest
  {
    assert s[..i] == [s[0]] + s[1..][..i - 1];
  }

  /** When no element can advance the subset is the last one. */
  lemma NoPivotIsLast(s: seq<int>, n: nat)
    requires IsCombination(s, n) && forall j :: 0 <= j < |s| ==> s[j] == n - |s| + j
    ensures IsLast(s, n)
  {
    CombinationBounds(s, n);
    IsLastAt(s, n);
  }

  // ---------------------------------------------------------------------
  // The set of all subsets and the enumeration by successors

  /** All size-r subsets of [0, n), by Pascal's rule: those avoiding n - 1,
      and those ending in n - 1. */
  ghost function Combos(n: nat, r: nat): set<seq<int>>
  {
    if r == 0 then {[]}
    else if n == 0 then {}
    else Combos(n - 1, r) + Extended(Combos(n - 1, r - 1), n - 1)
  }

  /** Each sequence of a set with x appended. */
  ghost function Extended(a: set<seq<int>>, x: int): set<seq<int>>
  {
    set p | p in a :: Append(p, x)
  }

  function Append(p: seq<int>, x: int): seq<int>
  {
    p + [x]
  }

  lemma {:induction false} CombosMembers(n: nat, r: nat, t: seq<int>)
    ensures t in Combos(n, r) <==> |t| == r && IsCombination(t, n)
    decreases n
  {
    if r == 0 {
    } else if n == 0 {
      NothingFromEmpty(t);
    } else {
      CombosUnfold(n, r);
      if |t| == r && IsCombination(t, n) {
        CombinationIsListed(n, r, t);
      }
      if t in Combos(n, r) {
        ListedIsCombination(n, r, t);
      }
    }
  }

  /** The inductive step of CombosMembers from the subset to the set. */
  lemma {:induction false} CombinationIsListed(n: nat, r: nat, t: seq<int>)
    requires n > 0 && r > 0 && |t| == r && IsCombination(t, n)
    ensures t in Combos(n, r)
    decreases n, 0
  {
    CombosUnfold(n, r);
    var last := t[r - 1];
    if last == n - 1 {
      var p := t[..r - 1];
      assert IsCombination(p, n - 1) by {
        forall i | 0 <= i < r - 1 ensures p[i] < n - 1 {
          assert p[i] == t[i] < t[r - 1];
        }
      }
      CombosMembers(n - 1, r - 1, p);
      assert t == Append(p, n - 1);
      ExtendedMember(Combos(n - 1, r - 1), n - 1, p);
    } else {
      assert IsCombination(t, n - 1) by {
        forall i | 0 <= i < r ensures t[i] < n - 1 {
          assert t[i] <= last;
        }
      }
      CombosMembers(n - 1, r, t);
    }
  }

  /** The inductive step of CombosMembers from the set to the subset. */
  lemma {:induction false} ListedIsCombination(n: nat, r: nat, t: seq<int>)
    requires n > 0 && r > 0 && t in Combos(n, r)
    ensures |t| == r && IsCombination(t, n)
    decreases n, 0
  {
    CombosUnfold(n, r);
    if t in Combos(n - 1, r) {
      CombosMembers(n - 1, r, t);
    } else {
      var p := ExtendedWitness(Combos(n - 1, r - 1), n - 1, t);
      CombosMembers(n - 1, r - 1, p);
      AppendIsCombination(p, n);
    }
  }

  lemma ExtendedMember(a: set<seq<int>>, x: int, p: seq<int>)
    requires p in a
    ensures Append(p, x) in Extended(a, x)
  {
  }

  lemma ExtendedWitness(a: set<seq<int>>, x: int, t: seq<int>) returns (p: seq<int>)
    requires t in Extended(a, x)
    ensures p in a && t == Append(p, x)
  {
    p :| p in a && t == Append(p, x);
  }

  /** A subset of [0, n - 1) followed by n - 1 is a subset of [0, n). */
  lemma AppendIsCombination(p: seq<int>, n: nat)
    requires n > 0 && IsCombination(p, n - 1)
    ensures IsCombination(Append(p, n - 1), n)
  {
    var t := Append(p, n - 1);
    forall i | 0 <= i < |p| ensures t[i] == p[i] {}
  }

  lemma NothingFromEmpty(t: seq<int>)
    ensures IsCombination(t, 0) ==> t == []
  {
    if |t| > 0 {
      assert !(0 <= t[0] < 0);
    }
  }

  lemma AppendInjective(p: seq<int>, q: seq<int>, x: int)
    ensures Append(p, x) == Append(q, x) ==> p == q
  {
    if Append(p, x) == Append(q, x) {
      assert p == Append(p, x)[..|p|];
      assert q == Append(q, x)[..|q|];
    }
  }

  /** Appending a fixed element is injective, so it keeps the size of a set. */
  lemma {:induction false} ExtendedCard(a: set<seq<int>>, x: int)
    ensures |Extended(a, x)| == |a|
    decreases |a|
  {
    if a != {} {
      var q :| q in a;
      ExtendedCard(a - {q}, x);
      forall p | p in a - {q}
        ensures Append(p, x) != Append(q, x)
      {
        AppendInjective(p, q, x);
      }
      assert Extended(a, x) == Extended(a - {q}, x) + {Append(q, x)};
    }
  }

  /** There are exactly C(n, r) subsets of size r. */
  lemma {:induction false} CombosCount(n: nat, r: nat)
    ensures |Combos(n, r)| == Binomial(n, r)
    decreases n, 1
  {
    if r == 0 {
      CountNoneChosen(n);
    } else if n == 0 {
      CountFromEmpty(r);
    } else {
      var m, q := n - 1, r - 1;
      assert m + 1 == n && q + 1 == r;
      CountPascal(m, q);
    }
  }

  lemma CountNoneChosen(n: nat)
    ensures |Combos(n, 0)| == Binomial(n, 0)
  {
    assert Combos(n, 0) == {[]};
  }

  lemma CountFromEmpty(r: nat)
    requires r > 0
    ensures |Combos(0, r)| == Binomial(0, r)
  {
    assert Combos(0, r) == {};
  }

  lemma {:induction false} CountPascal(m: nat, q: nat)
    ensures |Combos(m + 1, q + 1)| == Binomial(m + 1, q + 1)
    decreases m + 1, 0
  {
    CombosCount(m, q + 1);
    CombosCount(m, q);
    PascalCard(m, q);
  }

  /** Pascal's rule on the sets themselves. */
  lemma PascalCard(m: nat, q: nat)
    ensures |Combos(m + 1, q + 1)| == |Combos(m, q + 1)| + |Combos(m, q)|
  {
    var avoiding, ending := Combos(m, q + 1), Extended(Combos(m, q), m);
    PascalUnfold(m, q);
    CombosSplitDisjoint(m + 1, q + 1);
    ExtendedCard(Combos(m, q), m);
    CardSum(Combos(m + 1, q + 1), avoiding, ending, Combos(m, q));
  }

  lemma PascalUnfold(m: nat, q: nat)
    ensures Combos(m + 1, q + 1) == Combos(m, q + 1) + Extended(Combos(m, q), m)
  {
  }

  lemma CombosUnfold(n: nat, r: nat)
    requires n > 0 && r > 0
    ensures Combos(n, r) == Combos(n - 1, r) + Extended(Combos(n - 1, r - 1), n - 1)
  {
  }

  lemma CardSum<T>(a: set<T>, b: set<T>, c: set<T>, d: set<T>)
    requires a == b + c && b * c == {} && |c| == |d|
    ensures |a| == |b| + |d|
  {
    DisjointUnionCard(b, c);
  }

  lemma DisjointUnionCard<T>(a: set<T>, b: set<T>)
    requires a * b == {}
    ensures |a + b| == |a| + |b|
  {
  }

  /** The two halves of Pascal's rule share no subset: one avoids n - 1,
      the other ends in it. */
  lemma CombosSplitDisjoint(n: nat, r: nat)
    requires n > 0 && r > 0
    ensures Combos(n - 1, r) * Extended(Combos(n - 1, r - 1), n - 1) == {}
  {
    var ending := Extended(Combos(n - 1, r - 1), n - 1);
    forall t | t in ending
      ensures t !in Combos(n - 1, r)
    {
      var p :| p in Combos(n - 1, r - 1) && t == Append(p, n - 1);
      assert t[|t| - 1] == n - 1;
      CombosMembers(n - 1, r, t);
    }
  }

  /** The subsets of the same size lying strictly above s. */
  ghost function Above(s: seq<int>, n: nat): set<seq<int>>
  {
    set t | t in Combos(n, |s|) && LexLess(s, t)
  }

  lemma SuccShrinksAbove(s: seq<int>, n: nat)
    requires IsCombination(s, n) && !IsLast(s, n)
    ensures Above(Succ(s, n), n) < Above(s, n)
    ensures |Above(Succ(s, n), n)| < |Above(s, n)|
  {
    var u := Succ(s, n);
    SuccIsCombination(s, n);
    SuccIsGreater(s, n);
    CombosMembers(n, |s|, u);
    forall t | t in Above(u, n)
      ensures t in Above(s, n)
    {
      LexTransitive(s, u, t);
    }
    LexIrreflexive(u);
    assert u in Above(s, n) - Above(u, n);
    var small, big := Above(u, n), Above(s, n);
    assert big == small + (big - small);
    assert small * (big - small) == {};
  }

  /** The subsets NextCombination visits starting from s, in order: s, then
      its successors, ending with the last subset. */
  ghost function LexFrom(s: seq<int>, n: nat): (e: seq<seq<int>>)
    requires IsCombination(s, n)
    ensures |e| >= 1 && e[0] == s
    decreases |Above(s, n)|
  {
    if IsLast(s, n) then [s]
    else
      SuccShrinksAbove(s, n);
      SuccIsCombination(s, n);
      [s] + LexFrom(Succ(s, n), n)
  }

  /** LexFrom unfolded once. */
  lemma LexFromUnfold(c: seq<int>, n: nat)
    requires IsCombination(c, n)
    ensures IsLast(c, n) ==> LexFrom(c, n) == [c]
    ensures !IsLast(c, n) ==> IsCombination(Succ(c, n), n) && LexFrom(c, n) == [c] + LexFrom(Succ(c, n), n)
  {
    if !IsLast(c, n) {
      SuccIsCombination(c, n);
    }
  }

  /** A sequence split as done + rest, with rest non-empty, continues
      after done with rest's head and then rest's tail. */
  lemma SplitAfter<T>(all: seq<T>, done: seq<T>, rest: seq<T>)
    requires done + rest == all && |rest| >= 1
    ensures |done| < |all| && all[|done|] == rest[0]
    ensures all[|done| + 1..] == rest[1..] && all == (done + [rest[0]]) + all[|done| + 1..]
  {
    assert all[|done| + 1..] == rest[1..];
  }

  /** One step of a walk over LexFrom(s0, n) that has visited done and
      stands at c: NextCombination either moves to the next unvisited
      subset, or reports that c was the last one. */
  lemma WalkStep(all: seq<seq<int>>, done: seq<seq<int>>, c: seq<int>, n: nat, more: bool, next: seq<int>)
    requires IsCombination(c, n) && done + LexFrom(c, n) == all
    requires more <==> !IsLast(c, n)
    requires more ==> next == Succ(c, n)
    ensures |done| < |all| && all[|done|] == c && all == (done + [c]) + all[|done| + 1..]
    ensures more ==> IsCombination(next, n) && (done + [c]) + LexFrom(next, n) == all
    ensures more ==> |LexFrom(next, n)| < |LexFrom(c, n)|
    ensures !more ==> done + [c] == all
  {
    var rest := LexFrom(c, n);
    LexFromUnfold(c, n);
    SplitAfter(all, done, rest);
    if more {
      assert rest[1..] == LexFrom(next, n);
    } else {
      assert rest[1..] == [];
    }
  }

  /** Every visited subset has the size of s, and lies at or above s. */
  lemma {:induction false} LexFromMembers(s: seq<int>, n: nat)
    requires IsCombination(s, n)
    ensures forall i :: 0 <= i < |LexFrom(s, n)| ==>
              IsCombination(LexFrom(s, n)[i], n) && |LexFrom(s, n)[i]| == |s|
              && (i == 0 || LexLess(s, LexFrom(s, n)[i]))
    ensures IsLast(LexFrom(s, n)[|LexFrom(s, n)| - 1], n)
    decreases |Above(s, n)|
  {
    if !IsLast(s, n) {
      var u := Succ(s, n);
      SuccShrinksAbove(s, n);
      SuccIsCombination(s, n);
      SuccIsGreater(s, n);
      LexFromMembers(u, n);
      var e := LexFrom(s, n);
      assert e == [s] + LexFrom(u, n);
      forall i | 0 < i < |e|
        ensures IsCombination(e[i], n) && |e[i]| == |s| && LexLess(s, e[i])
      {
        assert e[i] == LexFrom(u, n)[i - 1];
        if i > 1 {
          LexTransitive(s, u, e[i]);
        }
      }
    }
  }

  /** The visit order is strictly increasing, so no subset is visited twice. */
  lemma {:induction false} LexFromIncreasing(s: seq<int>, n: nat)
    requires IsCombination(s, n)
    ensures forall i, j :: 0 <= i < j < |LexFrom(s, n)| ==>
              LexLess(LexFrom(s, n)[i], LexFrom(s, n)[j])
    decreases |Above(s, n)|
  {
    if !IsLast(s, n) {
      var u := Succ(s, n);
      SuccShrinksAbove(s, n);
      SuccIsCombination(s, n);
      LexFromIncreasing(u, n);
      LexFromMembers(s, n);
      var e := LexFrom(s, n);
      assert e == [s] + LexFrom(u, n);
      forall i, j | 0 <= i < j < |e|
        ensures LexLess(e[i], e[j])
      {
        if i > 0 {
          assert e[i] == LexFrom(u, n)[i - 1] && e[j] == LexFrom(u, n)[j - 1];
        }
      }
    }
  }

  /** Every subset at or above s is visited. */
  lemma {:induction false} LexFromComplete(s: seq<int>, t: seq<int>, n: nat)
    requires IsCombination(s, n) && IsCombination(t, n) && |t| == |s|
    requires s == t || LexLess(s, t)
    ensures t in LexFrom(s, n)
    decreases |Above(s, n)|
  {
    if s != t {
      if IsLast(s, n) {
        LastIsMaximum(s, t, n);
      } else {
        var u := Succ(s, n);
        SuccShrinksAbove(s, n);
        SuccIsCombination(s, n);
        SuccIsNext(s, t, n);
        LexFromComplete(u, t, n);
        assert LexFrom(s, n) == [s] + LexFrom(u, n);
      }
    }
  }

  /** Starting from [0, ..., r - 1], repeated NextCombination visits every
      size-r subset of [0, n) exactly once, in increasing order, and stops at
      the last one: C(n, r) subsets in all. */
  lemma EnumerationIsComplete(n: nat, r: nat)
    requires r <= n
    ensures IsCombination(First(r), n)
    ensures forall t :: t in LexFrom(First(r), n) <==> t in Combos(n, r)
    ensures |LexFrom(First(r), n)| == Binomial(n, r)
  {
    var f := First(r);
    var e := LexFrom(f, n);
    LexFromMembers(f, n);
    LexFromIncreasing(f, n);
    forall t | t in Combos(n, r)
      ensures t in e
    {
      CombosMembers(n, r, t);
      RunIsMinimum(0, t, n);
      LexFromComplete(f, t, n);
    }
    forall t | t in e
      ensures t in Combos(n, r)
    {
      CombosMembers(n, r, t);
    }
    forall i, j | 0 <= i < j < |e|
      ensures e[i] != e[j]
    {
      LexAsymmetric(e[i], e[j]);
    }
    DistinctCard(e);
    assert Elems(e) == Combos(n, r);
    CombosCount(n, r);
  }

  // ---------------------------------------------------------------------
  // The in-place successor routine

  /** NextCombination (unsigned short cells). Scans from the right; each
      visited cell is incremented; at the first cell that stays within its
      bound the cells after it are made consecutive and true is returned.
      When no cell qualifies every cell has been incremented once and false
      is returned. The set size is a 16-bit factor count, so no cell
      overflows. */
  method NextCombination(a: array<int>, n: nat) returns (more: bool)
    requires IsCombination(a[..], n) && a.Length <= n <= 0xFFFF
    modifies a
    ensures more <==> !IsLast(old(a[..]), n)
    ensures more ==> a[..] == Succ(old(a[..]), n)
    ensures !more ==> a[..] == Bumped(old(a[..]))
  {
    ghost var s := a[..];
    CombinationBounds(s, n);
    var r := a.Length;
    var i := r;
    while i > 0
      invariant 0 <= i <= r
      invariant forall j :: 0 <= j < i ==> a[j] == s[j]
      invariant forall j :: i <= j < r ==> s[j] == n - r + j && a[j] == s[j] + 1
    {
      i := i - 1;
      a[i] := a[i] + 1;
      if a[i] <= n - (r - i) {
        assert a[..i] == s[..i];
        SuccAtPivot(s, n, i);
        MakeConsecutive(a, i);
        return true;
      }
    }
    NoPivotIsLast(s, n);
    assert a[..] == Bumped(s);
    return false;
  }

  /** The cells after position i are made consecutive from a[i] on: the
      tail step of NextCombination once its pivot has advanced. */
  method MakeConsecutive(a: array<int>, i: int)
    requires 0 <= i < a.Length
    modifies a
    ensures a[..] == old(a[..i]) + Run(old(a[i]), a.Length - i)
  {
    var k := i + 1;
    while k < a.Length
      invariant i + 1 <= k <= a.Length
      invariant forall j :: 0 <= j <= i ==> a[j] == old(a[j])
      invariant forall j :: i <= j < k ==> a[j] == old(a[i]) + (j - i)
    {
      a[k] := a[k - 1] + 1;
      k := k + 1;
    }
  }

  /** The BYTE overload: the same steps on 8-bit cells, for sets of at
      most 255 elements. */
  method NextCombinationBytes(a: array<int>, n: nat) returns (more: bool)
    requires IsCombination(a[..], n) && a.Length <= n <= 0xFF
    modifies a
    ensures more <==> !IsLast(old(a[..]), n)
    ensures more ==> a[..] == Succ(old(a[..]), n)
    ensures !more ==> a[..] == Bumped(old(a[..]))
  {
    more := NextCombination(a, n);
  }
}
