// Counting primitives: factorial, the binomial coefficient, the memoised
// Pascal-triangle table and the iterative binomial routine.

module MathUtility {
  import opened CommonDef

  /** n!, by the recursion the source uses: 1 below 2, n * (n-1)! otherwise. */
  function Factorial(n: nat): (r: nat)
    ensures r >= 1
    ensures r >= n
  {
    if n < 2 then 1 else Factorial(n - 1) * n
  }

  /** The binomial coefficient C(n, r) by Pascal's rule; zero when r > n. */
  function Binomial(n: nat, r: nat): nat
  {
    if r == 0 then 1
    else if n == 0 then 0
    else Binomial(n - 1, r - 1) + Binomial(n - 1, r)
  }

  lemma {:induction false} BinomialAboveIsZero(n: nat, r: nat)
    requires r > n
    ensures Binomial(n, r) == 0
  {
    if n > 0 {
      BinomialAboveIsZero(n - 1, r - 1);
      BinomialAboveIsZero(n - 1, r);
    }
  }

  lemma {:induction false} BinomialDiagonal(n: nat)
    ensures Binomial(n, n) == 1
  {
    if n > 0 {
      BinomialDiagonal(n - 1);
      BinomialAboveIsZero(n - 1, n);
    }
  }

  /** Every coefficient inside the triangle is positive. */
  lemma {:induction false} BinomialPositive(n: nat, r: nat)
    requires r <= n
    ensures Binomial(n, r) >= 1
  {
    if r > 0 && r < n {
      BinomialPositive(n - 1, r - 1);
    } else if r == n {
      BinomialDiagonal(n);
    }
  }

  /** The closed form: C(n, r) * r! * (n - r)! == n!. */
  lemma {:induction false} BinomialFactorial(n: nat, r: nat)
    requires r <= n
    ensures Binomial(n, r) * Factorial(r) * Factorial(n - r) == Factorial(n)
  {
    if r == 0 {
    } else if r == n {
      BinomialDiagonal(n);
    } else {
      BinomialFactorial(n - 1, r - 1);
      BinomialFactorial(n - 1, r);
      assert Factorial(r) == Factorial(r - 1) * r;
      assert Factorial(n - r) == Factorial(n - r - 1) * (n - r);
      assert Factorial(n) == Factorial(n - 1) * n;
      PascalFactorialStep(Binomial(n - 1, r - 1), Binomial(n - 1, r), Factorial(r - 1),
                          Factorial(n - r - 1), r, n - r, Factorial(n - 1));
    }
  }

  lemma PascalFactorialStep(a: int, b: int, fr1: int, fnr1: int, r: int, m: int, f: int)
    requires a * fr1 * (fnr1 * m) == f
    requires b * (fr1 * r) * fnr1 == f
    ensures (a + b) * (fr1 * r) * (fnr1 * m) == f * (r + m)
  {
    assert a * (fr1 * r) * (fnr1 * m) == r * (a * fr1 * (fnr1 * m));
    assert b * (fr1 * r) * (fnr1 * m) == m * (b * (fr1 * r) * fnr1);
  }

  /** The step the iterative routine relies on:
      C(n, i) * i == C(n, i - 1) * (n - i + 1). */
  lemma BinomialStep(n: nat, i: nat)
    requires 1 <= i <= n
    ensures Binomial(n, i) * i == Binomial(n, i - 1) * (n - i + 1)
  {
    BinomialFactorial(n, i);
    BinomialFactorial(n, i - 1);
    assert Factorial(i) == Factorial(i - 1) * i;
    assert Factorial(n - (i - 1)) == Factorial(n - i) * (n - i + 1);
    StepArith(Binomial(n, i), Binomial(n, i - 1), Factorial(i - 1), Factorial(n - i),
              i, n - i + 1, Factorial(n));
  }

  lemma StepArith(c1: int, c0: int, fi1: int, fni: int, i: int, m: int, f: int)
    requires c1 * (fi1 * i) * fni == f
    requires c0 * fi1 * (fni * m) == f
    requires fi1 > 0 && fni > 0
    ensures c1 * i == c0 * m
  {
    assert (c1 * i) * (fi1 * fni) == f;
    assert (c0 * m) * (fi1 * fni) == f;
    CancelPositive(c1 * i, c0 * m, fi1 * fni);
  }

  lemma CancelPositive(a: int, b: int, x: int)
    requires x > 0 && a * x == b * x
    ensures a == b
  {
    if a < b {
      MulStrictMono(a, b, x);
    } else if b < a {
      MulStrictMono(b, a, x);
    }
  }

  lemma {:induction false} MulStrictMono(a: int, b: int, x: int)
    requires a < b && x > 0
    ensures a * x < b * x
  {
    if x > 1 {
      MulStrictMono(a, b, x - 1);
      assert a * x == a * (x - 1) + a;
      assert b * x == b * (x - 1) + b;
    }
  }

  lemma MulMono(a: int, b: int, x: int)
    requires a <= b && x > 0
    ensures a * x <= b * x
  {
    if a < b {
      MulStrictMono(a, b, x);
    }
  }

  lemma DivideExact(a: nat, i: nat)
    requires i > 0
    ensures (a * i) / i == a
  {
    var q, r := (a * i) / i, (a * i) % i;
    assert q * i + r == a * i;
    CancelPositive(q * i + r, a * i, 1);
    if q < a {
      MulMono(q + 1, a, i);
    } else if a < q {
      MulMono(a + 1, q, i);
    }
  }

  /** The source's iterative binomial, exactly as written: the loop stops
      one step early, so it returns C(n, t - 1) for 1 <= t <= n. */
  method NChooseT(n: Word, t: Word) returns (result: nat)
    ensures t > n ==> result == 0
    ensures t == 0 ==> result == 1
    ensures 1 <= t <= n ==> result == Binomial(n, t - 1)
  {
    result := 0;
    if t > n {
      return;
    }
    result := 1;
    var i := 1;
    while i < t
      invariant 1 <= i <= (if t == 0 then 1 else t)
      invariant result == Binomial(n, i - 1)
    {
      BinomialStep(n, i);
      result := result * (n - i + 1);
      DivideExact(Binomial(n, i), i);
      result := result / i;
      i := i + 1;
    }
  }

  /** The evident intent of NChooseT: one more iteration (i <= t) gives C(n, t). */
  method NChooseTCorrected(n: Word, t: Word) returns (result: nat)
    ensures result == Binomial(n, t)
  {
    result := 0;
    if t > n {
      BinomialAboveIsZero(n, t);
      return;
    }
    result := 1;
    var i := 1;
    while i <= t
      invariant 1 <= i <= t + 1
      invariant result == Binomial(n, i - 1)
    {
      BinomialStep(n, i);
      result := result * (n - i + 1);
      DivideExact(Binomial(n, i), i);
      result := result / i;
      i := i + 1;
    }
  }

  /** The input that shows the off-by-one: for n = 4, t = 3 the routine as
      written yields C(4, 2) = 6, while C(4, 3) = 4. */
  lemma NChooseTMissesLastFactor()
    ensures Binomial(4, 3 - 1) == 6 && Binomial(4, 3) == 4
  {
  }

  /** The memoised Pascal table N_Choose_R<size>: a size x size table,
      zero-filled at construction; a nonzero entry [i, j] holds C(i, j). */
  class ChooseTable {
    const size: nat
    const data: array2<nat>

    ghost predicate Valid()
      reads this, data
    {
      && data.Length0 == size && data.Length1 == size
      && forall i, j :: 0 <= i < size && 0 <= j < size && data[i, j] != 0 ==>
           j <= i && data[i, j] == Binomial(i, j)
    }

    constructor (sz: nat)
      ensures Valid() && size == sz && fresh(data)
      ensures forall i, j :: 0 <= i < sz && 0 <= j < sz ==> data[i, j] == 0
    {
      size := sz;
      data := new nat[sz, sz]((i, j) => 0);
    }

    /** operator()(N, R): C(N, R) for R <= N < size. An entry once set is
        nonzero and is never changed again. */
    method Choose(n: nat, r: nat) returns (c: nat)
      requires Valid() && r <= n < size
      modifies data
      ensures Valid()
      ensures c == Binomial(n, r) && c >= 1
      ensures forall i, j :: 0 <= i < size && 0 <= j < size && old(data[i, j]) != 0 ==>
                data[i, j] == old(data[i, j])
      decreases n
    {
      if n == r || r == 0 {
        BinomialDiagonal(n);
        return 1;
      } else if data[n, r] != 0 {
        BinomialPositive(n, r);
        return data[n, r];
      } else {
        var a := Choose(n - 1, r - 1);
        var b := Choose(n - 1, r);
        data[n, r] := a + b;
        return data[n, r];
      }
    }
  }
}
