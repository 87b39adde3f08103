// A test case (one row of the covering array): a level per factor,
// LEVEL_INVALID where no level has been chosen yet.

module TestCase {
  import opened CommonDef

  /** The number of entries holding a valid level. */
  function CountValid(s: seq<LevelT>): (n: nat)
    ensures n <= |s|
  {
    if s == [] then 0
    else CountValid(s[..|s| - 1]) + (if IsValidLevel(s[|s| - 1]) then 1 else 0)
  }

  /** A row of sentinels has no valid entry. */
  lemma {:induction false} CountValidOfSentinels(n: nat)
    ensures CountValid(seq(n, _ => LEVEL_INVALID)) == 0
  {
    if n > 0 {
      CountValidOfSentinels(n - 1);
      assert seq(n, _ => LEVEL_INVALID)[..n - 1] == seq(n - 1, _ => LEVEL_INVALID);
    }
  }

  /** Overwriting one entry changes the count by the difference of the
      two entries' validity; in particular a valid level written over a
      sentinel raises it by exactly one. */
  lemma {:induction false} CountValidUpdate(s: seq<LevelT>, p: nat, l: LevelT)
    requires p < |s|
    ensures CountValid(s[p := l]) + (if IsValidLevel(s[p]) then 1 else 0)
            == CountValid(s) + (if IsValidLevel(l) then 1 else 0)
    ensures s[p] == LEVEL_INVALID && IsValidLevel(l) ==> CountValid(s[p := l]) == CountValid(s) + 1
    decreases |s|
  {
    var t := s[p := l];
    if p < |s| - 1 {
      CountValidUpdate(s[..|s| - 1], p, l);
      assert t[..|t| - 1] == s[..|s| - 1][p := l];
    } else {
      assert t[..|t| - 1] == s[..|s| - 1];
    }
  }

  /** The count reaches the row length exactly when every entry is valid. */
  lemma {:induction false} CountValidFull(s: seq<LevelT>)
    ensures CountValid(s) == |s| <==> forall i :: 0 <= i < |s| ==> IsValidLevel(s[i])
    decreases |s|
  {
    if s != [] {
      var init := s[..|s| - 1];
      CountValidFull(init);
      if CountValid(s) == |s| {
        forall i | 0 <= i < |s| ensures IsValidLevel(s[i]) {
          if i < |s| - 1 {
            assert s[i] == init[i];
          }
        }
      }
      if forall i :: 0 <= i < |s| ==> IsValidLevel(s[i]) {
        assert forall i :: 0 <= i < |init| ==> IsValidLevel(init[i]) by {
          forall i | 0 <= i < |init| ensures IsValidLevel(init[i]) {
            assert init[i] == s[i];
          }
        }
      }
    }
  }

  // ---------------------------------------------------------------------
  // Stream output: each level in decimal followed by one space

  function DigitChar(d: nat): char
    requires d < 10
  {
    "0123456789"[d]
  }

  function DigitValue(c: char): nat
  {
    if '0' <= c <= '9' then (c as int - '0' as int) as nat else 0
  }

  /** The decimal digits of n, most significant first. */
  function Digits(n: nat): (s: seq<char>)
    ensures |s| >= 1 && forall i :: 0 <= i < |s| ==> '0' <= s[i] <= '9'
  {
    if n < 10 then [DigitChar(n)] else Digits(n / 10) + [DigitChar(n % 10)]
  }

  /** The value of a digit string. */
  function DecimalValue(s: seq<char>): nat
  {
    if s == [] then 0 else DecimalValue(s[..|s| - 1]) * 10 + DigitValue(s[|s| - 1])
  }

  lemma {:induction false} DecimalRoundTrip(n: nat)
    ensures DecimalValue(Digits(n)) == n
  {
    if n < 10 {
      DigitRoundTrip(n);
    } else {
      var q, d := n / 10, n % 10;
      DecimalRoundTrip(q);
      DigitRoundTrip(d);
      var s := Digits(n);
      assert s == Digits(q) + [DigitChar(d)];
      assert s[..|s| - 1] == Digits(q);
      assert n == q * 10 + d;
    }
  }

  lemma DigitRoundTrip(d: nat)
    requires d < 10
    ensures DigitValue(DigitChar(d)) == d
  {
  }

  /** What operator<< writes for a row. */
  function Format(row: seq<LevelT>): seq<char>
  {
    if row == [] then [] else Digits(row[0]) + " " + Format(row[1..])
  }

  lemma {:induction false} FormatAppend(row: seq<LevelT>, l: LevelT)
    ensures Format(row + [l]) == Format(row) + Digits(l) + " "
    decreases |row|
  {
    if row != [] {
      var tail := row[1..];
      FormatAppend(tail, l);
      assert (row + [l])[0] == row[0] && (row + [l])[1..] == tail + [l];
      var head := Digits(row[0]) + " ";
      calc {
        Format(row + [l]);
        head + Format(tail + [l]);
        head + (Format(tail) + Digits(l) + " ");
        head + Format(tail) + Digits(l) + " ";
      }
    }
  }

  /** The index of the first space, or |s| when there is none. */
  function FirstSpace(s: seq<char>): (i: nat)
    ensures i <= |s|
    ensures forall j :: 0 <= j < i ==> s[j] != ' '
    ensures i < |s| ==> s[i] == ' '
  {
    if s == [] then 0 else if s[0] == ' ' then 0 else 1 + FirstSpace(s[1..])
  }

  /** Reads space-terminated decimal numbers back from a formatted row. */
  function ParseLevels(s: seq<char>): seq<nat>
    decreases |s|
  {
    if s == [] then []
    else
      var i := FirstSpace(s);
      if i == |s| then [DecimalValue(s)] else [DecimalValue(s[..i])] + ParseLevels(s[i + 1..])
  }

  /** Formatting loses nothing: the written levels read back as the row. */
  lemma {:induction false} FormatRoundTrip(row: seq<LevelT>)
    ensures ParseLevels(Format(row)) == row
    decreases |row|
  {
    if row != [] {
      var d := Digits(row[0]);
      var s := Format(row);
      assert s == d + [' '] + Format(row[1..]);
      FirstSpaceAfterDigits(d, Format(row[1..]));
      assert s[..|d|] == d;
      assert s[|d| + 1..] == Format(row[1..]);
      DecimalRoundTrip(row[0]);
      FormatRoundTrip(row[1..]);
      assert row == [row[0]] + row[1..];
    }
  }

  lemma FirstSpaceAfterDigits(d: seq<char>, rest: seq<char>)
    requires forall i :: 0 <= i < |d| ==> '0' <= d[i] <= '9'
    ensures FirstSpace(d + [' '] + rest) == |d|
  {
    var s := d + [' '] + rest;
    assert s[|d|] == ' ';
    assert forall j :: 0 <= j < |d| ==> s[j] == d[j];
  }

  /** CTestCase: the row's levels, indexed by factor. */
  class TestCase {
    var data: seq<LevelT>

    /** A new test case is empty. */
    constructor ()
      ensures data == []
    {
      data := [];
    }

    /** Copy construction yields an equal level sequence. */
    constructor Copy(o: TestCase)
      ensures data == o.data
    {
      data := o.data;
    }

    /** Assignment yields an equal level sequence (self-assignment is a
        no-op, which also yields it). */
    method Assign(rhs: TestCase)
      modifies this
      ensures data == old(rhs.data)
    {
      if this != rhs {
        data := rhs.data;
      }
    }

    /** Init(n): n entries, all LEVEL_INVALID, so none is valid. */
    method Init(n: nat)
      modifies this
      ensures data == seq(n, _ => LEVEL_INVALID)
      ensures |data| == n && CountValid(data) == 0
    {
      data := seq(n, _ => LEVEL_INVALID);
      CountValidOfSentinels(n);
    }

    /** get_Size */
    function Size(): (n: nat)
      reads this
      ensures n == |data|
    {
      |data|
    }

    /** The const subscript. */
    function Get(p: nat): LevelT
      reads this
      requires p < |data|
    {
      data[p]
    }

    /** A write through the mutable subscript: entry p changes, the length
        and every other entry stay as they were. */
    method Set(p: nat, l: LevelT)
      requires p < |data|
      modifies this
      ensures |data| == |old(data)| && data[p] == l
      ensures forall i :: 0 <= i < |data| && i != p ==> data[i] == old(data)[i]
      ensures CountValid(data) + (if IsValidLevel(old(data)[p]) then 1 else 0)
              == CountValid(old(data)) + (if IsValidLevel(l) then 1 else 0)
    {
      CountValidUpdate(data, p, l);
      data := data[p := l];
    }

    /** GetNumValidFactors: counts the entries that are not LEVEL_INVALID. */
    method GetNumValidFactors() returns (n: nat)
      ensures n == CountValid(data)
    {
      n := 0;
      var i := 0;
      while i < |data|
        invariant 0 <= i <= |data|
        invariant n == CountValid(data[..i])
      {
        assert data[..i + 1][..i] == data[..i];
        if IsValidLevel(data[i]) {
          n := n + 1;
        }
        i := i + 1;
      }
      assert data[..|data|] == data;
    }

    /** operator<<: appends each level in index order, each followed by a
        single space. */
    method Write(os: seq<char>) returns (out: seq<char>)
      ensures out == os + Format(data)
    {
      out := os;
      var i := 0;
      while i < |data|
        invariant 0 <= i <= |data|
        invariant out == os + Format(data[..i])
      {
        FormatAppend(data[..i], data[i]);
        assert data[..i + 1] == data[..i] + [data[i]];
        out := out + Digits(data[i]) + " ";
        i := i + 1;
      }
      assert data[..|data|] == data;
    }
  }
}
