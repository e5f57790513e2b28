/**
  Positional numerals, most significant digit first.

  Products of two unknowns are written with `Times`, multiplication by repeated addition, so that
  proofs apply the laws of multiplication only where they name them.
 */
module Digits {

  function Times(x: nat, y: nat): nat {
    if x == 0 then 0 else Times(x - 1, y) + y
  }

  lemma {:induction false} TimesIs(x: nat, y: nat)
    ensures Times(x, y) == x * y
  {
    if x > 0 { TimesIs(x - 1, y); }
  }

  lemma {:induction false} Distribute(x: nat, y: nat, z: nat)
    ensures Times(x + y, z) == Times(x, z) + Times(y, z)
  {
    if x > 0 { Distribute(x - 1, y, z); }
  }

  lemma {:induction false} AddRight(x: nat, y: nat, z: nat)
    ensures Times(x, y + z) == Times(x, y) + Times(x, z)
  {
    if x > 0 { AddRight(x - 1, y, z); }
  }

  lemma {:induction false} TimesOne(x: nat)
    ensures Times(x, 1) == x
  {
    if x > 0 { TimesOne(x - 1); }
  }

  lemma {:induction false} MulStrict(x: nat, y: nat, b: nat)
    requires x < y
    ensures Times(x, b) + b <= Times(y, b)
  {
    Distribute(y - x - 1, x + 1, b);
  }

  // ------------------------------------------------------------------------ numerals

  function Pow(b: nat, n: nat): nat {
    if n == 0 then 1 else Times(Pow(b, n - 1), b)
  }

  predicate AllBelow(ds: seq<nat>, b: nat) {
    forall i :: 0 <= i < |ds| ==> ds[i] < b
  }

  function Value(ds: seq<nat>, b: nat): nat {
    if ds == [] then 0 else Times(Value(ds[..|ds| - 1], b), b) + ds[|ds| - 1]
  }

  /** Quotient and remainder by repeated subtraction. */
  function DivMod(v: nat, b: nat): (r: (nat, nat))
    requires b > 0
    ensures r.1 < b && v == Times(r.0, b) + r.1
  {
    if v < b then (0, v) else
      var (q, d) := DivMod(v - b, b);
      (q + 1, d)
  }

  /** The last `n` base-`b` digits of `v`. */
  function ToDigits(v: nat, b: nat, n: nat): (ds: seq<nat>)
    requires b > 0
    ensures |ds| == n && AllBelow(ds, b)
    decreases n
  {
    if n == 0 then [] else
      var (q, d) := DivMod(v, b);
      ToDigits(q, b, n - 1) + [d]
  }

  lemma {:induction false} Snoc(ds: seq<nat>, d: nat, b: nat)
    ensures Value(ds + [d], b) == Times(Value(ds, b), b) + d
  {
  }

  /** Quotient and remainder are unique. */
  lemma {:induction false} UniqueDivision(q: nat, d: nat, q': nat, d': nat, b: nat)
    requires d < b && d' < b && Times(q, b) + d == Times(q', b) + d'
    ensures q == q' && d == d'
  {
    if q < q' {
      MulStrict(q, q', b);
    } else if q' < q {
      MulStrict(q', q, b);
    }
  }

  lemma {:induction false} SplitDigit(q: nat, d: nat, b: nat)
    requires d < b
    ensures DivMod(Times(q, b) + d, b) == (q, d)
  {
    var r := DivMod(Times(q, b) + d, b);
    UniqueDivision(q, d, r.0, r.1, b);
  }

  /** Reading a numeral and writing it again at the same length gives the same digits. */
  lemma {:induction false} WriteRead(ds: seq<nat>, b: nat)
    requires AllBelow(ds, b) && b > 0
    ensures ToDigits(Value(ds, b), b, |ds|) == ds
  {
    if ds != [] {
      var q, d := ds[..|ds| - 1], ds[|ds| - 1];
      SplitDigit(Value(q, b), d, b);
      WriteRead(q, b);
      assert q + [d] == ds;
    }
  }

  lemma {:induction false} ValueBound(ds: seq<nat>, b: nat)
    requires AllBelow(ds, b)
    ensures Value(ds, b) < Pow(b, |ds|)
  {
    if ds != [] {
      var q := ds[..|ds| - 1];
      ValueBound(q, b);
      MulStrict(Value(q, b), Pow(b, |q|), b);
    }
  }

  /** Writing a number that fits and reading it again gives the same number. */
  lemma {:induction false} ReadWrite(v: nat, b: nat, n: nat)
    requires b > 0 && v < Pow(b, n)
    ensures Value(ToDigits(v, b, n), b) == v
    decreases n
  {
    if n > 0 {
      var (q, d) := DivMod(v, b);
      if Pow(b, n - 1) < q {
        MulStrict(Pow(b, n - 1), q, b);
      }
      ReadWrite(q, b, n - 1);
      Snoc(ToDigits(q, b, n - 1), d, b);
    }
  }

  /** Two equal numbers have the same numerals of the same length. */
  lemma {:induction false} SameDigits(ds: seq<nat>, es: seq<nat>, b: nat)
    requires b > 0 && AllBelow(ds, b) && AllBelow(es, b) && |ds| == |es| && Value(ds, b) == Value(es, b)
    ensures ds == es
  {
    WriteRead(ds, b);
    WriteRead(es, b);
  }
}
