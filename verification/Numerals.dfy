// Positional numerals: digit sequences, their values and decimal text.
module Numerals {

  // The value of a digit sequence, most significant digit first.
  function Horner(ds: seq<nat>, base: nat): nat {
    if ds == [] then 0 else Horner(ds[..|ds| - 1], base) * base + ds[|ds| - 1]
  }

  function Pow(base: nat, e: nat): nat {
    if e == 0 then 1 else Pow(base, e - 1) * base
  }

  lemma HornerSnoc(ds: seq<nat>, d: nat, base: nat)
    ensures Horner(ds + [d], base) == Horner(ds, base) * base + d
  {}

  lemma ShiftSum(x: int, p: int, q: int, base: int)
    ensures (x * p + q) * base == x * (p * base) + q * base
  {}

  lemma ShiftBound(h: nat, p: nat, d: nat, base: nat)
    requires h < p && d < base
    ensures h * base + d < p * base
  {
    assert p * base == (h + 1) * base + (p - h - 1) * base;
  }

  lemma {:induction false} HornerConcat(a: seq<nat>, b: seq<nat>, base: nat)
    ensures Horner(a + b, base) == Horner(a, base) * Pow(base, |b|) + Horner(b, base)
  {
    if b == [] {
      assert a + b == a;
    } else {
      var init, d := b[..|b| - 1], b[|b| - 1];
      assert a + b == (a + init) + [d];
      HornerSnoc(a + init, d, base);
      HornerConcat(a, init, base);
      assert b == init + [d];
      HornerSnoc(init, d, base);
      ShiftSum(Horner(a, base), Pow(base, |init|), Horner(init, base), base);
    }
  }

  lemma {:induction false} HornerBound(ds: seq<nat>, base: nat)
    requires forall i :: 0 <= i < |ds| ==> ds[i] < base
    ensures Horner(ds, base) < Pow(base, |ds|)
  {
    if ds != [] {
      var init, d := ds[..|ds| - 1], ds[|ds| - 1];
      HornerBound(init, base);
      ShiftBound(Horner(init, base), Pow(base, |init|), d, base);
    }
  }

  lemma {:induction false} HornerGrows(ds: seq<nat>, k: nat, base: nat)
    requires k <= |ds| && 1 <= base
    ensures Horner(ds[..k], base) <= Horner(ds, base)
  {
    if k < |ds| {
      HornerGrows(ds[..|ds| - 1], k, base);
      assert ds[..|ds| - 1][..k] == ds[..k];
      var h := Horner(ds[..|ds| - 1], base);
      assert h <= h * base;
    } else {
      assert ds[..k] == ds;
    }
  }

  lemma ModSmall(x: nat, m: nat)
    requires x < m
    ensures x % m == x
  {}

  // ----- Decimal text -----

  predicate IsDigit(c: char) {
    '0' <= c <= '9'
  }

  function DigitVal(c: char): nat
    requires IsDigit(c)
  {
    (c - '0') as nat
  }

  function DigitChar(d: nat): (c: char)
    requires d < 10
    ensures IsDigit(c) && DigitVal(c) == d
  {
    '0' + d as char
  }

  predicate AllDigits(s: string) {
    forall i :: 0 <= i < |s| ==> IsDigit(s[i])
  }

  function Vals(s: string): seq<nat>
    requires AllDigits(s)
  {
    seq(|s|, i requires 0 <= i < |s| => DigitVal(s[i]))
  }

  function Value(s: string): nat
    requires AllDigits(s)
  {
    Horner(Vals(s), 10)
  }

  lemma ValueSnoc(s: string, c: char)
    requires AllDigits(s) && IsDigit(c)
    ensures AllDigits(s + [c]) && Value(s + [c]) == Value(s) * 10 + DigitVal(c)
  {
    assert Vals(s + [c]) == Vals(s) + [DigitVal(c)];
    HornerSnoc(Vals(s), DigitVal(c), 10);
  }

  lemma ValueConcat(a: string, b: string)
    requires AllDigits(a) && AllDigits(b)
    ensures AllDigits(a + b) && Value(a + b) == Value(a) * Pow(10, |b|) + Value(b)
  {
    hide Horner, Pow;
    assert Vals(a + b) == Vals(a) + Vals(b);
    HornerConcat(Vals(a), Vals(b), 10);
  }

  lemma ValueBound(s: string)
    requires AllDigits(s)
    ensures Value(s) < Pow(10, |s|)
  {
    HornerBound(Vals(s), 10);
  }

  // The canonical decimal text of n, as printf writes it.
  function Dec(n: nat): (s: string)
    ensures AllDigits(s) && 1 <= |s|
  {
    if n < 10 then [DigitChar(n)] else Dec(n / 10) + [DigitChar(n % 10)]
  }

  // The digits in order.
  lemma DigitsInOrder(d: nat)
    requires d < 10
    ensures DigitChar(d) == "0123456789"[d] && DigitVal("0123456789"[d]) == d
  {}

  // No superfluous leading zero.
  predicate Canonical(s: string) {
    AllDigits(s) && 1 <= |s| && (s[0] == '0' ==> |s| == 1)
  }

  lemma {:induction false} ValueOfDec(n: nat)
    ensures Value(Dec(n)) == n && Canonical(Dec(n))
    ensures n > 0 ==> Dec(n)[0] != '0'
  {
    if n < 10 {
      assert Dec(n) == [] + [DigitChar(n)];
      ValueSnoc([], DigitChar(n));
    } else {
      ValueOfDec(n / 10);
      ValueSnoc(Dec(n / 10), DigitChar(n % 10));
    }
  }

  lemma {:induction false} DecOfValue(s: string)
    requires Canonical(s)
    ensures Dec(Value(s)) == s
  {
    var init, c := s[..|s| - 1], s[|s| - 1];
    assert s == init + [c];
    ValueSnoc(init, c);
    assert c == DigitChar(DigitVal(c));
    if init != [] {
      DecOfValue(init);
      assert Value(init) != 0 || init == Dec(0);
      assert Dec(0)[0] == '0';
    }
  }

  // The end of the digits that start at position i.
  function SkipDigits(s: string, i: nat): (e: nat)
    requires i <= |s|
    ensures i <= e <= |s|
    decreases |s| - i
  {
    if i < |s| && IsDigit(s[i]) then SkipDigits(s, i + 1) else i
  }

  lemma {:induction false} SkipDigitsSpec(s: string, i: nat)
    requires i <= |s|
    ensures var e := SkipDigits(s, i); AllDigits(s[i..e]) && (e == |s| || !IsDigit(s[e]))
    decreases |s| - i
  {
    if i < |s| && IsDigit(s[i]) {
      var e := SkipDigits(s, i + 1);
      SkipDigitsSpec(s, i + 1);
      assert i + 1 <= e;
      assert s[i..e] == [s[i]] + s[i + 1..e];
    }
  }

  lemma {:induction false} SkipRun(s: string, i: nat, e: nat)
    requires i <= e <= |s| && AllDigits(s[i..e]) && (e == |s| || !IsDigit(s[e]))
    ensures SkipDigits(s, i) == e
    decreases e - i
  {
    if i < e {
      assert s[i] == s[i..e][0];
      assert s[i + 1..e] == s[i..e][1..];
      SkipRun(s, i + 1, e);
    }
  }

  // The loop over a run of digits.
  method DigitRun(s: string, i0: nat) returns (i: nat)
    requires i0 <= |s|
    ensures i == SkipDigits(s, i0)
  {
    i := i0;
    while i < |s| && IsDigit(s[i])
      invariant i0 <= i <= |s| && SkipDigits(s, i) == SkipDigits(s, i0)
    {
      i := i + 1;
    }
  }
}
