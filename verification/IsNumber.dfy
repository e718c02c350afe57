// The number classifier of DBD-SQLite/dbdimp.c (sqlite_is_number), built with 64-bit
// integers and atoll.
module IsNumber {
  import opened Numerals
  import opened SqlScan

  // SQLITE_INTEGER, SQLITE_FLOAT, SQLITE_TEXT, SQLITE_BLOB and SQLITE_NULL
  datatype SqlType = TInteger | TFloat | TText | TBlob | TNull

  const I64_MAX := 9223372036854775807
  const I64_MIN := -9223372036854775808

  // "%lli"
  function Print(n: int): string {
    if n < 0 then ['-'] + Dec(-n) else Dec(n)
  }

  function Form(n: int, hasPlus: bool): string {
    if hasPlus then ['+'] + Print(n) else Print(n)
  }

  function SkipBlanks(s: string): string {
    if s != [] && IsBlank(s[0]) then SkipBlanks(s[1..]) else s
  }

  function DigitsFrom(s: string, i: nat): (ds: string)
    ensures AllDigits(ds)
  {
    if i > |s| then []
    else
      SkipDigitsSpec(s, i);
      s[i..SkipDigits(s, i)]
  }

  function Clamp(n: int): int {
    if n > I64_MAX then I64_MAX else if n < I64_MIN then I64_MIN else n
  }

  predicate HasSign(w: string) {
    At(w, 0) == '-' || At(w, 0) == '+'
  }

  // atoll, which saturates where the C standard leaves the result open
  function Atoll(text: string): int {
    var s := SkipBlanks(text);
    var n: int := Value(DigitsFrom(s, if HasSign(s) then 1 else 0));
    Clamp(if At(s, 0) == '-' then -n else n)
  }

  // memcmp of two equally long texts: the earliest difference decides.
  function MemCmp(a: string, b: string): int
    requires |a| == |b|
  {
    if a == [] then 0
    else
      var n := |a| - 1;
      var c := MemCmp(a[..n], b[..n]);
      if c != 0 then c else a[n] as int - b[n] as int
  }

  // maybe_int, from the digits of the integer part
  predicate MaybeInt(ds: string, neg: bool) {
    if |ds| == 19 then
      var c := MemCmp(ds[..18], "922337203685477580");
      (if c == 0 then ds[18] as int - '7' as int - (if neg then 1 else 0) else c) <= 0
    else |ds| < 19
  }

  // libc's printf("%.*f", precision, atof(text)), with a plus if asked for
  type FloatEcho = (string, bool, nat) -> string

  // ----- The classifier in terms of whole runs of digits -----

  function SkipSpaces(s: string): string {
    if s != [] && s[0] == ' ' then SkipSpaces(s[1..]) else s
  }

  // The text that is looked at: leading blanks are kept when no type is given.
  function Looked(v: string, t: SqlType): string {
    if t.TNull? then v else SkipSpaces(v)
  }

  function Whole(w: string): string {
    DigitsFrom(w, if HasSign(w) then 1 else 0)
  }

  // The end of the optional fraction that starts at i; |s| + 1 if it is malformed.
  function FractionEnd(s: string, i: nat): nat
    requires i <= |s|
  {
    if At(s, i) != '.' then i
    else if IsDigit(At(s, i + 1)) then SkipDigits(s, i + 1)
    else |s| + 1
  }

  function ExponentEnd(s: string, i: nat): nat
    requires i <= |s|
  {
    if At(s, i) != 'e' && At(s, i) != 'E' then i
    else
      var j := if At(s, i + 1) == '+' || At(s, i + 1) == '-' then i + 2 else i + 1;
      if IsDigit(At(s, j)) then SkipDigits(s, j) else |s| + 1
  }

  // Where the number ends if it is well formed, and whether it has a fraction or exponent.
  function NumberEnd(w: string): nat {
    var i := (if HasSign(w) then 1 else 0) + |Whole(w)|;
    if i > |w| then |w| + 1
    else
      var j := FractionEnd(w, i);
      if j > |w| then |w| + 1 else ExponentEnd(w, j)
  }

  function Precision(w: string): nat {
    var i := (if HasSign(w) then 1 else 0) + |Whole(w)|;
    if i <= |w| && At(w, i) == '.' && FractionEnd(w, i) > i then FractionEnd(w, i) - i - 1 else 0
  }

  // No fraction and no exponent follow the integer part.
  predicate IsPlain(w: string) {
    var c := At(w, (if HasSign(w) then 1 else 0) + |Whole(w)|);
    c != '.' && c != 'e' && c != 'E'
  }

  function Classify(v: string, t: SqlType, echo: FloatEcho): int {
    var w := Looked(v, t);
    if Whole(w) == [] || NumberEnd(w) != |w| then 0
    else if ((IsPlain(w) && MaybeInt(Whole(w), At(w, 0) == '-')) || t.TInteger?)
            && Form(Atoll(w), At(w, 0) == '+') == w then 1
    else if !t.TInteger? && echo(w, At(w, 0) == '+', Precision(w)) == w then 2
    else 0
  }

  // ----- The scanning loops -----

  // while (*z == ' ') z++
  method SpaceRun(s: CString) returns (i: nat)
    ensures i <= |s| && s[i..] == SkipSpaces(s)
  {
    i := 0;
    while At(s, i) == ' '
      invariant i <= |s| && SkipSpaces(s[i..]) == SkipSpaces(s)
      decreases |s| - i
    {
      assert s[i..][1..] == s[i + 1..];
      i := i + 1;
    }
  }

  // The part after the integer digits: fraction and exponent.
  method ScanRest(w: CString, i0: nat) returns (ok: bool, plain: bool, precision: nat)
    requires i0 == (if HasSign(w) then 1 else 0) + |Whole(w)| <= |w|
    ensures ok <==> NumberEnd(w) == |w|
    ensures ok ==> plain == IsPlain(w) && precision == Precision(w)
  {
    var z := i0;
    ok, plain, precision := true, true, 0;
    if At(w, z) == '.' {
      plain := false;
      z := z + 1;
      if !IsDigit(At(w, z)) {
        return false, plain, 0;
      }
      var e := DigitRun(w, z);
      precision := e - z;
      z := e;
    }
    if At(w, z) == 'e' || At(w, z) == 'E' {
      plain := false;
      z := z + 1;
      if At(w, z) == '+' || At(w, z) == '-' {
        z := z + 1;
      }
      if !IsDigit(At(w, z)) {
        return false, plain, precision;
      }
      z := DigitRun(w, z);
    }
    ok := At(w, z) == '\0';
  }

  method IsNumber(v: CString, t: SqlType, echo: FloatEcho) returns (r: int)
    ensures r == Classify(v, t, echo)
  {
    hide Form, Atoll, MaybeInt, NumberEnd, IsPlain, Precision, SkipSpaces;
    var start := 0;
    if !t.TNull? {
      start := SpaceRun(v);
    }
    var w: CString := v[start..];
    assert w == Looked(v, t);
    var d, neg, hasPlus := 0, false, false;
    if At(w, 0) == '-' {
      d, neg := 1, true;
    } else if At(w, 0) == '+' {
      d, hasPlus := 1, true;
    }
    if !IsDigit(At(w, d)) {
      return 0;
    }
    var z := DigitRun(w, d);
    var maybeInt := MaybeInt(w[d..z], neg);
    var ok, plain, precision := ScanRest(w, z);
    if !ok {
      return 0;
    }
    if (maybeInt && plain) || t.TInteger? {
      if Form(Atoll(w), hasPlus) == w {
        return 1;
      }
    }
    if !t.TInteger? {
      if echo(w, hasPlus, precision) == w {
        return 2;
      }
    }
    return 0;
  }

  // ----- The prefix guard is exact -----

  lemma {:induction false} MemCmpIsValueOrder(a: string, b: string)
    requires |a| == |b| && AllDigits(a) && AllDigits(b)
    ensures MemCmp(a, b) < 0 <==> Value(a) < Value(b)
    ensures MemCmp(a, b) == 0 <==> Value(a) == Value(b)
  {
    if a != [] {
      var n := |a| - 1;
      MemCmpIsValueOrder(a[..n], b[..n]);
      ValueSnoc(a[..n], a[n]);
      ValueSnoc(b[..n], b[n]);
      assert a == a[..n] + [a[n]] && b == b[..n] + [b[n]];
    }
  }

  lemma DecSnoc(n: nat, d: nat)
    requires 0 < n && d < 10
    ensures Dec(n * 10 + d) == Dec(n) + [DigitChar(d)]
  {}

  lemma GuardPrefixHead()
    ensures Dec(922337203) == "922337203"
  {
    DecSnoc(9, 2);
    DecSnoc(92, 2);
    DecSnoc(922, 3);
    DecSnoc(9223, 3);
    DecSnoc(92233, 7);
    DecSnoc(922337, 2);
    DecSnoc(9223372, 0);
    DecSnoc(92233720, 3);
  }

  lemma GuardPrefix()
    ensures Dec(922337203685477580) == "922337203685477580"
  {
    GuardPrefixHead();
    DecSnoc(922337203, 6);
    DecSnoc(9223372036, 8);
    DecSnoc(92233720368, 5);
    DecSnoc(922337203685, 4);
    DecSnoc(9223372036854, 7);
    DecSnoc(92233720368547, 7);
    DecSnoc(922337203685477, 5);
    DecSnoc(9223372036854775, 8);
    DecSnoc(92233720368547758, 0);
  }

  lemma {:induction false} PowTenBound(k: nat)
    ensures k <= 18 ==> Pow(10, k) <= 1_000_000_000_000_000_000
    ensures k >= 18 ==> Pow(10, k) >= 1_000_000_000_000_000_000
  {
    PowTen18();
    if k < 18 {
      PowGrows(k, 18);
    } else {
      PowGrows(18, k);
    }
  }

  lemma {:induction false} PowGrows(k: nat, n: nat)
    requires k <= n
    ensures Pow(10, k) <= Pow(10, n)
  {
    if k < n {
      PowGrows(k, n - 1);
      assert Pow(10, n) == Pow(10, n - 1) * 10;
    }
  }

  lemma PowTen18()
    ensures Pow(10, 18) == 1_000_000_000_000_000_000
  {
    assert Pow(10, 3) == 1000;
    assert Pow(10, 6) == 1_000_000 by { assert Pow(10, 5) == 100_000 by { assert Pow(10, 4) == 10_000; } }
    assert Pow(10, 9) == 1_000_000_000 by { assert Pow(10, 8) == 100_000_000 by { assert Pow(10, 7) == 10_000_000; } }
    assert Pow(10, 12) == 1_000_000_000_000 by {
      assert Pow(10, 11) == 100_000_000_000 by { assert Pow(10, 10) == 10_000_000_000; }
    }
    assert Pow(10, 15) == 1_000_000_000_000_000 by {
      assert Pow(10, 14) == 100_000_000_000_000 by { assert Pow(10, 13) == 10_000_000_000_000; }
    }
    assert Pow(10, 17) == 100_000_000_000_000_000 by { assert Pow(10, 16) == 10_000_000_000_000_000; }
  }

  // The largest magnitude of an int64 of that sign.
  function Limit(neg: bool): nat {
    if neg then -I64_MIN else I64_MAX
  }

  // The guard on nineteen digits: the sign of c, from the comparison of the first
  // eighteen and, if they are equal, the last one.
  lemma LastDigitDecides(c: int, head: nat, last: nat, neg: bool)
    requires (c < 0 <==> head < 922337203685477580) && (c == 0 <==> head == 922337203685477580) && last <= 9
    ensures (if c == 0 then last - 7 - (if neg then 1 else 0) else c) <= 0 <==> head * 10 + last <= Limit(neg)
  {}

  lemma NineteenDigits(ds: string, neg: bool)
    requires AllDigits(ds) && |ds| == 19
    ensures MaybeInt(ds, neg) <==> Value(ds) <= Limit(neg)
  {
    hide Value, MemCmp, Dec, Limit;
    GuardPrefix();
    ValueOfDec(922337203685477580);
    MemCmpIsValueOrder(ds[..18], "922337203685477580");
    assert ds == ds[..18] + [ds[18]];
    ValueSnoc(ds[..18], ds[18]);
    LastDigitDecides(MemCmp(ds[..18], "922337203685477580"), Value(ds[..18]), DigitVal(ds[18]), neg);
  }

  // The guard lets a run of digits through exactly when there are at most nineteen of
  // them and their value is in range.
  lemma GuardMeans(ds: string, neg: bool)
    requires AllDigits(ds)
    ensures MaybeInt(ds, neg) <==> |ds| <= 19 && Value(ds) <= Limit(neg)
  {
    if |ds| == 19 {
      NineteenDigits(ds, neg);
    } else if |ds| < 19 {
      ValueBound(ds);
      PowTenBound(|ds|);
    }
  }

  // Leading zeros keep the value, but from twenty digits on the guard refuses them.
  lemma LeadingZerosAreRefused(zeros: string, ds: string, neg: bool)
    requires AllDigits(zeros) && AllDigits(ds) && Value(zeros) == 0 && |zeros| + |ds| > 19
    ensures AllDigits(zeros + ds) && Value(zeros + ds) == Value(ds) && !MaybeInt(zeros + ds, neg)
  {
    ValueConcat(zeros, ds);
  }

  lemma DecOfMax()
    ensures Dec(I64_MAX) == "9223372036854775807"
  {
    GuardPrefix();
    DecSnoc(922337203685477580, 7);
  }

  lemma DecOfZero()
    ensures Dec(0) == "0"
  {}

  // Such as the greatest 64-bit integer with a zero in front.
  lemma TwentyDigitsAreRefused()
    ensures var ds := "0" + "9223372036854775807";
            AllDigits(ds) && Value(ds) == Limit(false) && !MaybeInt(ds, false)
  {
    hide Dec, MaybeInt, Value;
    DecOfMax();
    DecOfZero();
    ValueOfDec(I64_MAX);
    ValueOfDec(0);
    LeadingZerosAreRefused(Dec(0), Dec(I64_MAX), false);
  }

  // So without leading zeros it is exact.
  lemma GuardIsExact(ds: string, neg: bool)
    requires Canonical(ds)
    ensures MaybeInt(ds, neg) <==> Value(ds) <= Limit(neg)
  {
    GuardMeans(ds, neg);
    if |ds| > 19 {
      CanonicalIsLarge(ds);
      PowTenBound(|ds| - 1);
      PowGrows(19, |ds| - 1);
      PowTen18();
      assert Pow(10, 19) == Pow(10, 18) * 10;
    }
  }

  lemma {:induction false} CanonicalIsLarge(ds: string)
    requires Canonical(ds) && ds[0] != '0'
    ensures Value(ds) >= Pow(10, |ds| - 1)
  {
    var n := |ds| - 1;
    assert ds == ds[..n] + [ds[n]];
    ValueSnoc(ds[..n], ds[n]);
    if n > 0 {
      CanonicalIsLarge(ds[..n]);
    } else {
      assert Value(ds[..0]) == 0;
    }
  }

  // ----- Result 1 means a canonical int64 -----

  predicate IsInt64(n: int) {
    I64_MIN <= n <= I64_MAX
  }

  // The text of a number has the number's digits and nothing else.
  lemma FormShape(n: int, hasPlus: bool)
    requires hasPlus ==> n >= 0
    ensures var w := Form(n, hasPlus); var ds := Dec(if n < 0 then -n else n);
            && (At(w, 0) == '-' <==> n < 0) && (At(w, 0) == '+' <==> hasPlus)
            && Whole(w) == ds && |w| == (if HasSign(w) then 1 else 0) + |ds|
  {
    var w, ds := Form(n, hasPlus), Dec(if n < 0 then -n else n);
    ValueOfDec(if n < 0 then -n else n);
    assert IsDigit(ds[0]);
    var i := if n < 0 || hasPlus then 1 else 0;
    assert w[i..] == ds;
    assert w[i..|w|] == ds;
    SkipRun(w, i, |w|);
  }

  lemma DigitsToTheEnd(w: string)
    requires |w| == (if HasSign(w) then 1 else 0) + |Whole(w)|
    ensures NumberEnd(w) == |w| && IsPlain(w)
  {}

  lemma FormIsAccepted(n: int, hasPlus: bool)
    requires IsInt64(n) && (hasPlus ==> n >= 0)
    ensures var w := Form(n, hasPlus);
            && Whole(w) != [] && NumberEnd(w) == |w| && IsPlain(w)
            && MaybeInt(Whole(w), At(w, 0) == '-')
  {
    FormShape(n, hasPlus);
    DigitsToTheEnd(Form(n, hasPlus));
    var m := if n < 0 then -n else n;
    ValueOfDec(m);
    GuardIsExact(Dec(m), n < 0);
  }

  lemma AtollOfForm(n: int, hasPlus: bool)
    requires IsInt64(n) && (hasPlus ==> n >= 0)
    ensures Atoll(Form(n, hasPlus)) == n
  {
    FormShape(n, hasPlus);
    var w, m := Form(n, hasPlus), if n < 0 then -n else n;
    ValueOfDec(m);
    assert SkipBlanks(w) == w by {
      assert w[0] == '-' || w[0] == '+' || IsDigit(w[0]);
    }
    assert DigitsFrom(w, if HasSign(w) then 1 else 0) == Dec(m);
  }

  lemma PlusNeedsDigit(w: string, n: int)
    requires Whole(w) != [] && At(w, 0) == '+' && Form(n, true) == w
    ensures n >= 0
  {}

  // sqlite_is_number answers 1 exactly when the text is the decimal form of an int64,
  // with an optional plus; the integer is the one that atoll reads.
  lemma OneMeansInt64(v: string, t: SqlType, echo: FloatEcho)
    ensures Classify(v, t, echo) == 1
      <==> exists n, hasPlus :: IsInt64(n) && (hasPlus ==> n >= 0) && Looked(v, t) == Form(n, hasPlus)
    ensures Classify(v, t, echo) == 1 ==> Form(Atoll(v), At(Looked(v, t), 0) == '+') == Looked(v, t)
  {
    var w := Looked(v, t);
    AtollSkipsSpaces(v, t);
    if Classify(v, t, echo) == 1 {
      if At(w, 0) == '+' {
        PlusNeedsDigit(w, Atoll(w));
      }
      assert IsInt64(Atoll(w)) && w == Form(Atoll(w), At(w, 0) == '+');
    }
    if n, hasPlus :| IsInt64(n) && (hasPlus ==> n >= 0) && w == Form(n, hasPlus) {
      FormIsAccepted(n, hasPlus);
      AtollOfForm(n, hasPlus);
      FormShape(n, hasPlus);
    }
  }

  // Under a type the leading spaces are dropped and nothing else; without one nothing is.
  lemma {:induction false} LookedMeans(v: string, t: SqlType)
    ensures t.TNull? ==> Looked(v, t) == v
    ensures !t.TNull? ==> (Looked(v, t) == [] || Looked(v, t)[0] != ' ')
    ensures var w := Looked(v, t); |w| <= |v| && v[|v| - |w|..] == w && forall i :: 0 <= i < |v| - |w| ==> v[i] == ' '
  {
    if !t.TNull? && v != [] && v[0] == ' ' {
      LookedMeans(v[1..], t);
      var w := Looked(v, t);
      assert v == [' '] + v[1..];
    }
  }

  lemma AtollSkipsSpaces(v: string, t: SqlType)
    ensures Atoll(v) == Atoll(Looked(v, t))
  {
    if !t.TNull? {
      BlanksAfterSpaces(v);
    }
  }

  lemma {:induction false} BlanksAfterSpaces(v: string)
    ensures SkipBlanks(SkipSpaces(v)) == SkipBlanks(v)
  {
    if v != [] && v[0] == ' ' {
      BlanksAfterSpaces(v[1..]);
    }
  }

  // Without a type, a text with a leading blank is never a number.
  lemma BlanksNeedAType(v: string, echo: FloatEcho)
    requires v != [] && v[0] == ' '
    ensures Classify(v, TNull, echo) == 0
  {}
}
