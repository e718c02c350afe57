// The number scanner of Astro-Hipparcos/ppport.h: grok_number.
module GrokNumber {
  import opened Numerals
  import opened Options
  import opened Texts

  // The bits IS_NUMBER_IN_UV, _GREATER_THAN_UV_MAX, _NOT_INT, _NEG, _INFINITY and _NAN.
  datatype NumType = NumType(inUv: bool, greater: bool, notInt: bool, neg: bool, infinity: bool, nan: bool)

  const NONE := NumType(false, false, false, false, false, false)

  // numtype &= IS_NUMBER_NEG
  function SignOnly(t: NumType): NumType {
    NONE.(neg := t.neg)
  }

  predicate IsSpace(c: char) {
    c == ' ' || c == '\t' || c == '\n' || c == '\r' || c == 0x0C as char
  }

  predicate AllSpace(s: string) {
    forall i :: 0 <= i < |s| ==> IsSpace(s[i])
  }

  // The end of the blanks that start at position i.
  function SkipSpaces(s: string, i: nat): (e: nat)
    requires i <= |s|
    ensures i <= e <= |s|
    decreases |s| - i
  {
    if i < |s| && IsSpace(s[i]) then SkipSpaces(s, i + 1) else i
  }

  lemma {:induction false} SkipSpacesSpec(s: string, i: nat)
    requires i <= |s|
    ensures var e := SkipSpaces(s, i); AllSpace(s[i..e]) && (e == |s| || !IsSpace(s[e]))
    decreases |s| - i
  {
    if i < |s| && IsSpace(s[i]) {
      SkipSpacesSpec(s, i + 1);
      var e := SkipSpaces(s, i);
      assert s[i..e] == [s[i]] + s[i + 1..e];
    }
  }

  // c is the letter of the lower-case word character l in either case.
  predicate IsLetter(c: char, l: char)
    requires 'a' <= l <= 'z'
  {
    c == l || c as int + 32 == l as int
  }

  predicate IsInf(s: string, i: nat) {
    i + 3 <= |s| && IsLetter(s[i], 'i') && IsLetter(s[i + 1], 'n') && IsLetter(s[i + 2], 'f')
  }

  predicate IsInfinity(s: string, i: nat) {
    && i + 8 <= |s| && IsInf(s, i)
    && IsLetter(s[i + 3], 'i') && IsLetter(s[i + 4], 'n') && IsLetter(s[i + 5], 'i')
    && IsLetter(s[i + 6], 't') && IsLetter(s[i + 7], 'y')
  }

  predicate IsNan(s: string, i: nat) {
    i + 3 <= |s| && IsLetter(s[i], 'n') && IsLetter(s[i + 1], 'a') && IsLetter(s[i + 2], 'n')
  }

  // The blanks and the words, spelled out.
  lemma BlanksAre(c: char)
    ensures IsSpace(c) <==> c in " \t\n\r" || c as int == 12
  {}

  lemma InfIs(s: string, i: nat)
    ensures IsInf(s, i) <==> WordAt(s, i, "inf")
  {
    WordSplits(s, i, "inf");
    assert "inf"[0] == 'i' && "inf"[1] == 'n' && "inf"[2] == 'f';
  }

  lemma InfinityIs(s: string, i: nat)
    ensures IsInfinity(s, i) <==> WordAt(s, i, "infinity")
  {
    WordSplits(s, i, "infinity");
    assert "infinity"[0] == 'i' && "infinity"[1] == 'n' && "infinity"[2] == 'f' && "infinity"[3] == 'i';
    assert "infinity"[4] == 'n' && "infinity"[5] == 'i' && "infinity"[6] == 't' && "infinity"[7] == 'y';
  }

  lemma NanIs(s: string, i: nat)
    ensures IsNan(s, i) <==> WordAt(s, i, "nan")
  {
    WordSplits(s, i, "nan");
    assert "nan"[0] == 'n' && "nan"[1] == 'a' && "nan"[2] == 'n';
  }

  lemma WordSplits(s: string, i: nat, word: string)
    requires forall k :: 0 <= k < |word| ==> 'a' <= word[k] <= 'z'
    ensures WordAt(s, i, word) <==> i + |word| <= |s| && forall k :: 0 <= k < |word| ==> IsLetter(s[i + k], word[k])
  {}

  // len == 10 && memEQ(pv, "0 but true", 10)
  predicate IsZeroButTrue(s: string) {
    && |s| == 10
    && s[0] == '0' && s[1] == ' ' && s[2] == 'b' && s[3] == 'u' && s[4] == 't'
    && s[5] == ' ' && s[6] == 't' && s[7] == 'r' && s[8] == 'u' && s[9] == 'e'
  }

  // numtype, and what *valuep was set to, if it was.
  datatype Grokked = Grokked(numtype: NumType, out: Option<nat>)

  // ----- The scan in terms of whole runs of characters -----

  function Grok(s: string, uvMax: nat): Grokked {
    var i := SkipSpaces(s, 0);
    if i == |s| then Grokked(NONE, None)
    else
      var neg: NumType := if s[i] == '-' then NONE.(neg := true) else NONE;
      var j := if s[i] == '-' || s[i] == '+' then i + 1 else i;
      if j == |s| then Grokked(NONE, None) else GrokBody(s, j, neg, uvMax)
  }

  function GrokBody(s: string, j: nat, neg: NumType, uvMax: nat): Grokked
    requires j < |s|
  {
    if IsDigit(s[j]) then GrokDecimal(s, j, neg, uvMax)
    else if s[j] == '.' then GrokPoint(s, j, neg)
    else if InfEnd(s, j).Some? then
      GrokTail(s, InfEnd(s, j).value, neg.(infinity := true, notInt := true), None)
    else if IsNan(s, j) then
      GrokTail(s, j + 3, neg.(nan := true, notInt := true), None)
    else Grokked(NONE, None)
  }

  // inf, which must go on to infinity if an i follows.
  function InfEnd(s: string, j: nat): (e: Option<nat>)
    ensures e.Some? ==> e.value <= |s|
  {
    if IsInfinity(s, j) then Some(j + 8)
    else if IsInf(s, j) && !(j + 3 < |s| && IsLetter(s[j + 3], 'i')) then Some(j + 3)
    else None
  }

  function GrokPoint(s: string, j: nat, neg: NumType): Grokked
    requires j < |s| && s[j] == '.'
  {
    if j + 1 < |s| && IsDigit(s[j + 1]) then
      GrokExponent(s, SkipDigits(s, j + 1), neg.(notInt := true, inUv := true), Some(0))
    else Grokked(NONE, None)
  }

  // The type and the integer value after the whole part.
  function WholeType(v: nat, neg: NumType, uvMax: nat): NumType {
    if v <= uvMax then neg.(inUv := true) else neg.(greater := true)
  }

  function WholeOut(v: nat, uvMax: nat): Option<nat> {
    if v <= uvMax then Some(v) else None
  }

  function GrokDecimal(s: string, j: nat, neg: NumType, uvMax: nat): Grokked
    requires j < |s| && IsDigit(s[j])
  {
    var e := SkipDigits(s, j);
    SkipDigitsSpec(s, j);
    var v := Value(s[j..e]);
    GrokFraction(s, e, WholeType(v, neg, uvMax), WholeOut(v, uvMax))
  }

  function GrokFraction(s: string, e: nat, numtype: NumType, out: Option<nat>): Grokked
    requires e <= |s|
  {
    if e < |s| && s[e] == '.' then GrokExponent(s, SkipDigits(s, e + 1), numtype.(notInt := true), out)
    else GrokExponent(s, e, numtype, out)
  }

  function GrokExponent(s: string, i: nat, numtype: NumType, out: Option<nat>): Grokked
    requires i <= |s|
  {
    if i < |s| && (s[i] == 'e' || s[i] == 'E') then
      var j := if i + 1 < |s| && (s[i + 1] == '-' || s[i + 1] == '+') then i + 2 else i + 1;
      if j < |s| && IsDigit(s[j]) then
        GrokTail(s, SkipDigits(s, j), SignOnly(numtype).(notInt := true), out)
      else Grokked(NONE, out)
    else GrokTail(s, i, numtype, out)
  }

  function GrokTail(s: string, i: nat, numtype: NumType, out: Option<nat>): Grokked
    requires i <= |s|
  {
    if SkipSpaces(s, i) == |s| then Grokked(numtype, out)
    else if IsZeroButTrue(s) then Grokked(NONE.(inUv := true), Some(0))
    else Grokked(NONE, out)
  }

  // ----- The integer part: unrolled prefix and guarded loop -----

  // Unsigned arithmetic wraps modulo uvMax + 1.
  function Uv(n: nat, uvMax: nat): nat {
    n % (uvMax + 1)
  }

  // value stands for the digits of s from j up to i.
  ghost predicate Stands(s: string, j: nat, i: nat, value: nat) {
    j < i <= |s| && AllDigits(s[j..i]) && Value(s[j..i]) == value
  }

  lemma FirstDigit(s: string, j: nat)
    requires j < |s| && IsDigit(s[j])
    ensures Stands(s, j, j + 1, DigitVal(s[j]))
  {
    ValueSnoc([], s[j]);
    assert s[j..j + 1] == [] + [s[j]];
  }

  lemma NextDigit(s: string, j: nat, i: nat, value: nat)
    requires Stands(s, j, i, value) && i < |s| && IsDigit(s[i])
    ensures Stands(s, j, i + 1, value * 10 + DigitVal(s[i]))
  {
    ValueSnoc(s[j..i], s[i]);
    assert s[j..i + 1] == s[j..i] + [s[i]];
  }

  lemma {:induction false} PowTenUpToNine(k: nat)
    requires k <= 9
    ensures Pow(10, k) <= 1_000_000_000
    decreases 9 - k
  {
    if k == 9 {
      assert Pow(10, 3) == 1000;
      assert Pow(10, 6) == 1_000_000 by {
        assert Pow(10, 5) == 100_000 by { assert Pow(10, 4) == 10_000; }
      }
      assert Pow(10, 8) == 100_000_000 by { assert Pow(10, 7) == 10_000_000; }
    } else {
      PowTenUpToNine(k + 1);
      assert Pow(10, k + 1) == Pow(10, k) * 10;
    }
  }

  lemma NineDigitsFit(s: string, j: nat, i: nat, value: nat)
    requires Stands(s, j, i, value) && i - j <= 9
    ensures value <= 999_999_999
  {
    ValueBound(s[j..i]);
    PowTenUpToNine(i - j);
  }

  // A further digit on the unrolled path cannot overflow.
  lemma UnrolledDigit(s: string, j: nat, i: nat, value: nat, uvMax: nat)
    requires 0xFFFF_FFFF <= uvMax
    requires Stands(s, j, i, value) && i < |s| && IsDigit(s[i]) && i + 1 - j <= 9
    ensures Stands(s, j, i + 1, Uv(value * 10 + DigitVal(s[i]), uvMax))
  {
    NextDigit(s, j, i, value);
    NineDigitsFit(s, j, i + 1, value * 10 + DigitVal(s[i]));
    NoWrap(value * 10 + DigitVal(s[i]), uvMax);
  }

  lemma RunEnds(s: string, j: nat, i: nat, value: nat)
    requires Stands(s, j, i, value) && (i == |s| || !IsDigit(s[i]))
    ensures SkipDigits(s, j) == i
  {
    SkipRun(s, j, i);
  }

  lemma {:induction false} ValueGrows(s: string, j: nat, i: nat, e: nat)
    requires j <= i <= e <= |s| && AllDigits(s[j..e])
    ensures AllDigits(s[j..i]) && Value(s[j..i]) <= Value(s[j..e])
  {
    assert s[j..i] == s[j..e][..i - j];
    assert Vals(s[j..e])[..i - j] == Vals(s[j..i]);
    HornerGrows(Vals(s[j..e]), i - j, 10);
  }

  // value * 10 + digit fits a UV exactly when the guard of the loop lets it through.
  lemma GuardIsExact(value: nat, digit: nat, uvMax: nat)
    requires digit <= 9
    ensures (value < uvMax / 10 || (value == uvMax / 10 && digit <= uvMax % 10)) <==> value * 10 + digit <= uvMax
  {}

  lemma NoWrap(n: nat, uvMax: nat)
    requires n <= uvMax
    ensures Uv(n, uvMax) == n
  {}

  // What the integer part leaves behind: the end of the digits and, unless the value
  // overflowed, the exact value.
  ghost predicate IntegerPart(s: string, j: nat, i: nat, value: nat, over: bool, uvMax: nat) {
    && j < |s| && i == SkipDigits(s, j)
    && AllDigits(s[j..i]) && (over <==> Value(s[j..i]) > uvMax)
    && (!over ==> value == Value(s[j..i]))
  }

  // The loop entered after nine digits, and the loop that skips the rest on overflow.
  method GuardedLoop(s: string, j: nat, i0: nat, value0: nat, uvMax: nat) returns (value: nat, i: nat, over: bool)
    requires Stands(s, j, i0, value0) && value0 <= uvMax && i0 < |s|
    ensures IntegerPart(s, j, i, value, over, uvMax)
  {
    value, i, over := value0, i0, false;
    var max_div_10, max_mod_10 := uvMax / 10, uvMax % 10;
    var digit := s[i] as int - '0' as int;
    while 0 <= digit <= 9 && (value < max_div_10 || (value == max_div_10 && digit <= max_mod_10))
      invariant i <= |s| && Stands(s, j, i, value) && value <= uvMax
      invariant i < |s| && digit == s[i] as int - '0' as int
      decreases |s| - i
    {
      NextDigit(s, j, i, value);
      GuardIsExact(value, digit, uvMax);
      NoWrap(value * 10 + digit, uvMax);
      value := Uv(value * 10 + digit, uvMax);
      i := i + 1;
      if i < |s| {
        digit := s[i] as int - '0' as int;
      } else {
        break;
      }
    }
    if 0 <= digit <= 9 && i < |s| {
      GuardIsExact(value, digit, uvMax);
      i := SkipRest(s, j, i, value, uvMax);
      over := true;
    } else {
      RunEnds(s, j, i, value);
    }
  }

  // value overflowed: skip the remaining digits.
  method SkipRest(s: string, j: nat, i0: nat, ghost value: nat, ghost uvMax: nat) returns (i: nat)
    requires Stands(s, j, i0, value) && i0 < |s| && IsDigit(s[i0])
    requires value * 10 + DigitVal(s[i0]) > uvMax
    ensures i == SkipDigits(s, j) && AllDigits(s[j..i]) && Value(s[j..i]) > uvMax
  {
    NextDigit(s, j, i0, value);
    i := i0 + 1;
    while i < |s| && IsDigit(s[i])
      invariant i0 < i <= |s| && AllDigits(s[j..i])
    {
      assert s[j..i + 1] == s[j..i] + [s[i]];
      i := i + 1;
    }
    ValueGrows(s, j, i0 + 1, i);
    RunEnds(s, j, i, Value(s[j..i]));
  }

  lemma ShortRun(s: string, j: nat, i: nat, value: nat, uvMax: nat)
    requires 0xFFFF_FFFF <= uvMax
    requires Stands(s, j, i, value) && i - j <= 9 && (i == |s| || !IsDigit(s[i]))
    ensures IntegerPart(s, j, i, value, false, uvMax)
  {
    RunEnds(s, j, i, value);
    NineDigitsFit(s, j, i, value);
  }

  // One level of the unrolled prefix: take a digit if there is one.
  method UnrolledStep(s: string, j: nat, i0: nat, value0: nat, uvMax: nat) returns (more: bool, value: nat, i: nat)
    requires 0xFFFF_FFFF <= uvMax
    requires Stands(s, j, i0, value0) && i0 + 1 - j <= 9
    ensures Stands(s, j, i, value)
    ensures if more then i == i0 + 1 else i == i0 && (i == |s| || !IsDigit(s[i]))
  {
    more, value, i := false, value0, i0;
    if i < |s| {
      var digit := s[i] as int - '0' as int;
      if 0 <= digit <= 9 {
        UnrolledDigit(s, j, i, value, uvMax);
        value := Uv(value * 10 + digit, uvMax);
        i := i + 1;
        more := true;
      }
    }
  }

  // The integer part: nine digits without an overflow test, then the guarded loop.
  method GrokInteger(s: string, j: nat, uvMax: nat) returns (value: nat, i: nat, over: bool)
    requires 0xFFFF_FFFF <= uvMax
    requires j < |s| && IsDigit(s[j])
    ensures IntegerPart(s, j, i, value, over, uvMax)
  {
    value, i, over := s[j] as int - '0' as int, j + 1, false;
    FirstDigit(s, j);
    var more;
    more, value, i := UnrolledStep(s, j, i, value, uvMax);
    if more {
      more, value, i := UnrolledStep(s, j, i, value, uvMax);
      if more {
        more, value, i := UnrolledStep(s, j, i, value, uvMax);
        if more {
          more, value, i := UnrolledStep(s, j, i, value, uvMax);
          if more {
            more, value, i := UnrolledStep(s, j, i, value, uvMax);
            if more {
              more, value, i := UnrolledStep(s, j, i, value, uvMax);
              if more {
                more, value, i := UnrolledStep(s, j, i, value, uvMax);
                if more {
                  more, value, i := UnrolledStep(s, j, i, value, uvMax);
                  if more && i < |s| {
                    NineDigitsFit(s, j, i, value);
                    value, i, over := GuardedLoop(s, j, i, value, uvMax);
                    return;
                  }
                }
              }
            }
          }
        }
      }
    }
    ShortRun(s, j, i, value, uvMax);
  }

  // ----- The whole scanner -----

  method SpaceRun(s: string, i0: nat) returns (i: nat)
    requires i0 <= |s|
    ensures i == SkipSpaces(s, i0)
  {
    i := i0;
    while i < |s| && IsSpace(s[i])
      invariant i0 <= i <= |s| && SkipSpaces(s, i) == SkipSpaces(s, i0)
    {
      i := i + 1;
    }
  }

  // grok_numeric_radix outside any locale.
  method GrokNumericRadix(s: string, i0: nat) returns (found: bool, i: nat)
    requires i0 <= |s|
    ensures found == (i0 < |s| && s[i0] == '.') && i == if found then i0 + 1 else i0
  {
    found, i := false, i0;
    if i < |s| && s[i] == '.' {
      found, i := true, i + 1;
    }
  }

  method ScanInf(s: string, j: nat) returns (e: Option<nat>)
    requires j < |s| && IsLetter(s[j], 'i')
    ensures e == InfEnd(s, j)
  {
    var i := j + 1;
    if i == |s| || !IsLetter(s[i], 'n') { return None; }
    i := i + 1;
    if i == |s| || !IsLetter(s[i], 'f') { return None; }
    i := i + 1;
    if i < |s| && IsLetter(s[i], 'i') {
      i := i + 1;
      if i == |s| || !IsLetter(s[i], 'n') { return None; }
      i := i + 1;
      if i == |s| || !IsLetter(s[i], 'i') { return None; }
      i := i + 1;
      if i == |s| || !IsLetter(s[i], 't') { return None; }
      i := i + 1;
      if i == |s| || !IsLetter(s[i], 'y') { return None; }
      i := i + 1;
    }
    return Some(i);
  }

  method ScanNan(s: string, j: nat) returns (ok: bool)
    requires j < |s| && IsLetter(s[j], 'n')
    ensures ok == IsNan(s, j)
  {
    var i := j + 1;
    if i == |s| || !IsLetter(s[i], 'a') { return false; }
    i := i + 1;
    if i == |s| || !IsLetter(s[i], 'n') { return false; }
    return true;
  }

  method FinishTail(s: string, i0: nat, numtype: NumType, out: Option<nat>) returns (r: Grokked)
    requires i0 <= |s|
    ensures r == GrokTail(s, i0, numtype, out)
  {
    var i := SpaceRun(s, i0);
    if i >= |s| {
      return Grokked(numtype, out);
    }
    if IsZeroButTrue(s) {
      return Grokked(NONE.(inUv := true), Some(0));
    }
    return Grokked(NONE, out);
  }

  method FinishExponent(s: string, i0: nat, numtype0: NumType, out: Option<nat>) returns (r: Grokked)
    requires i0 <= |s|
    ensures r == GrokExponent(s, i0, numtype0, out)
  {
    var i, numtype := i0, numtype0;
    if i < |s| {
      if s[i] == 'e' || s[i] == 'E' {
        numtype := SignOnly(numtype);
        numtype := numtype.(notInt := true);
        i := i + 1;
        if i < |s| && (s[i] == '-' || s[i] == '+') {
          i := i + 1;
        }
        if i < |s| && IsDigit(s[i]) {
          i := DigitRun(s, i);
        } else {
          return Grokked(NONE, out);
        }
      }
    }
    r := FinishTail(s, i, numtype, out);
  }

  method ScanDecimal(s: string, j: nat, neg: NumType, uvMax: nat) returns (r: Grokked)
    requires 0xFFFF_FFFF <= uvMax && j < |s| && IsDigit(s[j])
    ensures r == GrokDecimal(s, j, neg, uvMax)
  {
    var numtype, out := neg, None;
    var value, i, over := GrokInteger(s, j, uvMax);
    if over {
      numtype := numtype.(greater := true);
    } else {
      numtype := numtype.(inUv := true);
      out := Some(value);
    }
    var found;
    found, i := GrokNumericRadix(s, i);
    if found {
      numtype := numtype.(notInt := true);
      i := DigitRun(s, i);
    }
    r := FinishExponent(s, i, numtype, out);
  }

  method ScanBody(s: string, j: nat, neg: NumType, uvMax: nat) returns (r: Grokked)
    requires 0xFFFF_FFFF <= uvMax && j < |s|
    ensures r == GrokBody(s, j, neg, uvMax)
  {
    var i, numtype := j, neg;
    var found;
    if IsDigit(s[i]) {
      r := ScanDecimal(s, i, neg, uvMax);
      return;
    }
    found, i := GrokNumericRadix(s, i);
    if found {
      numtype := numtype.(notInt := true, inUv := true);
      if i < |s| && IsDigit(s[i]) {
        i := DigitRun(s, i);
        r := FinishExponent(s, i, numtype, Some(0));
      } else {
        r := Grokked(NONE, None);
      }
    } else if IsLetter(s[i], 'i') {
      var e := ScanInf(s, i);
      if e.None? { return Grokked(NONE, None); }
      r := FinishTail(s, e.value, numtype.(infinity := true, notInt := true), None);
    } else if IsLetter(s[i], 'n') {
      var ok := ScanNan(s, i);
      if !ok { return Grokked(NONE, None); }
      r := FinishTail(s, i + 3, numtype.(nan := true, notInt := true), None);
    } else {
      r := Grokked(NONE, None);
    }
  }

  method GrokNumber(s: string, uvMax: nat) returns (r: Grokked)
    requires 0xFFFF_FFFF <= uvMax
    ensures r == Grok(s, uvMax)
  {
    var numtype := NONE;
    var i := SpaceRun(s, 0);
    if i == |s| {
      return Grokked(NONE, None);
    } else if s[i] == '-' {
      i := i + 1;
      numtype := NONE.(neg := true);
    } else if s[i] == '+' {
      i := i + 1;
    }
    if i == |s| {
      return Grokked(NONE, None);
    }
    r := ScanBody(s, i, numtype, uvMax);
  }
}
