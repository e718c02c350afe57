// The radix scanners of Astro-Hipparcos/ppport.h: grok_bin, grok_oct and grok_hex.
// UVs are w bits wide; the NV accumulator is an ideal real.
module GrokRadix {
  import opened Numerals
  import opened Options
  import opened Texts

  datatype Radix = Bin | Oct | Hex {
    function Bits(): nat {
      match this case Bin => 1 case Oct => 3 case Hex => 4
    }

    function Base(): nat {
      match this case Bin => 2 case Oct => 8 case Hex => 16
    }

    predicate IsDig(c: char) {
      match this
      case Bin => c == '0' || c == '1'
      case Oct => '0' <= c <= '7'
      case Hex => '0' <= c <= '9' || 'a' <= c <= 'f' || 'A' <= c <= 'F'
    }

    function DigVal(c: char): (d: nat)
      requires IsDig(c)
      ensures d < Base()
    {
      if c <= '9' then c as int - '0' as int
      else if c <= 'F' then c as int - 'A' as int + 10
      else c as int - 'a' as int + 10
    }

    // The digits an underscore may precede; grok_oct tests the digit's value for
    // truth and so refuses one before a zero.
    predicate AfterUnderscore(c: char) {
      IsDig(c) && (Oct? ==> c != '0')
    }
  }

  function UvMax(w: nat): nat
    requires 1 <= w
  {
    PowPositive(2, w);
    Pow(2, w) - 1
  }

  lemma {:induction false} PowPositive(base: nat, e: nat)
    requires 1 <= base
    ensures 1 <= Pow(base, e)
  {
    if e > 0 { PowPositive(base, e - 1); }
  }

  // ----- Reference: what is scanned and what it is worth -----

  // The number of characters the scanner takes at position i: a digit, or an
  // underscore and a digit; 0 where it stops.
  function StepAt(radix: Radix, us: bool, s: string, i: nat): (n: nat)
    ensures 0 < n ==> i + n <= |s| && radix.IsDig(s[i + n - 1])
  {
    if i < |s| && radix.IsDig(s[i]) then 1
    else if i + 1 < |s| && us && s[i] == '_' && radix.AfterUnderscore(s[i + 1]) then 2
    else 0
  }

  // The digits scanned from position i.
  function Digits(radix: Radix, us: bool, s: string, i: nat): seq<nat>
    decreases |s| - i
  {
    var n := StepAt(radix, us, s, i);
    if n == 0 then [] else [radix.DigVal(s[i + n - 1])] + Digits(radix, us, s, i + n)
  }

  // The position where the scan from i stops.
  function End(radix: Radix, us: bool, s: string, i: nat): (e: nat)
    requires i <= |s|
    ensures i <= e <= |s|
    decreases |s| - i
  {
    var n := StepAt(radix, us, s, i);
    if n == 0 then i else End(radix, us, s, i + n)
  }

  // A leading x, 0x, b or 0b is skipped unless the caller forbids it.
  function PrefixLength(radix: Radix, allowPrefix: bool, s: string): (n: nat)
    ensures n <= |s|
  {
    if radix.Oct? || !allowPrefix then 0
    else
      var mark := if radix.Hex? then 'x' else 'b';
      if 1 <= |s| && s[0] == mark then 1
      else if 2 <= |s| && s[0] == '0' && s[1] == mark then 2
      else 0
  }

  datatype Grokked = Grokked(value: nat, length: nat, overflow: bool, nv: Option<real>)

  // The exact value if it fits a UV, or else UV_MAX, the overflow flag and the value as NV.
  function Fit(n: nat, length: nat, w: nat): Grokked
    requires 1 <= w
  {
    if n <= UvMax(w) then Grokked(n, length, false, None)
    else Grokked(UvMax(w), length, true, Some(n as real))
  }

  function Outcome(radix: Radix, w: nat, us: bool, allowPrefix: bool, s: string): Grokked
    requires 1 <= w
  {
    var p := PrefixLength(radix, allowPrefix, s);
    Fit(Horner(Digits(radix, us, s, p), radix.Base()), End(radix, us, s, p), w)
  }

  // ----- The scanners -----

  // The accumulators stand for the digits ds read so far.
  ghost predicate Holds(ds: seq<nat>, radix: Radix, w: nat, value: nat, nv: real, overflowed: bool)
    requires 1 <= w
  {
    var n := Horner(ds, radix.Base());
    if overflowed then n > UvMax(w) && nv == n as real else n <= UvMax(w) && value == n
  }

  // (value << bits) | d on w-bit words; the shifted-in bits are clear, so | adds.
  function ShlOr(value: nat, bits: nat, d: nat, w: nat): nat {
    PowPositive(2, w);
    (value * Pow(2, bits)) % Pow(2, w) + d
  }

  lemma DoubleProduct(x: int, y: int)
    ensures x * (y * 2) == (x * y) * 2
  {}

  lemma {:induction false} PowSplit(a: nat, b: nat)
    ensures Pow(2, a + b) == Pow(2, a) * Pow(2, b)
  {
    if b > 0 {
      PowSplit(a, b - 1);
      DoubleProduct(Pow(2, a), Pow(2, b - 1));
    }
  }

  lemma BitsOfBase(radix: Radix)
    ensures Pow(2, radix.Bits()) == radix.Base()
  {
    assert Pow(2, 1) == 2;
    assert Pow(2, 2) == 4;
    assert Pow(2, 3) == 8;
    assert Pow(2, 4) == 16;
  }

  lemma DivideByBase(radix: Radix, q: nat, v: nat, d: nat)
    requires 1 <= q && d < radix.Base()
    ensures v <= (q * radix.Base() - 1) / radix.Base() <==> v * radix.Base() + d <= q * radix.Base() - 1
  {}

  // max_div guards the shift exactly: the next value fits if and only if it passes.
  lemma GuardIsExact(radix: Radix, w: nat, value: nat, d: nat)
    requires 32 <= w && d < radix.Base()
    ensures value <= UvMax(w) / radix.Base() <==> value * radix.Base() + d <= UvMax(w)
    ensures value <= UvMax(w) / radix.Base() ==> ShlOr(value, radix.Bits(), d, w) == value * radix.Base() + d
  {
    var q := Pow(2, w - radix.Bits());
    BitsOfBase(radix);
    PowSplit(w - radix.Bits(), radix.Bits());
    PowPositive(2, w - radix.Bits());
    DivideByBase(radix, q, value, d);
    if value <= UvMax(w) / radix.Base() {
      ModSmall(value * radix.Base(), Pow(2, w));
    }
  }

  // The scan from p is the digits ds, read up to i, followed by the scan from i.
  ghost predicate Sofar(radix: Radix, us: bool, s: string, p: nat, i: nat, ds: seq<nat>) {
    && p <= |s| && i <= |s|
    && Digits(radix, us, s, p) == ds + Digits(radix, us, s, i)
    && End(radix, us, s, p) == End(radix, us, s, i)
  }

  lemma SofarStep(radix: Radix, us: bool, s: string, p: nat, i: nat, ds: seq<nat>)
    requires Sofar(radix, us, s, p, i, ds)
    ensures var n := StepAt(radix, us, s, i); 0 < n ==> Sofar(radix, us, s, p, i + n, ds + [radix.DigVal(s[i + n - 1])])
  {}

  // The code at the redo label of each scanner.
  method Push(radix: Radix, w: nat, value: nat, nv: real, overflowed: bool, d: nat,
              ghost us: bool, ghost s: string, ghost p: nat, ghost i: nat, ghost ds: seq<nat>)
    returns (value': nat, nv': real, overflowed': bool)
    requires 32 <= w && Holds(ds, radix, w, value, nv, overflowed)
    requires Sofar(radix, us, s, p, i, ds)
    requires var n := StepAt(radix, us, s, i); 0 < n && d == radix.DigVal(s[i + n - 1])
    ensures Holds(ds + [d], radix, w, value', nv', overflowed')
    ensures Sofar(radix, us, s, p, i + StepAt(radix, us, s, i), ds + [d])
  {
    SofarStep(radix, us, s, p, i, ds);
    HornerSnoc(ds, d, radix.Base());
    value', nv', overflowed' := value, nv, overflowed;
    if !overflowed {
      GuardIsExact(radix, w, value, d);
      if value <= UvMax(w) / radix.Base() {
        value' := ShlOr(value, radix.Bits(), d, w);
        return;
      }
      overflowed' := true;
      nv' := value as real;
    } else {
      OverflowStays(Horner(ds, radix.Base()), radix.Base(), d, UvMax(w));
    }
    ghost var before := nv';
    nv' := nv' * radix.Base() as real;
    nv' := nv' + d as real;
    RealHorner(Horner(ds, radix.Base()), radix.Base(), d);
  }

  lemma OverflowStays(n: nat, b: nat, d: nat, max: nat)
    requires n > max && 1 <= b
    ensures n * b + d > max
  {}

  lemma RealHorner(n: nat, b: nat, d: nat)
    ensures n as real * b as real + d as real == (n * b + d) as real
  {}

  // The end of each scanner.
  method Finish(radix: Radix, w: nat, us: bool, allowPrefix: bool, s: string, i: nat,
                value: nat, nv: real, overflowed: bool, ghost ds: seq<nat>) returns (r: Grokked)
    requires 32 <= w && Sofar(radix, us, s, PrefixLength(radix, allowPrefix, s), i, ds)
    requires StepAt(radix, us, s, i) == 0
    requires Holds(ds, radix, w, value, nv, overflowed)
    ensures r == Outcome(radix, w, us, allowPrefix, s)
  {
    assert ds + [] == ds;
    if !overflowed {
      return Grokked(value, i, false, None);
    }
    r := Grokked(UvMax(w), i, true, Some(nv));
  }

  // Nothing is read at the start.
  lemma ScanStarts(radix: Radix, w: nat, us: bool, s: string, p: nat)
    requires 1 <= w && p <= |s|
    ensures Sofar(radix, us, s, p, p, []) && Holds([], radix, w, 0, 0.0, false)
  {
    assert [] + Digits(radix, us, s, p) == Digits(radix, us, s, p);
  }

  // The prefix test of grok_bin and grok_hex.
  method StripPrefix(radix: Radix, s: string, disallowPrefix: bool) returns (i: nat)
    requires !radix.Oct?
    ensures i == PrefixLength(radix, !disallowPrefix, s)
  {
    var mark := if radix.Hex? then 'x' else 'b';
    i := 0;
    if !disallowPrefix {
      if 1 <= |s| {
        if s[0] == mark {
          i := 1;
        } else if 2 <= |s| && s[0] == '0' && s[1] == mark {
          i := 2;
        }
      }
    }
  }

  method GrokBin(s: string, w: nat, allowUnderscores: bool, disallowPrefix: bool) returns (r: Grokked)
    requires 32 <= w
    ensures r == Outcome(Bin, w, allowUnderscores, !disallowPrefix, s)
  {
    hide Holds, Sofar, Digits, End, Horner, UvMax, PrefixLength;
    var i := StripPrefix(Bin, s, disallowPrefix);
    ghost var p, ds: seq<nat> := i, [];
    var value, nv, overflowed := 0, 0.0, false;
    ScanStarts(Bin, w, allowUnderscores, s, i);
    while i < |s| && s[i] != '\0'
      invariant i <= |s| && Sofar(Bin, allowUnderscores, s, p, i, ds)
      invariant Holds(ds, Bin, w, value, nv, overflowed)
    {
      var bit := s[i];
      ghost var i0 := i;
      if bit != '0' && bit != '1' {
        if !(bit == '_' && i + 1 < |s| && allowUnderscores && (s[i + 1] == '0' || s[i + 1] == '1')) {
          break;
        }
        i := i + 1;
        bit := s[i];
      }
      var d := bit as int - '0' as int;
      value, nv, overflowed := Push(Bin, w, value, nv, overflowed, d, allowUnderscores, s, p, i0, ds);
      ds := ds + [d];
      i := i + 1;
    }
    r := Finish(Bin, w, allowUnderscores, !disallowPrefix, s, i, value, nv, overflowed, ds);
  }

  method GrokHex(s: string, w: nat, allowUnderscores: bool, disallowPrefix: bool) returns (r: Grokked)
    requires 32 <= w
    ensures r == Outcome(Hex, w, allowUnderscores, !disallowPrefix, s)
  {
    hide Holds, Sofar, Digits, End, Horner, UvMax, PrefixLength;
    var i := StripPrefix(Hex, s, disallowPrefix);
    ghost var p, ds: seq<nat> := i, [];
    var value, nv, overflowed := 0, 0.0, false;
    ScanStarts(Hex, w, allowUnderscores, s, i);
    while i < |s| && s[i] != '\0'
      invariant i <= |s| && Sofar(Hex, allowUnderscores, s, p, i, ds)
      invariant Holds(ds, Hex, w, value, nv, overflowed)
    {
      ghost var i0 := i;
      if !Hex.IsDig(s[i]) {
        if !(s[i] == '_' && i + 1 < |s| && allowUnderscores && s[i + 1] != '\0' && Hex.IsDig(s[i + 1])) {
          break;
        }
        i := i + 1;
      }
      var d := Hex.DigVal(s[i]);
      value, nv, overflowed := Push(Hex, w, value, nv, overflowed, d, allowUnderscores, s, p, i0, ds);
      ds := ds + [d];
      i := i + 1;
    }
    r := Finish(Hex, w, allowUnderscores, !disallowPrefix, s, i, value, nv, overflowed, ds);
  }

  method GrokOct(s: string, w: nat, allowUnderscores: bool) returns (r: Grokked)
    requires 32 <= w
    ensures r == Outcome(Oct, w, allowUnderscores, false, s)
  {
    hide Holds, Sofar, Digits, End, Horner, UvMax;
    var i := 0;
    ghost var ds: seq<nat> := [];
    var value, nv, overflowed := 0, 0.0, false;
    ScanStarts(Oct, w, allowUnderscores, s, i);
    while i < |s| && s[i] != '\0'
      invariant i <= |s| && Sofar(Oct, allowUnderscores, s, 0, i, ds)
      invariant Holds(ds, Oct, w, value, nv, overflowed)
    {
      var digit := s[i] as int - '0' as int;
      ghost var i0 := i;
      if !(0 <= digit <= 7) {
        if !(digit == '_' as int - '0' as int && i + 1 < |s| && allowUnderscores) {
          break;
        }
        digit := s[i + 1] as int - '0' as int;
        if digit == 0 || !(0 <= digit <= 7) {
          break;
        }
        i := i + 1;
      }
      value, nv, overflowed := Push(Oct, w, value, nv, overflowed, digit, allowUnderscores, s, 0, i0, ds);
      ds := ds + [digit];
      i := i + 1;
    }
    r := Finish(Oct, w, allowUnderscores, false, s, i, value, nv, overflowed, ds);
  }

  // ----- The accepted text -----

  // One accepted digit, possibly after an underscore.
  datatype Token = Token(underscore: bool, digit: char) {
    predicate Valid(radix: Radix, us: bool) {
      radix.IsDig(digit) && (underscore ==> us && radix.AfterUnderscore(digit))
    }

    function Text(): string {
      if underscore then ['_', digit] else [digit]
    }
  }

  predicate AllValid(ts: seq<Token>, radix: Radix, us: bool) {
    forall i :: 0 <= i < |ts| ==> ts[i].Valid(radix, us)
  }

  function Render(ts: seq<Token>): string {
    if ts == [] then [] else ts[0].Text() + Render(ts[1..])
  }

  function TokenVals(ts: seq<Token>, radix: Radix, us: bool): seq<nat>
    requires AllValid(ts, radix, us)
  {
    if ts == [] then [] else [radix.DigVal(ts[0].digit)] + TokenVals(ts[1..], radix, us)
  }

  lemma StandsCons(t: Token, rest: seq<Token>, s: string, i: nat)
    ensures StandsAt(Render([t] + rest), s, i)
      <==> StandsAt(t.Text(), s, i) && StandsAt(Render(rest), s, i + |t.Text()|)
  {
    var a, b := t.Text(), Render(rest);
    assert ([t] + rest)[1..] == rest;
    assert Render([t] + rest) == a + b;
    StandsConcat(a, b, s, i);
  }

  // ts is a sequence of tokens that stands in s from position i on.
  ghost predicate Reads(radix: Radix, us: bool, ts: seq<Token>, s: string, i: nat) {
    AllValid(ts, radix, us) && StandsAt(Render(ts), s, i)
  }

  lemma TokenStep(radix: Radix, us: bool, s: string, i: nat, t: Token)
    ensures t.Valid(radix, us) && StandsAt(t.Text(), s, i)
      <==> 0 < StepAt(radix, us, s, i) && t == Token(StepAt(radix, us, s, i) == 2, s[i + StepAt(radix, us, s, i) - 1])
    ensures t.Valid(radix, us) && StandsAt(t.Text(), s, i) ==> StepAt(radix, us, s, i) == |t.Text()|
  {
    if StandsAt(t.Text(), s, i) {
      StandsChar(t.Text(), s, i, 0);
      if t.underscore {
        StandsChar(t.Text(), s, i, 1);
      }
    }
  }

  lemma ReadsCons(radix: Radix, us: bool, t: Token, rest: seq<Token>, s: string, i: nat)
    ensures Reads(radix, us, [t] + rest, s, i)
      <==> t.Valid(radix, us) && StandsAt(t.Text(), s, i) && Reads(radix, us, rest, s, i + |t.Text()|)
    ensures |Render([t] + rest)| == |t.Text()| + |Render(rest)|
    ensures Reads(radix, us, [t] + rest, s, i)
      ==> TokenVals([t] + rest, radix, us) == [radix.DigVal(t.digit)] + TokenVals(rest, radix, us)
  {
    var ts := [t] + rest;
    assert ts[0] == t && ts[1..] == rest;
    StandsCons(t, rest, s, i);
    assert AllValid(ts, radix, us) <==> t.Valid(radix, us) && AllValid(rest, radix, us) by {
      if AllValid(ts, radix, us) {
        assert ts[0].Valid(radix, us);
        forall k | 0 <= k < |rest|
          ensures rest[k].Valid(radix, us)
        {
          assert ts[k + 1].Valid(radix, us);
        }
      }
    }
  }

  lemma NoTokens(radix: Radix, us: bool, s: string, i: nat)
    requires i <= |s|
    ensures Reads(radix, us, [], s, i) && Render([]) == [] && TokenVals([], radix, us) == []
  {}

  // The scan consumes a sequence of tokens and yields their digits.
  lemma {:induction false} ScanReadsTokens(radix: Radix, us: bool, s: string, i: nat) returns (ts: seq<Token>)
    requires i <= |s|
    ensures Reads(radix, us, ts, s, i)
    ensures i + |Render(ts)| == End(radix, us, s, i)
    ensures TokenVals(ts, radix, us) == Digits(radix, us, s, i)
    decreases |s| - i
  {
    hide StandsAt, Render, TokenVals, AllValid, Token.Text, Token.Valid;
    var n := StepAt(radix, us, s, i);
    if n == 0 {
      NoTokens(radix, us, s, i);
      ts := [];
    } else {
      var rest := ScanReadsTokens(radix, us, s, i + n);
      var t := Token(n == 2, s[i + n - 1]);
      TokenStep(radix, us, s, i, t);
      ReadsCons(radix, us, t, rest, s, i);
      ts := [t] + rest;
    }
  }

  // Maximal munch: whatever sequence of tokens the input continues with, the scan
  // covers it and starts with exactly its digits.
  lemma {:induction false} ScanIsLongest(radix: Radix, us: bool, s: string, i: nat, ts: seq<Token>)
    requires Reads(radix, us, ts, s, i)
    ensures i + |Render(ts)| <= End(radix, us, s, i)
    ensures TokenVals(ts, radix, us) <= Digits(radix, us, s, i)
    decreases |ts|
  {
    if ts != [] {
      hide StandsAt, Render, TokenVals, AllValid, Token.Text, Token.Valid;
      var t, rest := ts[0], ts[1..];
      assert ts == [t] + rest;
      ReadsCons(radix, us, t, rest, s, i);
      TokenStep(radix, us, s, i, t);
      ScanIsLongest(radix, us, s, i + |t.Text()|, rest);
    }
  }

  // ----- Where grok_oct parts from the other two -----

  // One step of the scan in which an underscore may precede any digit.
  function LooseStep(radix: Radix, us: bool, s: string, i: nat): (n: nat)
    ensures 0 < n ==> i + n <= |s| && radix.IsDig(s[i + n - 1])
  {
    if i < |s| && radix.IsDig(s[i]) then 1
    else if i + 1 < |s| && us && s[i] == '_' && radix.IsDig(s[i + 1]) then 2
    else 0
  }

  function LooseDigits(radix: Radix, us: bool, s: string, i: nat): seq<nat>
    decreases |s| - i
  {
    var n := LooseStep(radix, us, s, i);
    if n == 0 then [] else [radix.DigVal(s[i + n - 1])] + LooseDigits(radix, us, s, i + n)
  }

  function LooseEnd(radix: Radix, us: bool, s: string, i: nat): (e: nat)
    requires i <= |s|
    ensures i <= e <= |s|
    decreases |s| - i
  {
    var n := LooseStep(radix, us, s, i);
    if n == 0 then i else LooseEnd(radix, us, s, i + n)
  }

  // An underscore stands before a zero between i and e.
  ghost predicate UnderscoreZero(s: string, i: nat, e: nat)
    requires e <= |s|
  {
    exists x :: i <= x && x + 1 < e && s[x] == '_' && s[x + 1] == '0'
  }

  lemma UnderscoreZeroStep(radix: Radix, us: bool, s: string, i: nat, e: nat)
    requires var n := LooseStep(radix, us, s, i); 0 < n && i + n <= e <= |s|
    ensures var n := LooseStep(radix, us, s, i);
            UnderscoreZero(s, i, e) <==> (n == 2 && s[i + 1] == '0') || UnderscoreZero(s, i + n, e)
  {
    if LooseStep(radix, us, s, i) == 2 && s[i + 1] == '0' {
      assert s[i] == '_' && i + 1 < e;
    }
  }

  // grok_bin and grok_hex follow that rule on every text; grok_oct does exactly on the
  // texts in which what the rule accepts has no underscore before a zero.
  lemma {:induction false} UnderscoreRule(radix: Radix, us: bool, s: string, i: nat)
    requires i <= |s|
    ensures End(radix, us, s, i) == LooseEnd(radix, us, s, i)
      <==> !(radix.Oct? && UnderscoreZero(s, i, LooseEnd(radix, us, s, i)))
    decreases |s| - i
  {
    hide UnderscoreZero;
    var n := LooseStep(radix, us, s, i);
    if n == 0 {
      EmptyStretch(s, i);
    } else {
      UnderscoreZeroStep(radix, us, s, i, LooseEnd(radix, us, s, i));
      if StepAt(radix, us, s, i) == n {
        UnderscoreRule(radix, us, s, i + n);
      }
    }
  }

  lemma EmptyStretch(s: string, i: nat)
    requires i <= |s|
    ensures !UnderscoreZero(s, i, i)
  {}

  // The digits agree with those of the rule on exactly the same texts.
  lemma {:induction false} UnderscoreDigits(radix: Radix, us: bool, s: string, i: nat)
    requires i <= |s|
    ensures Digits(radix, us, s, i) == LooseDigits(radix, us, s, i)
      <==> End(radix, us, s, i) == LooseEnd(radix, us, s, i)
    decreases |s| - i
  {
    var n := LooseStep(radix, us, s, i);
    if 0 < n && StepAt(radix, us, s, i) == n {
      UnderscoreDigits(radix, us, s, i + n);
      ConsInjective(radix.DigVal(s[i + n - 1]), Digits(radix, us, s, i + n), LooseDigits(radix, us, s, i + n));
    }
  }

  lemma ConsInjective(d: nat, a: seq<nat>, b: seq<nat>)
    ensures [d] + a == [d] + b <==> a == b
  {
    assert ([d] + a)[1..] == a && ([d] + b)[1..] == b;
  }

  // So a scanner gives the result of that rule on exactly those texts.
  lemma UnderscoreOutcome(radix: Radix, w: nat, us: bool, allowPrefix: bool, s: string)
    requires 1 <= w
    ensures var p := PrefixLength(radix, allowPrefix, s);
            var e := LooseEnd(radix, us, s, p);
            Outcome(radix, w, us, allowPrefix, s) == Fit(Horner(LooseDigits(radix, us, s, p), radix.Base()), e, w)
            <==> !(radix.Oct? && UnderscoreZero(s, p, e))
  {
    hide UnderscoreZero, End, LooseEnd, Digits, LooseDigits, PrefixLength, Horner, UvMax;
    UnderscoreRule(radix, us, s, PrefixLength(radix, allowPrefix, s));
    UnderscoreDigits(radix, us, s, PrefixLength(radix, allowPrefix, s));
  }

  lemma OctReadsOne()
    ensures Digits(Oct, true, "1_0", 0) == [1] && End(Oct, true, "1_0", 0) == 1
  {
    var s := "1_0";
    assert StepAt(Oct, true, s, 0) == 1 && StepAt(Oct, true, s, 1) == 0;
    assert Digits(Oct, true, s, 1) == [] && End(Oct, true, s, 1) == 1;
  }

  lemma HexReadsAll()
    ensures Digits(Hex, true, "1_0", 0) == [1, 0] && End(Hex, true, "1_0", 0) == 3
  {
    var s := "1_0";
    assert StepAt(Hex, true, s, 0) == 1 && StepAt(Hex, true, s, 1) == 2 && StepAt(Hex, true, s, 3) == 0;
    assert Digits(Hex, true, s, 3) == [] && End(Hex, true, s, 3) == 3;
    assert Digits(Hex, true, s, 1) == [0] && End(Hex, true, s, 1) == 3;
  }

  lemma ShortValues()
    ensures Horner([1], 8) == 1 && Horner([1, 0], 16) == 16
  {
    assert [1, 0][..1] == [1] && [1][..0] == [];
  }

  // Such as 1_0: the test at line 6638 takes the zero for a failed test.
  lemma OctStopsBeforeUnderscoreZero(w: nat)
    requires 32 <= w
    ensures Outcome(Oct, w, true, false, "1_0") == Grokked(1, 1, false, None)
    ensures Outcome(Hex, w, true, false, "1_0") == Grokked(16, 3, false, None)
  {
    hide Digits, End, Horner, UvMax;
    UvMaxIsLarge(w);
    OctReadsOne();
    HexReadsAll();
    ShortValues();
  }

  lemma UvMaxIsLarge(w: nat)
    requires 32 <= w
    ensures 16 <= UvMax(w)
  {
    PowSplit(w - 5, 5);
    PowPositive(2, w - 5);
    assert Pow(2, 4) == 16;
    assert Pow(2, 5) == 32;
  }

  // ----- Reading what an independent printer writes -----

  function Letter(d: nat, upper: bool): char
    requires d < 16
  {
    if upper then "0123456789ABCDEF"[d] else "0123456789abcdef"[d]
  }

  // n in base 2, 8 or 16.
  function Written(n: nat, base: nat, upper: bool): (t: string)
    requires 2 <= base <= 16
    ensures t != []
  {
    if n < base then [Letter(n, upper)] else Written(n / base, base, upper) + [Letter(n % base, upper)]
  }

  // Each letter is a digit with its value.
  lemma LettersCount(radix: Radix, d: nat, upper: bool)
    requires d < radix.Base()
    ensures radix.IsDig(Letter(d, upper)) && radix.DigVal(Letter(d, upper)) == d
  {}

  // There are no other digits.
  lemma DigitsAreLetters(radix: Radix, c: char)
    ensures radix.IsDig(c) <==> exists d, upper :: 0 <= d < radix.Base() && c == Letter(d, upper)
  {
    if radix.IsDig(c) {
      assert c == Letter(radix.DigVal(c), false) || c == Letter(radix.DigVal(c), true);
    }
  }

  predicate AllDig(radix: Radix, t: string) {
    forall i :: 0 <= i < |t| ==> radix.IsDig(t[i])
  }

  function DigVals(radix: Radix, t: string): seq<nat>
    requires AllDig(radix, t)
  {
    seq(|t|, i requires 0 <= i < |t| => radix.DigVal(t[i]))
  }

  lemma OneMoreDigit(radix: Radix, t: string, c: char)
    requires AllDig(radix, t) && radix.IsDig(c)
    ensures AllDig(radix, t + [c])
    ensures Horner(DigVals(radix, t + [c]), radix.Base())
         == Horner(DigVals(radix, t), radix.Base()) * radix.Base() + radix.DigVal(c)
  {
    hide Horner;
    assert DigVals(radix, t + [c]) == DigVals(radix, t) + [radix.DigVal(c)];
    HornerSnoc(DigVals(radix, t), radix.DigVal(c), radix.Base());
  }

  lemma DivMod(n: nat, b: nat)
    requires 0 < b
    ensures n / b * b + n % b == n
  {}

  lemma {:induction false} WrittenValue(radix: Radix, n: nat, upper: bool)
    ensures var t := Written(n, radix.Base(), upper);
            AllDig(radix, t) && Horner(DigVals(radix, t), radix.Base()) == n
  {
    hide Horner, DigVals, AllDig, Letter;
    var b := radix.Base();
    LettersCount(radix, n % b, upper);
    if n < b {
      NoDigits(radix);
      OneMoreDigit(radix, [], Letter(n, upper));
      assert [] + [Letter(n, upper)] == [Letter(n, upper)];
    } else {
      WrittenValue(radix, n / b, upper);
      OneMoreDigit(radix, Written(n / b, b, upper), Letter(n % b, upper));
      DivMod(n, b);
    }
  }

  lemma NoDigits(radix: Radix)
    ensures AllDig(radix, []) && Horner(DigVals(radix, []), radix.Base()) == 0
  {}

  // A text of digits is scanned to its end.
  lemma {:induction false} DigitsAreScanned(radix: Radix, us: bool, pre: string, t: string, k: nat)
    requires AllDig(radix, t) && k <= |t|
    ensures Digits(radix, us, pre + t, |pre| + k) == DigVals(radix, t)[k..]
    ensures End(radix, us, pre + t, |pre| + k) == |pre + t|
    decreases |t| - k
  {
    if k < |t| {
      DigitsAreScanned(radix, us, pre, t, k + 1);
      assert (pre + t)[|pre| + k] == t[k];
      assert StepAt(radix, us, pre + t, |pre| + k) == 1;
      assert DigVals(radix, t)[k..] == [radix.DigVal(t[k])] + DigVals(radix, t)[k + 1..];
    }
  }

  // What a scanner is to answer for the number n, written in length characters.
  ghost predicate Answers(r: Grokked, n: nat, length: nat, w: nat) {
    && r.length == length
    && (r.overflow <==> n >= Pow(2, w))
    && (if n < Pow(2, w) then r.value == n && r.nv == None
        else r.value == Pow(2, w) - 1 && r.nv == Some(n as real))
  }

  lemma FitAnswers(n: nat, length: nat, w: nat)
    requires 1 <= w
    ensures Answers(Fit(n, length, w), n, length, w)
  {
    PowPositive(2, w);
  }

  lemma NoPrefix(radix: Radix, allowPrefix: bool, t: string)
    requires AllDig(radix, t) && t != []
    ensures PrefixLength(radix, allowPrefix, t) == 0
  {}

  // Round trip: every number that is written in base 2, 8 or 16, in letters of either case,
  // is read back in full, or found too large exactly if it is.
  lemma WrittenIsRead(radix: Radix, n: nat, upper: bool, w: nat, us: bool, allowPrefix: bool)
    requires 1 <= w
    ensures var t := Written(n, radix.Base(), upper);
            Answers(Outcome(radix, w, us, allowPrefix, t), n, |t|, w)
  {
    hide Answers, Horner, Digits, End, Written, UvMax, PrefixLength;
    var t := Written(n, radix.Base(), upper);
    WrittenValue(radix, n, upper);
    DigitsAreScanned(radix, us, [], t, 0);
    assert [] + t == t && DigVals(radix, t)[0..] == DigVals(radix, t);
    NoPrefix(radix, allowPrefix, t);
    FitAnswers(n, |t|, w);
  }

  // The prefixes of a radix; octal has none.
  predicate IsPrefix(radix: Radix, pre: string) {
    match radix
    case Bin => pre == "b" || pre == "0b"
    case Oct => false
    case Hex => pre == "x" || pre == "0x"
  }

  lemma PrefixIsSkipped(radix: Radix, pre: string, t: string)
    requires IsPrefix(radix, pre)
    ensures PrefixLength(radix, true, pre + t) == |pre|
  {
    assert (pre + t)[0] == pre[0];
    if |pre| == 2 {
      assert (pre + t)[1] == pre[1];
    }
  }

  // Nothing but a prefix is skipped, and none where it is forbidden.
  lemma SkippedIsPrefix(radix: Radix, allowPrefix: bool, s: string)
    ensures var n := PrefixLength(radix, allowPrefix, s); n > 0 ==> allowPrefix && IsPrefix(radix, s[..n])
  {}

  // The same after a prefix, which counts as consumed.
  lemma PrefixedIsRead(radix: Radix, pre: string, n: nat, upper: bool, w: nat, us: bool)
    requires 1 <= w && IsPrefix(radix, pre)
    ensures var t := Written(n, radix.Base(), upper);
            Answers(Outcome(radix, w, us, true, pre + t), n, |pre| + |t|, w)
  {
    hide Answers, Horner, Digits, End, Written, UvMax, PrefixLength, IsPrefix;
    var t := Written(n, radix.Base(), upper);
    WrittenValue(radix, n, upper);
    DigitsAreScanned(radix, us, pre, t, 0);
    assert DigVals(radix, t)[0..] == DigVals(radix, t);
    PrefixIsSkipped(radix, pre, t);
    FitAnswers(n, |pre| + |t|, w);
  }

  // If it is forbidden, the scan stops before its letter: nothing or a zero is read.
  lemma ForbiddenPrefixStops(radix: Radix, pre: string, t: string, w: nat, us: bool)
    requires 1 <= w && IsPrefix(radix, pre)
    ensures Answers(Outcome(radix, w, us, false, pre + t), 0, |pre| - 1, w)
  {
    var s := pre + t;
    hide Answers, Horner, Digits, End, UvMax;
    assert s[..|pre|] == pre;
    assert s[|pre| - 1] == pre[|pre| - 1];
    StopsHere(radix, us, s, |pre| - 1);
    if |pre| == 2 {
      assert s[0] == pre[0];
      ZeroFirst(radix, us, s);
      assert [0] + [] == [0];
    }
    ZeroValue(radix.Base());
    FitAnswers(0, |pre| - 1, w);
  }

  lemma StopsHere(radix: Radix, us: bool, s: string, i: nat)
    requires i < |s| && !radix.IsDig(s[i]) && s[i] != '_'
    ensures Digits(radix, us, s, i) == [] && End(radix, us, s, i) == i
  {}

  lemma ZeroFirst(radix: Radix, us: bool, s: string)
    requires 1 < |s| && s[0] == '0'
    ensures Digits(radix, us, s, 0) == [0] + Digits(radix, us, s, 1) && End(radix, us, s, 0) == End(radix, us, s, 1)
  {
    assert StepAt(radix, us, s, 0) == 1;
  }

  lemma ZeroValue(base: nat)
    ensures Horner([], base) == 0 && Horner([0], base) == 0
  {
    HornerSnoc([], 0, base);
    assert [] + [0] == [0];
  }

  // ----- Rewriting digits as bits -----

  function BitsOf(d: nat, k: nat): seq<nat> {
    if k == 0 then [] else BitsOf(d / 2, k - 1) + [d % 2]
  }

  function Expand(ds: seq<nat>, k: nat): seq<nat> {
    if ds == [] then [] else Expand(ds[..|ds| - 1], k) + BitsOf(ds[|ds| - 1], k)
  }

  predicate AreBits(bs: seq<nat>) {
    forall i :: 0 <= i < |bs| ==> bs[i] < 2
  }

  function BitText(bs: seq<nat>): string {
    seq(|bs|, i requires 0 <= i < |bs| => if bs[i] == 0 then '0' else '1')
  }

  lemma {:induction false} BitsOfValue(d: nat, k: nat)
    requires d < Pow(2, k)
    ensures |BitsOf(d, k)| == k && AreBits(BitsOf(d, k)) && Horner(BitsOf(d, k), 2) == d
  {
    if k > 0 {
      BitsOfValue(d / 2, k - 1);
      HornerSnoc(BitsOf(d / 2, k - 1), d % 2, 2);
    }
  }

  lemma {:induction false} ExpandValue(ds: seq<nat>, k: nat)
    requires AllBelow(ds, Pow(2, k))
    ensures AreBits(Expand(ds, k)) && Horner(Expand(ds, k), 2) == Horner(ds, Pow(2, k))
  {
    if ds != [] {
      var init, d := ds[..|ds| - 1], ds[|ds| - 1];
      ExpandValue(init, k);
      BitsOfValue(d, k);
      HornerConcat(Expand(init, k), BitsOf(d, k), 2);
    }
  }

  lemma BitTextAt(us: bool, bs: seq<nat>, i: nat)
    requires AreBits(bs) && i < |bs|
    ensures StepAt(Bin, us, BitText(bs), i) == 1 && Bin.DigVal(BitText(bs)[i]) == bs[i]
  {}

  lemma {:induction false} ScanBitText(us: bool, bs: seq<nat>, i: nat)
    requires AreBits(bs) && i <= |bs|
    ensures Digits(Bin, us, BitText(bs), i) == bs[i..] && End(Bin, us, BitText(bs), i) == |bs|
    decreases |bs| - i
  {
    if i < |bs| {
      BitTextAt(us, bs, i);
      ScanBitText(us, bs, i + 1);
      assert bs[i..] == [bs[i]] + bs[i + 1..];
    }
  }

  lemma BitTextHasNoPrefix(bs: seq<nat>, allowPrefix: bool)
    ensures PrefixLength(Bin, allowPrefix, BitText(bs)) == 0
  {}

  lemma BitTextOutcome(w: nat, us: bool, allowPrefix: bool, bs: seq<nat>)
    requires 1 <= w && AreBits(bs)
    ensures Outcome(Bin, w, us, allowPrefix, BitText(bs)) == Fit(Horner(bs, 2), |bs|, w)
  {
    BitTextHasNoPrefix(bs, allowPrefix);
    ScanBitText(us, bs, 0);
    assert bs[0..] == bs;
  }

  ghost predicate AllBelow(ds: seq<nat>, base: nat) {
    forall k :: 0 <= k < |ds| ==> ds[k] < base
  }

  lemma {:induction false} DigitsBelowBase(radix: Radix, us: bool, s: string, i: nat)
    ensures AllBelow(Digits(radix, us, s, i), radix.Base())
    decreases |s| - i
  {
    var n := StepAt(radix, us, s, i);
    if n != 0 {
      DigitsBelowBase(radix, us, s, i + n);
    }
  }

  // Writing each digit that grok_hex or grok_oct accepts as four or three bits and
  // running grok_bin gives the same value, overflow verdict and NV, at every length.
  lemma BitsGiveSameResult(radix: Radix, w: nat, us: bool, allowPrefix: bool, s: string, us': bool, allowPrefix': bool)
    requires 32 <= w
    ensures var ds := Digits(radix, us, s, PrefixLength(radix, allowPrefix, s));
            var text := BitText(Expand(ds, radix.Bits()));
            Outcome(Bin, w, us', allowPrefix', text) == Outcome(radix, w, us, allowPrefix, s).(length := |text|)
  {
    hide Digits, End, Expand, Horner, PrefixLength, UvMax;
    var p := PrefixLength(radix, allowPrefix, s);
    var ds := Digits(radix, us, s, p);
    DigitsBelowBase(radix, us, s, p);
    BitsOfBase(radix);
    ExpandValue(ds, radix.Bits());
    BitTextOutcome(w, us', allowPrefix', Expand(ds, radix.Bits()));
  }
}
