// The language of grok_number, and the theorem that the scanner decides it.
module GrokGrammar {
  import opened Numerals
  import opened Options
  import opened Texts
  import opened GrokNumber

  datatype Sign = NoSign | Plus | Minus {
    function Text(): string {
      match this case NoSign => [] case Plus => ['+'] case Minus => ['-']
    }

    function Neg(): NumType {
      if Minus? then NONE.(neg := true) else NONE
    }
  }

  datatype Exponent = Exponent(letter: char, sign: Sign, digits: string) {
    predicate Valid() {
      (letter == 'e' || letter == 'E') && AllDigits(digits) && digits != []
    }

    function Text(): string {
      [letter] + sign.Text() + digits
    }
  }

  datatype Body =
    | Decimal(whole: string, frac: Option<string>, exp: Option<Exponent>)
    | Infinite(word: string)
    | NotANumber(word: string)
  {
    // A decimal needs a digit before or after the radix point.
    predicate Valid() {
      match this
      case Decimal(whole, frac, exp) =>
        && AllDigits(whole)
        && (frac.Some? ==> AllDigits(frac.value))
        && (whole != [] || (frac.Some? && frac.value != []))
        && (exp.Some? ==> exp.value.Valid())
      case Infinite(word) => (|word| == 3 && IsInf(word, 0)) || (|word| == 8 && IsInfinity(word, 0))
      case NotANumber(word) => |word| == 3 && IsNan(word, 0)
    }

    function Text(): string {
      match this
      case Decimal(whole, frac, exp) =>
        whole + FracText(frac) + ExpText(exp)
      case Infinite(word) => word
      case NotANumber(word) => word
    }
  }

  // blanks, optional sign, decimal or inf or infinity or nan, blanks
  datatype Numeral = Numeral(lead: string, sign: Sign, body: Body, trail: string) {
    predicate Valid() {
      AllSpace(lead) && body.Valid() && AllSpace(trail)
    }

    function Text(): string {
      lead + sign.Text() + body.Text() + trail
    }

    // The type flags of the numeral, and the integer part if a UV can hold it.
    ghost function Meaning(uvMax: nat): Grokked
      requires Valid()
    {
      var neg: NumType := sign.Neg();
      BodyMeaning(body, neg, uvMax)
    }
  }

  ghost function DecimalMeaning(whole: string, frac: Option<string>, exp: Option<Exponent>,
                                neg: NumType, uvMax: nat): Grokked
    requires AllDigits(whole)
  {
    var fits := Value(whole) <= uvMax;
    var numtype := if exp.Some? then neg.(notInt := true)
                   else neg.(inUv := fits, greater := !fits, notInt := frac.Some?);
    Grokked(numtype, if fits then Some(Value(whole)) else None)
  }

  ghost function BodyMeaning(body: Body, neg: NumType, uvMax: nat): Grokked
    requires body.Valid()
  {
    match body
    case Decimal(whole, frac, exp) => DecimalMeaning(whole, frac, exp, neg, uvMax)
    case Infinite(_) => Grokked(neg.(infinity := true, notInt := true), None)
    case NotANumber(_) => Grokked(neg.(nan := true, notInt := true), None)
  }

  // ----- Runs -----

  lemma DigitsRun(ds: string, s: string, i: nat)
    requires AllDigits(ds) && StandsAt(ds, s, i)
    requires i + |ds| == |s| || !IsDigit(s[i + |ds|])
    ensures SkipDigits(s, i) == i + |ds| && s[i..i + |ds|] == ds
  {
    SliceStands(ds, s, i);
    SkipRun(s, i, i + |ds|);
  }

  lemma {:induction false} SpacesRun(sp: string, s: string, i: nat)
    requires AllSpace(sp) && StandsAt(sp, s, i)
    requires i + |sp| == |s| || !IsSpace(s[i + |sp|])
    ensures SkipSpaces(s, i) == i + |sp|
    decreases |sp|
  {
    if sp != [] {
      StandsChar(sp, s, i, 0);
      forall k | 0 <= k < |sp[1..]|
        ensures At(sp[1..], k) == At(s, i + 1 + k)
      {
        StandsChar(sp, s, i, k + 1);
      }
      SpacesRun(sp[1..], s, i + 1);
    }
  }

  // ----- Every numeral is scanned with its meaning -----

  lemma TrailIsScanned(trail: string, s: string, i: nat, numtype: NumType, out: Option<nat>)
    requires AllSpace(trail) && StandsAt(trail, s, i) && i + |trail| == |s|
    ensures GrokTail(s, i, numtype, out) == Grokked(numtype, out)
  {
    SpacesRun(trail, s, i);
  }

  // The first character of what may follow a run of digits is no digit.
  lemma TrailStarts(trail: string, s: string, i: nat)
    requires AllSpace(trail) && StandsAt(trail, s, i) && i + |trail| == |s|
    ensures i < |s| ==> IsSpace(s[i])
  {
    if i < |s| {
      StandsChar(trail, s, i, 0);
    }
  }

  lemma SignStands(sign: Sign, s: string, i: nat)
    requires StandsAt(sign.Text(), s, i)
    ensures sign.Minus? ==> s[i] == '-'
    ensures sign.Plus? ==> s[i] == '+'
  {
    if !sign.NoSign? {
      StandsChar(sign.Text(), s, i, 0);
    }
  }

  // Where the parts of an exponent stand.
  lemma ExponentParts(x: Exponent, s: string, i: nat)
    requires x.Valid() && StandsAt(x.Text(), s, i)
    ensures var j := i + 1 + |x.sign.Text()|;
            && j < |s| && s[i] == x.letter && StandsAt(x.sign.Text(), s, i + 1)
            && StandsAt(x.digits, s, j) && IsDigit(s[j])
  {
    var t := x.sign.Text();
    StandsConcat([x.letter] + t, x.digits, s, i);
    StandsConcat([x.letter], t, s, i);
    StandsChar([x.letter], s, i, 0);
    StandsChar(x.digits, s, i + 1 + |t|, 0);
  }

  lemma ExponentIsScanned(x: Exponent, trail: string, s: string, i: nat, numtype: NumType, out: Option<nat>)
    requires x.Valid() && AllSpace(trail)
    requires StandsAt(x.Text(), s, i) && StandsAt(trail, s, i + |x.Text()|) && i + |x.Text()| + |trail| == |s|
    ensures GrokExponent(s, i, numtype, out) == Grokked(SignOnly(numtype).(notInt := true), out)
  {
    ExponentParts(x, s, i);
    SignStands(x.sign, s, i + 1);
    var j, e := i + 1 + |x.sign.Text()|, i + |x.Text()|;
    TrailStarts(trail, s, e);
    DigitsRun(x.digits, s, j);
    TrailIsScanned(trail, s, e, SignOnly(numtype).(notInt := true), out);
  }

  function ExpText(exp: Option<Exponent>): string {
    if exp.Some? then exp.value.Text() else []
  }

  function FracText(frac: Option<string>): string {
    if frac.Some? then ['.'] + frac.value else []
  }

  // The rest of a decimal after its digits: an optional exponent and blanks.
  ghost predicate EndsWith(exp: Option<Exponent>, trail: string, s: string, i: nat) {
    && (exp.Some? ==> exp.value.Valid())
    && AllSpace(trail)
    && StandsAt(ExpText(exp), s, i) && StandsAt(trail, s, i + |ExpText(exp)|)
    && i + |ExpText(exp)| + |trail| == |s|
  }

  lemma EndFits(exp: Option<Exponent>, trail: string, s: string, i: nat)
    requires EndsWith(exp, trail, s, i)
    ensures i <= |s|
  {}

  lemma EndStarts(exp: Option<Exponent>, trail: string, s: string, i: nat)
    requires EndsWith(exp, trail, s, i)
    ensures i < |s| ==> !IsDigit(s[i]) && s[i] != '.'
  {
    if exp.None? {
      TrailStarts(trail, s, i);
    } else {
      ExponentParts(exp.value, s, i);
    }
  }

  lemma EndIsScanned(exp: Option<Exponent>, trail: string, s: string, i: nat, numtype: NumType, out: Option<nat>)
    requires EndsWith(exp, trail, s, i)
    ensures GrokExponent(s, i, numtype, out)
         == Grokked(if exp.Some? then SignOnly(numtype).(notInt := true) else numtype, out)
  {
    if exp.None? {
      TrailStarts(trail, s, i);
      TrailIsScanned(trail, s, i, numtype, out);
    } else {
      ExponentIsScanned(exp.value, trail, s, i, numtype, out);
    }
  }

  // After the digits before it: the radix point and its digits, or nothing.
  lemma PointIsThere(f: string, exp: Option<Exponent>, trail: string, s: string, p: nat)
    requires AllDigits(f)
    requires StandsAt(['.'] + f, s, p) && EndsWith(exp, trail, s, p + 1 + |f|)
    ensures p < |s| && s[p] == '.' && SkipDigits(s, p + 1) == p + 1 + |f|
    ensures f != [] ==> p + 1 < |s| && IsDigit(s[p + 1])
  {
    StandsConcat(['.'], f, s, p);
    StandsChar(['.'], s, p, 0);
    EndStarts(exp, trail, s, p + 1 + |f|);
    DigitsRun(f, s, p + 1);
    if f != [] {
      StandsChar(f, s, p + 1, 0);
    }
  }

  lemma AfterWhole(frac: Option<string>, exp: Option<Exponent>, trail: string, s: string, p: nat)
    requires frac.Some? ==> AllDigits(frac.value)
    requires StandsAt(FracText(frac), s, p) && EndsWith(exp, trail, s, p + |FracText(frac)|)
    ensures p < |s| ==> !IsDigit(s[p]) && (s[p] == '.' <==> frac.Some?)
  {
    if frac.Some? {
      PointIsThere(frac.value, exp, trail, s, p);
    } else {
      EndStarts(exp, trail, s, p);
    }
  }

  // A decimal stands at j, and blanks follow it to the end.
  ghost predicate DecimalStands(whole: string, frac: Option<string>, exp: Option<Exponent>,
                                trail: string, s: string, j: nat)
  {
    && AllDigits(whole)
    && (frac.Some? ==> AllDigits(frac.value))
    && StandsAt(whole, s, j)
    && StandsAt(FracText(frac), s, j + |whole|)
    && EndsWith(exp, trail, s, j + |whole| + |FracText(frac)|)
  }

  lemma PointIsScanned(frac: string, exp: Option<Exponent>, trail: string, s: string, j: nat, neg: NumType, uvMax: nat)
    requires DecimalStands([], Some(frac), exp, trail, s, j) && frac != []
    requires neg == SignOnly(neg)
    ensures j < |s| && s[j] == '.' && GrokPoint(s, j, neg) == DecimalMeaning([], Some(frac), exp, neg, uvMax)
  {
    hide GrokExponent, EndsWith, StandsAt, ExpText, SkipDigits;
    EndFits(exp, trail, s, j + 1 + |frac|);
    var numtype, e := neg.(notInt := true, inUv := true), j + 1 + |frac|;
    var g := GrokExponent(s, e, numtype, Some(0));
    assert g == DecimalMeaning([], Some(frac), exp, neg, uvMax) by {
      EndIsScanned(exp, trail, s, e, numtype, Some(0));
      assert Value([]) == 0;
    }
    PointIsThere(frac, exp, trail, s, j);
  }

  lemma WholeDigits(whole: string, s: string, j: nat)
    requires AllDigits(whole) && whole != [] && StandsAt(whole, s, j)
    requires var p := j + |whole|; p == |s| || !IsDigit(s[p])
    ensures j < |s| && IsDigit(s[j])
    ensures SkipDigits(s, j) == j + |whole| && s[j..j + |whole|] == whole
  {
    StandsChar(whole, s, j, 0);
    DigitsRun(whole, s, j);
  }

  function RestType(t: NumType, frac: Option<string>, exp: Option<Exponent>): NumType {
    if exp.Some? then SignOnly(t).(notInt := true) else t.(notInt := frac.Some?)
  }

  lemma RestIsScanned(frac: Option<string>, exp: Option<Exponent>, trail: string, s: string, p: nat,
                      numtype: NumType, out: Option<nat>)
    requires frac.Some? ==> AllDigits(frac.value)
    requires StandsAt(FracText(frac), s, p) && EndsWith(exp, trail, s, p + |FracText(frac)|)
    requires !numtype.notInt
    ensures GrokFraction(s, p, numtype, out) == Grokked(RestType(numtype, frac, exp), out)
  {
    hide GrokExponent, EndsWith, StandsAt, ExpText, SkipDigits;
    EndFits(exp, trail, s, p + |FracText(frac)|);
    var e, t := p + |FracText(frac)|, numtype.(notInt := frac.Some?);
    var g := GrokExponent(s, e, t, out);
    assert g == Grokked(RestType(numtype, frac, exp), out) by {
      EndIsScanned(exp, trail, s, e, t, out);
    }
    AfterWhole(frac, exp, trail, s, p);
    if frac.Some? {
      PointIsThere(frac.value, exp, trail, s, p);
    }
  }

  lemma WholeIsRead(whole: string, s: string, j: nat, neg: NumType, uvMax: nat)
    requires AllDigits(whole) && whole != [] && StandsAt(whole, s, j)
    requires var p := j + |whole|; p == |s| || !IsDigit(s[p])
    ensures j < |s| && IsDigit(s[j])
    ensures var v := Value(whole);
            GrokDecimal(s, j, neg, uvMax) == GrokFraction(s, j + |whole|, WholeType(v, neg, uvMax), WholeOut(v, uvMax))
  {
    WholeDigits(whole, s, j);
  }

  lemma MeaningAgrees(whole: string, frac: Option<string>, exp: Option<Exponent>, neg: NumType, uvMax: nat)
    requires AllDigits(whole) && neg == SignOnly(neg)
    ensures DecimalMeaning(whole, frac, exp, neg, uvMax)
         == Grokked(RestType(WholeType(Value(whole), neg, uvMax), frac, exp), WholeOut(Value(whole), uvMax))
  {}

  lemma WholeIsScanned(whole: string, frac: Option<string>, exp: Option<Exponent>, trail: string, s: string, j: nat,
                       neg: NumType, uvMax: nat)
    requires DecimalStands(whole, frac, exp, trail, s, j) && whole != []
    requires neg == SignOnly(neg)
    ensures j < |s| && IsDigit(s[j])
    ensures GrokDecimal(s, j, neg, uvMax) == DecimalMeaning(whole, frac, exp, neg, uvMax)
  {
    hide GrokFraction, GrokDecimal, EndsWith, StandsAt, ExpText, FracText, Value, DecimalMeaning, RestType, WholeOut;
    var p, v := j + |whole|, Value(whole);
    EndFits(exp, trail, s, p + |FracText(frac)|);
    var g := GrokFraction(s, p, WholeType(v, neg, uvMax), WholeOut(v, uvMax));
    assert g == DecimalMeaning(whole, frac, exp, neg, uvMax) by {
      RestIsScanned(frac, exp, trail, s, p, WholeType(v, neg, uvMax), WholeOut(v, uvMax));
      MeaningAgrees(whole, frac, exp, neg, uvMax);
    }
    assert p == |s| || !IsDigit(s[p]) by {
      AfterWhole(frac, exp, trail, s, p);
    }
    WholeIsRead(whole, s, j, neg, uvMax);
  }

  lemma WordIsScanned(body: Body, trail: string, s: string, j: nat, neg: NumType, uvMax: nat)
    requires !body.Decimal? && body.Valid() && AllSpace(trail)
    requires StandsAt(body.word, s, j) && StandsAt(trail, s, j + |body.word|) && j + |body.word| + |trail| == |s|
    ensures j < |s| && !IsSpace(s[j]) && s[j] != '-' && s[j] != '+'
    ensures GrokBody(s, j, neg, uvMax) == BodyMeaning(body, neg, uvMax)
  {
    var e := j + |body.word|;
    var numtype := BodyMeaning(body, neg, uvMax).numtype;
    TrailStarts(trail, s, e);
    TrailIsScanned(trail, s, e, numtype, None);
    forall k | 0 <= k < |body.word|
      ensures s[j + k] == body.word[k]
    {
      StandsChar(body.word, s, j, k);
    }
    assert s[j + 0] == body.word[0];
  }

  lemma DecimalParts(body: Body, trail: string, s: string, j: nat)
    requires body.Decimal? && body.Valid() && AllSpace(trail)
    requires StandsAt(body.Text(), s, j) && StandsAt(trail, s, j + |body.Text()|) && j + |body.Text()| + |trail| == |s|
    ensures DecimalStands(body.whole, body.frac, body.exp, trail, s, j)
  {
    StandsConcat(body.whole + FracText(body.frac), ExpText(body.exp), s, j);
    StandsConcat(body.whole, FracText(body.frac), s, j);
  }

  lemma DecimalIsScanned(whole: string, frac: Option<string>, exp: Option<Exponent>, trail: string, s: string, j: nat,
                         neg: NumType, uvMax: nat)
    requires DecimalStands(whole, frac, exp, trail, s, j)
    requires whole != [] || (frac.Some? && frac.value != [])
    requires neg == SignOnly(neg)
    ensures j < |s| && !IsSpace(s[j]) && s[j] != '-' && s[j] != '+'
    ensures GrokBody(s, j, neg, uvMax) == DecimalMeaning(whole, frac, exp, neg, uvMax)
  {
    if whole == [] {
      PointIsScanned(frac.value, exp, trail, s, j, neg, uvMax);
    } else {
      WholeIsScanned(whole, frac, exp, trail, s, j, neg, uvMax);
    }
  }

  lemma BodyIsScanned(body: Body, trail: string, s: string, j: nat, neg: NumType, uvMax: nat)
    requires body.Valid() && AllSpace(trail)
    requires StandsAt(body.Text(), s, j) && StandsAt(trail, s, j + |body.Text()|) && j + |body.Text()| + |trail| == |s|
    requires neg == SignOnly(neg)
    ensures j < |s| && !IsSpace(s[j]) && s[j] != '-' && s[j] != '+'
    ensures GrokBody(s, j, neg, uvMax) == BodyMeaning(body, neg, uvMax)
  {
    if body.Decimal? {
      DecimalParts(body, trail, s, j);
      DecimalIsScanned(body.whole, body.frac, body.exp, trail, s, j, neg, uvMax);
    } else {
      WordIsScanned(body, trail, s, j, neg, uvMax);
    }
  }

  // Where the parts of a numeral stand.
  ghost predicate NumeralStands(n: Numeral, s: string) {
    var i := |n.lead|;
    var j := i + |n.sign.Text()|;
    var e := j + |n.body.Text()|;
    && StandsAt(n.lead, s, 0) && StandsAt(n.sign.Text(), s, i)
    && StandsAt(n.body.Text(), s, j) && StandsAt(n.trail, s, e) && e + |n.trail| == |s|
  }

  lemma NumeralParts(n: Numeral)
    ensures NumeralStands(n, n.Text())
  {}

  lemma LeadIsScanned(lead: string, sign: Sign, s: string, uvMax: nat)
    requires AllSpace(lead) && StandsAt(lead, s, 0) && StandsAt(sign.Text(), s, |lead|)
    requires var j := |lead| + |sign.Text()|; j < |s| && !IsSpace(s[j]) && s[j] != '-' && s[j] != '+'
    ensures Grok(s, uvMax) == GrokBody(s, |lead| + |sign.Text()|, sign.Neg(), uvMax)
  {
    SignStands(sign, s, |lead|);
    SpacesRun(lead, s, 0);
  }

  lemma StandingNumeralIsScanned(n: Numeral, s: string, uvMax: nat)
    requires n.Valid() && NumeralStands(n, s)
    ensures Grok(s, uvMax) == n.Meaning(uvMax)
  {
    hide Grok, GrokBody, BodyMeaning, StandsAt;
    BodyIsScanned(n.body, n.trail, s, |n.lead| + |n.sign.Text()|, n.sign.Neg(), uvMax);
    LeadIsScanned(n.lead, n.sign, s, uvMax);
  }

  // Every numeral is scanned with its meaning.
  lemma NumeralIsScanned(n: Numeral, uvMax: nat)
    requires n.Valid()
    ensures Grok(n.Text(), uvMax) == n.Meaning(uvMax)
  {
    NumeralParts(n);
    StandingNumeralIsScanned(n, n.Text(), uvMax);
  }

  // ----- Whatever is accepted is a numeral -----

  // Each lemma reads off the part of a numeral that an accepting scan went through.
  lemma TrailOf(s: string, i: nat, numtype: NumType, out: Option<nat>) returns (trail: string)
    requires i <= |s| && GrokTail(s, i, numtype, out).numtype != NONE && !IsZeroButTrue(s)
    ensures AllSpace(trail) && StandsAt(trail, s, i) && i + |trail| == |s|
  {
    trail := s[i..|s|];
    SkipSpacesSpec(s, i);
    StandsSlice(s, i, |s|);
  }

  lemma CharStands(s: string, i: nat)
    requires i < |s|
    ensures StandsAt([s[i]], s, i)
  {}

  lemma SignOf(s: string, i: nat) returns (sign: Sign)
    requires i <= |s|
    ensures sign == if i < |s| && s[i] == '-' then Minus else if i < |s| && s[i] == '+' then Plus else NoSign
    ensures StandsAt(sign.Text(), s, i)
  {
    sign := if i < |s| && s[i] == '-' then Minus else if i < |s| && s[i] == '+' then Plus else NoSign;
    if i < |s| {
      CharStands(s, i);
    }
  }

  lemma DigitsOf(s: string, i: nat) returns (ds: string)
    requires i <= |s|
    ensures AllDigits(ds) && StandsAt(ds, s, i) && SkipDigits(s, i) == i + |ds| && ds == s[i..i + |ds|]
    ensures i < |s| && IsDigit(s[i]) ==> ds != []
  {
    var e := SkipDigits(s, i);
    ds := s[i..e];
    SkipDigitsSpec(s, i);
    StandsSlice(s, i, e);
  }

  lemma ExponentStands(x: Exponent, s: string, i: nat)
    requires i < |s| && s[i] == x.letter && StandsAt(x.sign.Text(), s, i + 1)
    requires StandsAt(x.digits, s, i + 1 + |x.sign.Text()|)
    ensures StandsAt(x.Text(), s, i) && |x.Text()| == 1 + |x.sign.Text()| + |x.digits|
  {
    CharStands(s, i);
    StandsConcat([x.letter], x.sign.Text(), s, i);
    StandsConcat([x.letter] + x.sign.Text(), x.digits, s, i);
  }

  lemma SomeExponentOf(s: string, i: nat, numtype: NumType, out: Option<nat>) returns (x: Exponent, trail: string)
    requires i < |s| && (s[i] == 'e' || s[i] == 'E')
    requires GrokExponent(s, i, numtype, out).numtype != NONE && !IsZeroButTrue(s)
    ensures EndsWith(Some(x), trail, s, i)
  {
    hide GrokTail, StandsAt, SkipDigits, IsZeroButTrue;
    var sign := SignOf(s, i + 1);
    var j := i + 1 + |sign.Text()|;
    var digits := DigitsOf(s, j);
    x := Exponent(s[i], sign, digits);
    trail := TrailOf(s, SkipDigits(s, j), SignOnly(numtype).(notInt := true), out);
    hide GrokExponent, Exponent.Text;
    ExponentStands(x, s, i);
  }

  lemma ExponentOf(s: string, i: nat, numtype: NumType, out: Option<nat>) returns (exp: Option<Exponent>, trail: string)
    requires i <= |s| && GrokExponent(s, i, numtype, out).numtype != NONE && !IsZeroButTrue(s)
    ensures EndsWith(exp, trail, s, i)
  {
    hide GrokTail, StandsAt, IsZeroButTrue;
    if i < |s| && (s[i] == 'e' || s[i] == 'E') {
      var x;
      x, trail := SomeExponentOf(s, i, numtype, out);
      exp := Some(x);
    } else {
      exp := None;
      StandsEmpty(s, i);
      trail := TrailOf(s, i, numtype, out);
    }
  }

  lemma PointOf(s: string, p: nat) returns (frac: string)
    requires p < |s| && s[p] == '.'
    ensures AllDigits(frac) && StandsAt(FracText(Some(frac)), s, p) && SkipDigits(s, p + 1) == p + 1 + |frac|
    ensures p + 1 < |s| && IsDigit(s[p + 1]) ==> frac != []
  {
    frac := DigitsOf(s, p + 1);
    CharStands(s, p);
    StandsConcat(['.'], frac, s, p);
  }

  lemma FractionOf(s: string, p: nat, numtype: NumType, out: Option<nat>)
    returns (frac: Option<string>, exp: Option<Exponent>, trail: string)
    requires p <= |s| && GrokFraction(s, p, numtype, out).numtype != NONE && !IsZeroButTrue(s)
    ensures frac.Some? ==> AllDigits(frac.value)
    ensures StandsAt(FracText(frac), s, p) && EndsWith(exp, trail, s, p + |FracText(frac)|)
  {
    if p < |s| && s[p] == '.' {
      var f := PointOf(s, p);
      frac := Some(f);
      exp, trail := ExponentOf(s, p + 1 + |f|, numtype.(notInt := true), out);
    } else {
      frac := None;
      exp, trail := ExponentOf(s, p, numtype, out);
    }
  }

  lemma WholeOf(s: string, j: nat, neg: NumType, uvMax: nat) returns (body: Body, trail: string)
    requires j < |s| && IsDigit(s[j])
    requires GrokDecimal(s, j, neg, uvMax).numtype != NONE && !IsZeroButTrue(s)
    ensures body.Decimal? && body.Valid() && DecimalStands(body.whole, body.frac, body.exp, trail, s, j)
  {
    hide GrokFraction, EndsWith, StandsAt, ExpText, FracText, Value;
    var whole := DigitsOf(s, j);
    var v := Value(whole);
    var frac, exp;
    frac, exp, trail := FractionOf(s, j + |whole|, WholeType(v, neg, uvMax), WholeOut(v, uvMax));
    body := Decimal(whole, frac, exp);
  }

  lemma LeadingPointOf(s: string, j: nat, neg: NumType) returns (body: Body, trail: string)
    requires j < |s| && s[j] == '.'
    requires GrokPoint(s, j, neg).numtype != NONE && !IsZeroButTrue(s)
    ensures body.Decimal? && body.Valid() && DecimalStands(body.whole, body.frac, body.exp, trail, s, j)
  {
    hide GrokExponent, StandsAt, SkipDigits, IsZeroButTrue;
    var f := PointOf(s, j);
    var exp;
    exp, trail := ExponentOf(s, j + 1 + |f|, neg.(notInt := true, inUv := true), Some(0));
    body := Decimal([], Some(f), exp);
    StandsEmpty(s, j);
  }

  // The body of a numeral and the blanks after it stand at j.
  ghost predicate BodyStands(body: Body, trail: string, s: string, j: nat) {
    && body.Valid() && AllSpace(trail)
    && StandsAt(body.Text(), s, j) && StandsAt(trail, s, j + |body.Text()|) && j + |body.Text()| + |trail| == |s|
  }

  lemma DecimalText(body: Body, trail: string, s: string, j: nat)
    requires body.Decimal? && body.Valid() && DecimalStands(body.whole, body.frac, body.exp, trail, s, j)
    ensures BodyStands(body, trail, s, j)
  {
    StandsConcat(body.whole, FracText(body.frac), s, j);
    StandsConcat(body.whole + FracText(body.frac), ExpText(body.exp), s, j);
  }

  lemma WordOf(s: string, j: nat, neg: NumType, uvMax: nat) returns (body: Body, trail: string)
    requires j < |s| && !IsDigit(s[j]) && s[j] != '.'
    requires GrokBody(s, j, neg, uvMax).numtype != NONE && !IsZeroButTrue(s)
    ensures BodyStands(body, trail, s, j)
  {
    if InfEnd(s, j).Some? {
      var e := InfEnd(s, j).value;
      body := Infinite(s[j..e]);
      StandsSlice(s, j, e);
      trail := TrailOf(s, e, neg.(infinity := true, notInt := true), None);
    } else {
      body := NotANumber(s[j..j + 3]);
      StandsSlice(s, j, j + 3);
      trail := TrailOf(s, j + 3, neg.(nan := true, notInt := true), None);
    }
  }

  lemma BodyOf(s: string, j: nat, neg: NumType, uvMax: nat) returns (body: Body, trail: string)
    requires j < |s| && GrokBody(s, j, neg, uvMax).numtype != NONE && !IsZeroButTrue(s)
    ensures BodyStands(body, trail, s, j)
  {
    if IsDigit(s[j]) {
      body, trail := WholeOf(s, j, neg, uvMax);
      DecimalText(body, trail, s, j);
    } else if s[j] == '.' {
      body, trail := LeadingPointOf(s, j, neg);
      DecimalText(body, trail, s, j);
    } else {
      body, trail := WordOf(s, j, neg, uvMax);
    }
  }

  lemma StandingText(n: Numeral, s: string)
    requires NumeralStands(n, s)
    ensures n.Text() == s
  {
    var st, bt := n.sign.Text(), n.body.Text();
    StandsConcat(n.lead, st, s, 0);
    StandsConcat(n.lead + st, bt, s, 0);
    StandsConcat(n.lead + st + bt, n.trail, s, 0);
    SliceStands(n.Text(), s, 0);
  }

  lemma NumeralOf(s: string, uvMax: nat) returns (n: Numeral)
    requires Grok(s, uvMax).numtype != NONE && !IsZeroButTrue(s)
    ensures n.Valid() && n.Text() == s
  {
    hide GrokBody, StandsAt;
    var i := SkipSpaces(s, 0);
    SkipSpacesSpec(s, 0);
    StandsSlice(s, 0, i);
    var sign := SignOf(s, i);
    var body, trail := BodyOf(s, i + |sign.Text()|, sign.Neg(), uvMax);
    n := Numeral(s[0..i], sign, body, trail);
    StandingText(n, s);
  }

  // The one accepted text that is no numeral.
  lemma ZeroButTrue(uvMax: nat)
    ensures forall s :: IsZeroButTrue(s) <==> s == "0 but true"
    ensures Grok("0 but true", uvMax) == Grokked(NONE.(inUv := true), Some(0))
  {
    var s := "0 but true";
    assert SkipDigits(s, 1) == 1;
    assert SkipDigits(s, 0) == 1;
    assert s[0..1] == [] + ['0'];
    ValueSnoc([], '0');
    assert SkipSpaces(s, 2) == 2;
    assert SkipSpaces(s, 1) == 2;
  }

  // ----- What is stored for texts that are refused -----

  lemma TailOut(s: string, i: nat, numtype: NumType, out: Option<nat>)
    requires i <= |s|
    ensures !IsZeroButTrue(s) ==> GrokTail(s, i, numtype, out).out == out
    ensures IsZeroButTrue(s) && out == Some(0) ==> GrokTail(s, i, numtype, out).out == out
  {}

  lemma ExponentOut(s: string, i: nat, numtype: NumType, out: Option<nat>)
    requires i <= |s|
    ensures !IsZeroButTrue(s) || out == Some(0) ==> GrokExponent(s, i, numtype, out).out == out
  {
    hide GrokTail, IsZeroButTrue;
    forall k: nat, t | k <= |s|
      ensures !IsZeroButTrue(s) || out == Some(0) ==> GrokTail(s, k, t, out).out == out
    {
      TailOut(s, k, t, out);
    }
  }

  lemma ZeroFirst(s: string)
    requires IsZeroButTrue(s)
    ensures SkipSpaces(s, 0) == 0 && s[0] == '0' && SkipDigits(s, 0) == 1 && AllDigits(s[0..1]) && Value(s[0..1]) == 0
  {
    assert SkipDigits(s, 1) == 1;
    assert s[0..1] == [] + ['0'];
    ValueSnoc([], '0');
  }

  // Where the body of a text starts: after blanks and a sign.
  function BodyStart(s: string): (j: nat)
    ensures j <= |s|
  {
    var i := SkipSpaces(s, 0);
    if i < |s| && (s[i] == '-' || s[i] == '+') then i + 1 else i
  }

  // What is to be stored for the body at j: the value of the digits that stand there, if a
  // UV holds it; 0 for a point and a digit; and nothing for anything else.
  ghost predicate StoresAt(s: string, j: nat, out: Option<nat>, uvMax: nat)
    requires j <= |s|
  {
    var e := SkipDigits(s, j);
    && AllDigits(s[j..e])
    && out == (if j < e then if Value(s[j..e]) <= uvMax then Some(Value(s[j..e])) else None
               else if j + 1 < |s| && s[j] == '.' && IsDigit(s[j + 1]) then Some(0)
               else None)
  }

  lemma NothingAtTheEnd(s: string, uvMax: nat)
    ensures StoresAt(s, |s|, None, uvMax)
  {}

  lemma BodyOut(s: string, j: nat, neg: NumType, uvMax: nat)
    requires j < |s| && (IsZeroButTrue(s) ==> j == 0)
    ensures StoresAt(s, j, GrokBody(s, j, neg, uvMax).out, uvMax)
  {
    SkipDigitsSpec(s, j);
    if IsZeroButTrue(s) {
      ZeroFirst(s);
    }
    hide GrokExponent, GrokTail, IsZeroButTrue, Value;
    var e := SkipDigits(s, j);
    if IsDigit(s[j]) {
      var v := Value(s[j..e]);
      FractionOut(s, e, WholeType(v, neg, uvMax), WholeOut(v, uvMax));
    } else if s[j] == '.' {
      if j + 1 < |s| && IsDigit(s[j + 1]) {
        ExponentOut(s, SkipDigits(s, j + 1), neg.(notInt := true, inUv := true), Some(0));
      }
    } else {
      forall k: nat, t | k <= |s|
        ensures GrokTail(s, k, t, None).out == None
      {
        TailOut(s, k, t, None);
      }
    }
  }

  lemma GrokFromStart(s: string, uvMax: nat) returns (neg: NumType)
    ensures Grok(s, uvMax) == if BodyStart(s) == |s| then Grokked(NONE, None) else GrokBody(s, BodyStart(s), neg, uvMax)
  {
    hide GrokBody, SkipSpaces;
    var i := SkipSpaces(s, 0);
    neg := if i < |s| && s[i] == '-' then NONE.(neg := true) else NONE;
  }

  // Accepted or not, a text stores what its body says.
  lemma OutTellsIntegerPart(s: string, uvMax: nat)
    ensures StoresAt(s, BodyStart(s), Grok(s, uvMax).out, uvMax)
  {
    if IsZeroButTrue(s) {
      ZeroFirst(s);
    }
    hide Grok, GrokBody, StoresAt, IsZeroButTrue;
    var neg := GrokFromStart(s, uvMax);
    if BodyStart(s) == |s| {
      NothingAtTheEnd(s, uvMax);
    } else {
      BodyOut(s, BodyStart(s), neg, uvMax);
    }
  }

  lemma FractionOut(s: string, e: nat, numtype: NumType, out: Option<nat>)
    requires e <= |s|
    ensures !IsZeroButTrue(s) || out == Some(0) ==> GrokFraction(s, e, numtype, out).out == out
  {
    hide GrokExponent, IsZeroButTrue;
    ExponentOut(s, e, numtype, out);
    if e < |s| && s[e] == '.' {
      ExponentOut(s, SkipDigits(s, e + 1), numtype.(notInt := true), out);
    }
  }

  // grok_number recognises exactly the language of numerals, and "0 but true".
  lemma GrokDecidesNumerals(s: string, uvMax: nat)
    ensures Grok(s, uvMax).numtype != NONE
      <==> (exists n: Numeral :: n.Valid() && n.Text() == s) || s == "0 but true"
  {
    ZeroButTrue(uvMax);
    if Grok(s, uvMax).numtype != NONE && s != "0 but true" {
      var n := NumeralOf(s, uvMax);
    }
    if n: Numeral :| n.Valid() && n.Text() == s {
      NumeralIsScanned(n, uvMax);
    }
  }
}
