// Which texts sqlite_is_number in DBD-SQLite/dbdimp.c accepts as numbers of either kind.
module NumberText {
  import opened Numerals
  import opened Options
  import opened Texts
  import opened IsNumber
  import G = GrokGrammar

  // sign, digits, a point with digits, an exponent; only the first digits are obligatory
  datatype Number = Number(sign: G.Sign, whole: string, frac: Option<string>, exp: Option<G.Exponent>) {
    predicate Valid() {
      && AllDigits(whole) && whole != []
      && (frac.Some? ==> AllDigits(frac.value) && frac.value != [])
      && (exp.Some? ==> exp.value.Valid())
    }

    function Text(): string {
      sign.Text() + whole + G.FracText(frac) + G.ExpText(exp)
    }
  }

  // Where the parts of a number stand in w, which ends with it.
  ghost predicate NumberStands(n: Number, w: string) {
    var j := |n.sign.Text()|;
    && n.Valid()
    && StandsAt(n.sign.Text(), w, 0)
    && G.DecimalStands(n.whole, n.frac, n.exp, [], w, j)
  }

  lemma PartsStand(n: Number)
    requires n.Valid()
    ensures NumberStands(n, n.Text())
  {
    var w, st, ft := n.Text(), n.sign.Text(), G.FracText(n.frac);
    StandsSlice(w, 0, |w|);
    assert w[0..|w|] == w;
    StandsConcat(st + n.whole + ft, G.ExpText(n.exp), w, 0);
    StandsConcat(st + n.whole, ft, w, 0);
    StandsConcat(st, n.whole, w, 0);
    StandsEmpty(w, |w|);
  }

  lemma StandingParts(n: Number, w: string)
    requires NumberStands(n, w)
    ensures n.Text() == w
  {
    var st, ft := n.sign.Text(), G.FracText(n.frac);
    StandsConcat(st, n.whole, w, 0);
    StandsConcat(st + n.whole, ft, w, 0);
    StandsConcat(st + n.whole + ft, G.ExpText(n.exp), w, 0);
    SliceStands(n.Text(), w, 0);
  }

  lemma SignIsSeen(n: Number, w: string)
    requires NumberStands(n, w)
    ensures |n.sign.Text()| == (if HasSign(w) then 1 else 0)
    ensures Whole(w) == n.whole
    ensures (SqlScan.At(w, 0) == '+' <==> n.sign.Plus?) && (SqlScan.At(w, 0) == '-' <==> n.sign.Minus?)
  {
    var j := |n.sign.Text()|;
    G.SignStands(n.sign, w, 0);
    G.AfterWhole(n.frac, n.exp, [], w, j + |n.whole|);
    G.WholeDigits(n.whole, w, j);
  }

  lemma FractionIsSeen(n: Number, w: string)
    requires NumberStands(n, w)
    ensures var i := |n.sign.Text()| + |n.whole|;
            i <= |w| && FractionEnd(w, i) == i + |G.FracText(n.frac)|
            && (SqlScan.At(w, i) == '.' <==> n.frac.Some?)
  {
    var i := |n.sign.Text()| + |n.whole|;
    G.AfterWhole(n.frac, n.exp, [], w, i);
    if n.frac.Some? {
      G.PointIsThere(n.frac.value, n.exp, [], w, i);
    }
  }

  lemma ExponentIsSeen(exp: Option<G.Exponent>, w: string, i: nat)
    requires G.EndsWith(exp, [], w, i)
    ensures ExponentEnd(w, i) == |w|
  {
    if exp.Some? {
      var x := exp.value;
      G.ExponentParts(x, w, i);
      G.SignStands(x.sign, w, i + 1);
      G.DigitsRun(x.digits, w, i + 1 + |x.sign.Text()|);
    }
  }

  lemma NumbersAreAccepted(n: Number, w: string)
    requires NumberStands(n, w)
    ensures Whole(w) != [] && NumberEnd(w) == |w|
    ensures Precision(w) == if n.frac.Some? then |n.frac.value| else 0
  {
    hide FractionEnd, ExponentEnd, Whole, StandsAt, G.EndsWith;
    SignIsSeen(n, w);
    FractionIsSeen(n, w);
    G.EndFits(n.exp, [], w, |n.sign.Text()| + |n.whole| + |G.FracText(n.frac)|);
    ExponentIsSeen(n.exp, w, |n.sign.Text()| + |n.whole| + |G.FracText(n.frac)|);
  }

  // ----- Whatever is accepted is a number -----

  lemma FractionOf(w: string, i: nat) returns (frac: Option<string>)
    requires i <= |w| && FractionEnd(w, i) <= |w|
    ensures frac.Some? ==> AllDigits(frac.value) && frac.value != []
    ensures StandsAt(G.FracText(frac), w, i) && FractionEnd(w, i) == i + |G.FracText(frac)|
  {
    if i < |w| && w[i] == '.' {
      var f := G.PointOf(w, i);
      frac := Some(f);
    } else {
      frac := None;
      StandsEmpty(w, i);
    }
  }

  lemma ExponentOf(w: string, i: nat) returns (exp: Option<G.Exponent>)
    requires i <= |w| && ExponentEnd(w, i) == |w|
    ensures G.EndsWith(exp, [], w, i)
  {
    StandsEmpty(w, |w|);
    if i < |w| && (w[i] == 'e' || w[i] == 'E') {
      var sign := G.SignOf(w, i + 1);
      var digits := G.DigitsOf(w, i + 1 + |sign.Text()|);
      var x := G.Exponent.Exponent(w[i], sign, digits);
      G.ExponentStands(x, w, i);
      exp := Some(x);
    } else {
      exp := None;
    }
  }

  lemma NumberOf(w: string) returns (n: Number)
    requires Whole(w) != [] && NumberEnd(w) == |w|
    ensures NumberStands(n, w)
  {
    hide FractionEnd, ExponentEnd, StandsAt, G.EndsWith, G.ExpText, G.FracText;
    var sign := G.SignOf(w, 0);
    var j := |sign.Text()|;
    var whole := G.DigitsOf(w, j);
    var frac := FractionOf(w, j + |whole|);
    var exp := ExponentOf(w, j + |whole| + |G.FracText(frac)|);
    n := Number(sign, whole, frac, exp);
  }

  // The scan accepts exactly the numbers, and takes the digits after the point for the
  // precision of the float.
  lemma AcceptsNumbers(w: string)
    ensures Whole(w) != [] && NumberEnd(w) == |w| <==> exists n: Number :: n.Valid() && n.Text() == w
    ensures forall n: Number :: n.Valid() && n.Text() == w
              ==> Precision(w) == (if n.frac.Some? then |n.frac.value| else 0)
                  && (SqlScan.At(w, 0) == '+' <==> n.sign.Plus?)
  {
    hide Whole, NumberEnd, Precision, NumberStands;
    if Whole(w) != [] && NumberEnd(w) == |w| {
      var n := NumberOf(w);
      StandingParts(n, w);
      StandsMeansValid(n, w);
    }
    forall n: Number | n.Valid() && n.Text() == w
      ensures Whole(w) != [] && NumberEnd(w) == |w|
      ensures Precision(w) == (if n.frac.Some? then |n.frac.value| else 0) && (SqlScan.At(w, 0) == '+' <==> n.sign.Plus?)
    {
      PartsStand(n);
      SignIsSeen(n, w);
      NumbersAreAccepted(n, w);
    }
  }

  lemma StandsMeansValid(n: Number, w: string)
    requires NumberStands(n, w)
    ensures n.Valid()
  {}

  // sqlite_is_number answers 2 exactly for a number that is no 64-bit integer in decimal
  // form, under a type other than integer, that printf gives back with the same plus and
  // number of digits after the point.
  lemma TwoMeansFloat(v: string, t: SqlType, echo: FloatEcho)
    ensures Classify(v, t, echo) == 2
      <==> Classify(v, t, echo) != 1 && !t.TInteger?
           && exists n: Number :: n.Valid() && n.Text() == Looked(v, t)
                && echo(n.Text(), n.sign.Plus?, if n.frac.Some? then |n.frac.value| else 0) == n.Text()
  {
    var w := Looked(v, t);
    AcceptsNumbers(w);
    hide Whole, NumberEnd, Precision, Form, Atoll, MaybeInt, IsPlain, Looked;
    if Classify(v, t, echo) == 2 {
      var n: Number :| n.Valid() && n.Text() == w;
    }
  }

  // There are no other answers.
  lemma Answers(v: string, t: SqlType, echo: FloatEcho)
    ensures Classify(v, t, echo) in {0, 1, 2}
  {}
}
