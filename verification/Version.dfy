// Perl version strings in Astro-Hipparcos/ppport.h: parse_version, format_version and
// the normal form the script computes from them.
module Version {
  import opened Numerals
  import opened Options

  // Revision, version and subversion.
  type Triple = (nat, nat, nat)

  // $ also matches before a final newline.
  function Chomp(s: string): string {
    if s != [] && s[|s| - 1] == '\n' then s[..|s| - 1] else s
  }

  // (\d+)\.(.*)
  function SplitDot(s: string): Option<(string, string)> {
    var e := SkipDigits(s, 0);
    if 0 < e < |s| && s[e] == '.' then Some((s[..e], s[e + 1..])) else None
  }

  predicate IsDigitOr_(c: char) {
    IsDigit(c) || c == '_'
  }

  // s/_//g
  function Strip(s: string): (t: string)
    ensures (forall i :: 0 <= i < |s| ==> IsDigitOr_(s[i])) ==> AllDigits(t)
  {
    if s == [] then []
    else if s[0] == '_' then Strip(s[1..])
    else [s[0]] + Strip(s[1..])
  }

  // Before 5.6 the subversion has two digits.
  predicate IsOld(r: nat, v: nat) {
    r < 5 || (r == 5 && v < 6)
  }

  // The version and subversion are the first two groups of three digits, padded with
  // zeros on the right.
  function Groups(r: string, digits: string): Triple
    requires AllDigits(r) && AllDigits(digits)
  {
    var p := digits + "000000";
    (Value(r), Value(p[..3]), Value(p[3..6]))
  }

  // parse_version; None is die.
  function ParseVersion(text: string): Option<Triple> {
    var ver := Chomp(text);
    match SplitDot(ver)
    case None => None
    case Some((r, rest)) =>
      SkipDigitsSpec(ver, 0);
      assert r == ver[0..SkipDigits(ver, 0)];
      if IsPair(rest) then
        var (v, s) := SplitDot(rest).value;
        SkipDigitsSpec(rest, 0);
        assert v == rest[0..SkipDigits(rest, 0)];
        Some((Value(r), Value(v), Value(s)))
      else if rest != [] && forall i :: 0 <= i < |rest| ==> IsDigitOr_(rest[i]) then
        var t := Groups(r, Strip(rest));
        if IsOld(t.0, t.1) && t.2 % 10 != 0 then None else Some(t)
      else None
  }

  // (\d+)\.(\d+)
  predicate IsPair(s: string) {
    match SplitDot(s)
    case None => false
    case Some((_, b)) => b != [] && AllDigits(b)
  }

  // "%03d" and "%02d" of numbers that fit
  function Pad3(n: nat): (s: string)
    requires n < 1000
    ensures AllDigits(s)
  {
    [DigitChar(n / 100), DigitChar(n / 10 % 10), DigitChar(n % 10)]
  }

  function Pad2(n: nat): (s: string)
    requires n < 100
    ensures AllDigits(s)
  {
    [DigitChar(n / 10), DigitChar(n % 10)]
  }

  // A version as the API table has it: digits, a point, digits.
  predicate IsNormalised(text: string) {
    match SplitDot(text)
    case None => false
    case Some((_, f)) => f != [] && AllDigits(f)
  }

  lemma GroupsBelow(r: string, digits: string)
    requires AllDigits(r) && AllDigits(digits)
    ensures Groups(r, digits).1 < 1000 && Groups(r, digits).2 < 1000
  {
    var p := digits + "000000";
    ValueBound(p[..3]);
    ValueBound(p[3..6]);
    assert Pow(10, 3) == 1000;
  }

  // format_version; None is die.
  function FormatVersion(text: string): Option<string>
    requires IsNormalised(text)
  {
    var (whole, f) := SplitDot(text).value;
    SkipDigitsSpec(text, 0);
    assert whole == text[0..SkipDigits(text, 0)];
    var (r, v, s) := Groups(whole, f);
    GroupsBelow(whole, f);
    if IsOld(r, v) then
      if s % 10 != 0 then None
      else Some(Dec(r) + "." + Pad3(v) + if s / 10 > 0 then "_" + Pad2(s / 10) else [])
    else Some(Dec(r) + "." + Dec(v) + "." + Dec(s))
  }

  // ----- Printing and parsing agree -----

  lemma SplitDotOf(a: string, b: string)
    requires AllDigits(a) && a != []
    ensures SplitDot(a + "." + b) == Some((a, b))
  {
    var s := a + "." + b;
    assert s[0..|a|] == a && s[..|a|] == a && s[|a| + 1..] == b;
    SkipRun(s, 0, |a|);
  }

  lemma NoSecondDot(s: string)
    requires forall i :: 0 <= i < |s| ==> IsDigitOr_(s[i])
    ensures SplitDot(s) == None
  {}

  lemma {:induction false} StripDigits(s: string)
    requires AllDigits(s)
    ensures Strip(s) == s
  {
    if s != [] {
      StripDigits(s[1..]);
    }
  }

  lemma {:induction false} StripConcat(a: string, b: string)
    ensures Strip(a + b) == Strip(a) + Strip(b)
  {
    if a == [] {
      assert a + b == b;
    } else {
      assert (a + b)[1..] == a[1..] + b;
      StripConcat(a[1..], b);
    }
  }

  lemma Value3(a: nat, b: nat, c: nat)
    requires a < 10 && b < 10 && c < 10
    ensures var s := [DigitChar(a), DigitChar(b), DigitChar(c)]; Value(s) == 100 * a + 10 * b + c
  {
    var x, y := [DigitChar(a)], [DigitChar(a), DigitChar(b)];
    ValueSnoc([], DigitChar(a));
    assert [] + [DigitChar(a)] == x;
    ValueSnoc(x, DigitChar(b));
    assert x + [DigitChar(b)] == y;
    ValueSnoc(y, DigitChar(c));
    assert y + [DigitChar(c)] == [DigitChar(a), DigitChar(b), DigitChar(c)];
  }

  lemma NotChomped(a: string, b: string)
    requires b != [] && b[|b| - 1] != '\n'
    ensures Chomp(a + b) == a + b
  {}

  // A text of digits and underscores after the point is read by groups.
  lemma ParsesByGroups(r: string, rest: string)
    requires AllDigits(r) && r != [] && rest != [] && forall i :: 0 <= i < |rest| ==> IsDigitOr_(rest[i])
    ensures var t := Groups(r, Strip(rest));
            ParseVersion(r + "." + rest) == if IsOld(t.0, t.1) && t.2 % 10 != 0 then None else Some(t)
  {
    NotChomped(r + ".", rest);
    SplitDotOf(r, rest);
    NoSecondDot(rest);
  }

  lemma SplitsTwice(a: string, b: string, c: string)
    requires AllDigits(a) && a != [] && AllDigits(b) && b != [] && AllDigits(c) && c != []
    ensures var t := a + "." + b + "." + c; var rest := b + "." + c;
            Chomp(t) == t && SplitDot(t) == Some((a, rest)) && SplitDot(rest) == Some((b, c))
  {
    hide SplitDot;
    var t, rest := a + "." + b + "." + c, b + "." + c;
    assert t == a + "." + rest;
    assert t[|t| - 1] == c[|c| - 1];
    SplitDotOf(b, c);
    SplitDotOf(a, rest);
  }

  lemma ParsesDigits(a: string, b: string, c: string)
    requires AllDigits(a) && a != [] && AllDigits(b) && b != [] && AllDigits(c) && c != []
    ensures ParseVersion(a + "." + b + "." + c) == Some((Value(a), Value(b), Value(c)))
  {
    hide SplitDot, Chomp, Value, Groups, Strip;
    SplitsTwice(a, b, c);
  }

  // Three numbers are read as they stand.
  lemma ParsesTriple(r: nat, v: nat, s: nat)
    ensures ParseVersion(Dec(r) + "." + Dec(v) + "." + Dec(s)) == Some((r, v, s))
  {
    hide ParseVersion, Dec, Value;
    ValueOfDec(r);
    ValueOfDec(v);
    ValueOfDec(s);
    ParsesDigits(Dec(r), Dec(v), Dec(s));
  }

  lemma Pad3Value(n: nat)
    requires n < 1000
    ensures Value(Pad3(n)) == n
  {
    Value3(n / 100, n / 10 % 10, n % 10);
  }

  lemma Pad2Zero(n: nat)
    requires n < 100
    ensures AllDigits(Pad2(n) + "0") && Value(Pad2(n) + "0") == n * 10
  {
    Value3(n / 10, n % 10, 0);
    assert Pad2(n) + "0" == [DigitChar(n / 10), DigitChar(n % 10), DigitChar(0)];
  }

  // The groups of two padded numbers are the numbers.
  lemma GroupsOf(r: nat, a: string, b: string, digits: string)
    requires AllDigits(a) && |a| == 3 && AllDigits(b) && |b| == 3 && AllDigits(digits)
    requires a + b <= digits + "000000"
    ensures Groups(Dec(r), digits) == (r, Value(a), Value(b))
  {
    var p := digits + "000000";
    assert p[..3] == (a + b)[..3] == a;
    assert p[3..6] == (a + b)[3..6] == b;
    ValueOfDec(r);
  }

  // The text that format_version writes before 5.6 is read back.
  lemma OldTextParses(r: nat, v: nat, s: nat)
    requires v < 1000 && s < 1000 && s % 10 == 0
    ensures ParseVersion(Dec(r) + "." + Pad3(v) + if s / 10 > 0 then "_" + Pad2(s / 10) else []) == Some((r, v, s))
  {
    var tail := if s / 10 > 0 then "_" + Pad2(s / 10) else [];
    var rest := Pad3(v) + tail;
    assert Dec(r) + "." + Pad3(v) + tail == Dec(r) + "." + rest;
    ParsesByGroups(Dec(r), rest);
    Pad3Value(v);
    OldGroups(r, v, s);
  }

  lemma TwoDigitGroups(r: nat, v: nat, n: nat)
    requires v < 1000 && n < 100
    ensures var digits := Pad3(v) + Pad2(n);
            Strip(Pad3(v) + ("_" + Pad2(n))) == digits && Groups(Dec(r), digits) == (r, v, n * 10)
  {
    var a, two := Pad3(v), Pad2(n);
    StripDigits(a);
    StripConcat(a, "_" + two);
    StripDigits(two);
    assert ("_" + two)[1..] == two;
    Pad3Value(v);
    Pad2Zero(n);
    assert a + (two + "0") <= (a + two) + "000000";
    GroupsOf(r, a, two + "0", a + two);
  }

  lemma BareGroups(r: nat, v: nat)
    requires v < 1000
    ensures Strip(Pad3(v)) == Pad3(v) && Groups(Dec(r), Pad3(v)) == (r, v, 0)
  {
    StripDigits(Pad3(v));
    Pad3Value(v);
    Pad3Value(0);
    assert Pad3(v) + Pad3(0) <= Pad3(v) + "000000";
    GroupsOf(r, Pad3(v), Pad3(0), Pad3(v));
  }

  lemma OldGroups(r: nat, v: nat, s: nat)
    requires v < 1000 && s < 1000 && s % 10 == 0
    ensures var rest := Pad3(v) + if s / 10 > 0 then "_" + Pad2(s / 10) else [];
            AllDigits(Strip(rest)) && Groups(Dec(r), Strip(rest)) == (r, v, s)
  {
    if s / 10 > 0 {
      TwoDigitGroups(r, v, s / 10);
    } else {
      BareGroups(r, v);
      assert Pad3(v) + [] == Pad3(v);
    }
  }

  lemma NormalisedParses(text: string)
    requires IsNormalised(text)
    ensures var (whole, f) := SplitDot(text).value;
            AllDigits(whole) &&
            var t := Groups(whole, f);
            ParseVersion(text) == if IsOld(t.0, t.1) && t.2 % 10 != 0 then None else Some(t)
  {
    var (whole, f) := SplitDot(text).value;
    SkipDigitsSpec(text, 0);
    assert whole == text[0..SkipDigits(text, 0)];
    assert text == whole + "." + f;
    StripDigits(f);
    ParsesByGroups(whole, f);
  }

  // Formatting a normalised version keeps its meaning, in the dotted form and in the one
  // with an underscore, and is refused exactly when parsing is.
  lemma ParseInvertsFormat(text: string)
    requires IsNormalised(text)
    ensures match FormatVersion(text)
            case None => ParseVersion(text) == None
            case Some(t) => ParseVersion(text).Some? && ParseVersion(t) == ParseVersion(text)
  {
    var (whole, f) := SplitDot(text).value;
    NormalisedParses(text);
    var (r, v, s) := Groups(whole, f);
    GroupsBelow(whole, f);
    if IsOld(r, v) {
      if s % 10 == 0 {
        OldTextParses(r, v, s);
      }
    } else {
      ParsesTriple(r, v, s);
    }
  }

  // ----- The form that format_version writes -----

  // text writes n without superfluous zeros.
  ghost predicate Writes(text: string, n: nat) {
    Canonical(text) && Value(text) == n
  }

  // Three decimals joined by points.
  ghost predicate IsDotted(t: string, r: nat, v: nat, s: nat) {
    exists a, b, c :: DottedBy(t, r, v, s, a, b, c)
  }

  ghost predicate DottedBy(t: string, r: nat, v: nat, s: nat, a: string, b: string, c: string) {
    Writes(a, r) && Writes(b, v) && Writes(c, s) && t == a + "." + b + "." + c
  }

  // A decimal, a point, three digits, and an underscore with two digits unless s is 0; s
  // is ten times what the two digits say.
  ghost predicate IsUnderscored(t: string, r: nat, v: nat, s: nat) {
    exists a, b, c :: UnderscoredBy(t, r, v, s, a, b, c)
  }

  ghost predicate UnderscoredBy(t: string, r: nat, v: nat, s: nat, a: string, b: string, c: string) {
    && Writes(a, r) && IsFixed(b, 3, v)
    && (if s == 0 then t == a + "." + b else IsFixed(c, 2, s / 10) && s % 10 == 0 && t == a + "." + b + ("_" + c))
  }

  // n in exactly so many digits.
  ghost predicate IsFixed(text: string, width: nat, n: nat) {
    AllDigits(text) && |text| == width && Value(text) == n
  }

  lemma Pad2Value(n: nat)
    requires n < 100
    ensures Value(Pad2(n)) == n
  {
    Pad2Zero(n);
    ValueSnoc(Pad2(n), '0');
  }

  lemma DecWrites(n: nat)
    ensures Writes(Dec(n), n)
  {
    ValueOfDec(n);
  }

  lemma DottedForm(r: nat, v: nat, s: nat)
    ensures IsDotted(Dec(r) + "." + Dec(v) + "." + Dec(s), r, v, s)
  {
    hide Dec, Writes;
    DecWrites(r);
    DecWrites(v);
    DecWrites(s);
    assert DottedBy(Dec(r) + "." + Dec(v) + "." + Dec(s), r, v, s, Dec(r), Dec(v), Dec(s));
  }

  lemma PadsAreFixed(v: nat, n: nat)
    requires v < 1000 && n < 100
    ensures IsFixed(Pad3(v), 3, v) && IsFixed(Pad2(n), 2, n)
  {
    Pad3Value(v);
    Pad2Value(n);
  }

  lemma UnderscoredForm(r: nat, v: nat, s: nat)
    requires v < 1000 && s < 1000 && s % 10 == 0
    ensures IsUnderscored(Dec(r) + "." + Pad3(v) + (if s / 10 > 0 then "_" + Pad2(s / 10) else []), r, v, s)
  {
    hide Dec, Writes, IsFixed, Pad2, Pad3;
    DecWrites(r);
    PadsAreFixed(v, s / 10);
    var head := Dec(r) + "." + Pad3(v);
    assert head + [] == head;
    assert UnderscoredBy(head + (if s / 10 > 0 then "_" + Pad2(s / 10) else []), r, v, s, Dec(r), Pad3(v), Pad2(s / 10));
  }

  // From 5.6 on the text is three decimals joined by points; before, it is the form with an
  // underscore. The numbers are those that parse_version yields.
  lemma FormOfFormat(text: string)
    requires IsNormalised(text) && FormatVersion(text).Some?
    ensures ParseVersion(text).Some?
    ensures var t, (r, v, s) := FormatVersion(text).value, ParseVersion(text).value;
            if r < 5 || (r == 5 && v < 6) then IsUnderscored(t, r, v, s) else IsDotted(t, r, v, s)
  {
    hide Groups, Value, Dec, ParseVersion, IsUnderscored, IsDotted, Pad2, Pad3;
    var (whole, f) := SplitDot(text).value;
    NormalisedParses(text);
    var (r, v, s) := Groups(whole, f);
    GroupsBelow(whole, f);
    if IsOld(r, v) {
      UnderscoredForm(r, v, s);
    } else {
      DottedForm(r, v, s);
    }
  }

  // So versions that are parsed alike are formatted alike.
  lemma FormatIsCanonical(text: string, text': string)
    requires IsNormalised(text) && IsNormalised(text') && ParseVersion(text) == ParseVersion(text')
    ensures FormatVersion(text) == FormatVersion(text')
  {
    NormalisedParses(text);
    NormalisedParses(text');
    hide Groups, ParseVersion;
  }

  // ----- What the digits after the point mean -----

  lemma PaddingShifts(f: string)
    requires AllDigits(f) && |f| <= 6
    ensures var p := (f + "000000")[..6]; AllDigits(p) && Value(p) == Value(f) * Pow(10, 6 - |f|)
  {
    hide Value;
    var zeros := "000000"[..6 - |f|];
    assert (f + "000000")[..6] == f + zeros;
    ZerosAreNothing(zeros);
    ValueConcat(f, zeros);
  }

  lemma {:induction false} ZerosAreNothing(zeros: string)
    requires forall i :: 0 <= i < |zeros| ==> zeros[i] == '0'
    ensures AllDigits(zeros) && Value(zeros) == 0
  {
    if zeros != [] {
      var init := zeros[..|zeros| - 1];
      ZerosAreNothing(init);
      ValueSnoc(init, '0');
      assert zeros == init + ['0'];
    }
  }

  // The digits after the point are millionths: version and subversion are their thousands
  // and the rest. Up to six digits count.
  lemma GroupsAreMillionths(r: string, f: string)
    requires AllDigits(r) && AllDigits(f)
    ensures var (a, v, s) := Groups(r, f);
            && a == Value(r) && s < 1000
            && v * 1000 + s == if |f| <= 6 then Value(f) * Pow(10, 6 - |f|) else Value(f[..6])
  {
    hide Value;
    var p := f + "000000";
    GroupsBelow(r, f);
    var six := p[..6];
    assert six == p[..3] + p[3..6];
    ValueConcat(p[..3], p[3..6]);
    assert Pow(10, 3) == 1000;
    if |f| <= 6 {
      PaddingShifts(f);
    } else {
      assert six == f[..6];
    }
  }

  // The normal form of --compat-version; None is one of the script's refusals.
  function CompatVersion(text: string): Option<string> {
    match ParseVersion(text)
    case None => None
    case Some((r, v, s)) =>
      if r != 5 || v >= 1000 || s >= 1000 then None else Some(Dec(r) + "." + Pad3(v) + Pad3(s))
  }

  // One newline at the end is ignored.
  lemma NewlineIsIgnored(text: string)
    requires text == [] || text[|text| - 1] != '\n'
    ensures ParseVersion(text + "\n") == ParseVersion(text)
  {
    var t := text + "\n";
    assert t[..|t| - 1] == text;
    assert Chomp(t) == text == Chomp(text);
  }

  // What is accepted for --compat-version, and its form: 5 and twice three digits.
  lemma CompatForm(text: string)
    ensures CompatVersion(text).Some? <==> match ParseVersion(text)
                                           case None => false
                                           case Some((r, v, s)) => r == 5 && v < 1000 && s < 1000
    ensures CompatVersion(text).Some? ==>
              var (_, v, s), t := ParseVersion(text).value, CompatVersion(text).value;
              |t| == 8 && t[..2] == "5." && IsFixed(t[2..5], 3, v) && IsFixed(t[5..], 3, s)
  {
    hide ParseVersion, IsFixed, Pad3;
    if CompatVersion(text).Some? {
      var (r, v, s) := ParseVersion(text).value;
      Pad3IsFixed(v);
      Pad3IsFixed(s);
      DecOfFive();
      var t := "5." + Pad3(v) + Pad3(s);
      assert t[2..5] == Pad3(v) && t[5..] == Pad3(s) && t[..2] == "5.";
    }
  }

  lemma Pad3IsFixed(v: nat)
    requires v < 1000
    ensures IsFixed(Pad3(v), 3, v) && |Pad3(v)| == 3
  {
    Pad3Value(v);
  }

  lemma DecOfFive()
    ensures Dec(5) + "." == "5."
  {}

  // The normal form stands for the version that was given, except that a dotted version
  // before 5.6 whose subversion is no multiple of ten has a normal form that parse_version
  // refuses.
  lemma CompatKeepsVersion(text: string)
    requires CompatVersion(text).Some?
    ensures var (r, v, s) := ParseVersion(text).value;
            ParseVersion(CompatVersion(text).value)
            == if v < 6 && s % 10 != 0 then None else ParseVersion(text)
  {
    var (r, v, s) := ParseVersion(text).value;
    var digits := Pad3(v) + Pad3(s);
    StripDigits(digits);
    Pad3Value(v);
    Pad3Value(s);
    assert Dec(r) + "." + Pad3(v) + Pad3(s) == Dec(r) + "." + digits;
    assert digits <= digits + "000000";
    GroupsOf(r, Pad3(v), Pad3(s), digits);
    ParsesByGroups(Dec(r), digits);
  }

  // Such as 5.5.3, whose normal form is 5.005003.
  lemma OddOldVersion(v: nat, s: nat)
    requires v < 6 && s < 1000 && s % 10 != 0
    ensures var text := Dec(5) + "." + Dec(v) + "." + Dec(s);
            && ParseVersion(text) == Some((5, v, s))
            && CompatVersion(text).Some? && ParseVersion(CompatVersion(text).value) == None
  {
    var text := Dec(5) + "." + Dec(v) + "." + Dec(s);
    ParsesTriple(5, v, s);
    CompatKeepsVersion(text);
  }
}
