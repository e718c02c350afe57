// The escaping printers of Astro-Hipparcos/ppport.h: pv_escape and pv_pretty, on bytes.
module PvEscape {
  import Numerals
  import opened Options

  // A byte, written as the character with that code.
  type Octet = c: char | c as int < 256

  // PERL_PV_ESCAPE_QUOTE, _ESCAPE_RE, _ESCAPE_NOBACKSLASH, _PRETTY_LTGT, _PRETTY_ELLIPSES, _ESCAPE_NOCLEAR
  datatype Flags = Flags(quote: bool, re: bool, nobackslash: bool, ltgt: bool, ellipses: bool, noclear: bool) {
    function Esc(): char {
      if re then '%' else '\\'
    }

    function Dq(): char {
      if quote then '"' else Esc()
    }
  }

  predicate IsPrint(c: char) {
    32 <= c as int < 127
  }

  const VT: char := 0x0B as char
  const FF: char := 0x0C as char

  // ----- What is written for one byte -----

  function OctDigit(d: nat): char
    requires d < 8
  {
    (d + '0' as int) as char
  }

  // "%03o" if padded, "%o" otherwise
  function Octal(c: Octet, padded: bool): string {
    var n := c as int;
    if padded || n >= 64 then [OctDigit(n / 64), OctDigit(n / 8 % 8), OctDigit(n % 8)]
    else if n >= 8 then [OctDigit(n / 8), OctDigit(n % 8)]
    else [OctDigit(n)]
  }

  // The letter of a named escape.
  function Name(c: Octet): Option<char> {
    if c == VT then Some('v')
    else if c == '\t' then Some('t')
    else if c == '\r' then Some('r')
    else if c == '\n' then Some('n')
    else if c == FF then Some('f')
    else None
  }

  function Chunk(c: Octet, beforeDigit: bool, f: Flags): string {
    if f.nobackslash then [c]
    else if c == f.Esc() || (f.quote && c == '"') then [f.Esc(), c]
    else if IsPrint(c) then [c]
    else if Name(c).Some? then [f.Esc(), Name(c).value]
    else [f.Esc()] + Octal(c, beforeDigit)
  }

  // Which byte is written how.
  lemma EscapesAre(c: Octet, beforeDigit: bool, f: Flags)
    requires !f.nobackslash
    ensures var e, t := if f.re then '%' else '\\', Chunk(c, beforeDigit, f);
            && (c == e ==> t == [e, e])
            && (c == '"' ==> t == if f.quote then [e, '"'] else ['"'])
            && (c == '\t' ==> t == [e, 't']) && (c == '\n' ==> t == [e, 'n']) && (c == '\r' ==> t == [e, 'r'])
            && (c as int == 11 ==> t == [e, 'v']) && (c as int == 12 ==> t == [e, 'f'])
            && (32 <= c as int < 127 && c != e && c != '"' ==> t == [c])
            && (!(9 <= c as int <= 13) && !(32 <= c as int < 127) ==> IsOctal(t, e, c as int, beforeDigit))
  {
    hide IsOctal, Octal;
    if !(9 <= c as int <= 13) && !(32 <= c as int < 127) {
      OctalIs(c, beforeDigit, f.Esc());
    }
  }

  lemma OctalIs(c: Octet, padded: bool, e: char)
    ensures IsOctal([e] + Octal(c, padded), e, c as int, padded)
  {}

  // An escape in as few octal digits as the number takes, or in three.
  predicate IsOctal(t: string, e: char, n: nat, three: bool) {
    && |t| == (if three || n >= 64 then 4 else if n >= 8 then 3 else 2) && t[0] == e
    && (forall i :: 1 <= i < |t| ==> '0' <= t[i] <= '7')
    && n == (if |t| == 4 then 64 * (t[1] - '0') as int + 8 * (t[2] - '0') as int + (t[3] - '0') as int
             else if |t| == 3 then 8 * (t[1] - '0') as int + (t[2] - '0') as int
             else (t[1] - '0') as int)
  }

  // Without backslashes every byte is written as it is.
  lemma NoBackslash(c: Octet, beforeDigit: bool, f: Flags)
    requires f.nobackslash
    ensures Chunk(c, beforeDigit, f) == [c]
  {}

  // The byte that the look-ahead reads after s[i]: past the end it is after, which is arbitrary.
  function Next(s: seq<Octet>, i: nat, after: char): char
    requires i < |s|
  {
    if i + 1 < |s| then s[i + 1] else after
  }

  // The text of the bytes from i up to k.
  function Escaped(s: seq<Octet>, i: nat, k: nat, after: char, f: Flags): string
    requires k <= |s|
    decreases k - i
  {
    if i >= k then []
    else Chunk(s[i], Numerals.IsDigit(Next(s, i, after)), f) + Escaped(s, i + 1, k, after, f)
  }

  lemma {:induction false} EscapedSnoc(s: seq<Octet>, i: nat, k: nat, after: char, f: Flags)
    requires i <= k < |s|
    ensures Escaped(s, i, k + 1, after, f)
         == Escaped(s, i, k, after, f) + Chunk(s[k], Numerals.IsDigit(Next(s, k, after)), f)
    decreases k - i
  {
    var c := Chunk(s[i], Numerals.IsDigit(Next(s, i, after)), f);
    if i == k {
      assert c + [] == [] + c;
    } else {
      EscapedSnoc(s, i + 1, k, after, f);
    }
  }

  // ----- Reading it back -----

  predicate IsOct(c: char) {
    '0' <= c <= '7'
  }

  function OctVal(c: char): nat
    requires IsOct(c)
  {
    c as int - '0' as int
  }

  // Up to three octal digits from the front of t: their number.
  function OctRun(t: string): (n: nat)
    ensures n <= 3 && n <= |t| && forall k :: 0 <= k < n ==> IsOct(t[k])
  {
    if |t| < 1 || !IsOct(t[0]) then 0
    else if |t| < 2 || !IsOct(t[1]) then 1
    else if |t| < 3 || !IsOct(t[2]) then 2
    else 3
  }

  function OctRead(t: string): char
    requires 1 <= OctRun(t)
  {
    var n := OctRun(t);
    if n == 1 then OctVal(t[0]) as char
    else if n == 2 then (OctVal(t[0]) * 8 + OctVal(t[1])) as char
    else (OctVal(t[0]) * 64 + OctVal(t[1]) * 8 + OctVal(t[2])) as char
  }

  function Named(c: char): char {
    if c == 'v' then VT
    else if c == 't' then '\t'
    else if c == 'r' then '\r'
    else if c == 'n' then '\n'
    else if c == 'f' then FF
    else c
  }

  // Undo the escapes of t up to an unescaped stop character; also what is left of t.
  function Decode(t: string, stop: Option<char>, f: Flags): (string, string)
    decreases |t|
  {
    if t == [] || stop == Some(t[0]) then ([], t)
    else if f.nobackslash || t[0] != f.Esc() || |t| == 1 then
      var r := Decode(t[1..], stop, f);
      ([t[0]] + r.0, r.1)
    else if IsOct(t[1]) then
      var r := Decode(t[1 + OctRun(t[1..])..], stop, f);
      ([OctRead(t[1..])] + r.0, r.1)
    else
      var r := Decode(t[2..], stop, f);
      ([Named(t[1])] + r.0, r.1)
  }

  // A text that does not continue an octal escape.
  predicate EndsEscape(rest: string) {
    rest == [] || !IsOct(rest[0])
  }

  lemma OctalReads(c: Octet, padded: bool, rest: string)
    requires padded || EndsEscape(rest)
    ensures var t := Octal(c, padded) + rest;
            OctRun(t) == |Octal(c, padded)| && OctRead(t) == c
  {}

  // The stop character is never the first character of a chunk.
  predicate Stops(stop: Option<char>, f: Flags) {
    stop == None || (stop == Some('"') && f.quote && !f.nobackslash)
  }

  lemma OctalDecodes(c: Octet, padded: bool, rest: string, stop: Option<char>, f: Flags)
    requires Stops(stop, f) && !f.nobackslash
    requires padded || EndsEscape(rest)
    ensures var r := Decode(rest, stop, f);
            Decode([f.Esc()] + Octal(c, padded) + rest, stop, f) == ([c] + r.0, r.1)
  {
    var o := Octal(c, padded);
    var t := [f.Esc()] + o + rest;
    assert t[1..] == o + rest;
    OctalReads(c, padded, rest);
    assert t[1 + |o|..] == rest;
  }

  lemma PairDecodes(c: Octet, x: char, rest: string, stop: Option<char>, f: Flags)
    requires Stops(stop, f) && !f.nobackslash
    requires !IsOct(x) && Named(x) == c
    ensures var r := Decode(rest, stop, f);
            Decode([f.Esc(), x] + rest, stop, f) == ([c] + r.0, r.1)
  {}

  // One chunk decodes to its byte, whatever follows, unless a digit could be taken
  // for part of it.
  lemma ChunkDecodes(c: Octet, beforeDigit: bool, rest: string, stop: Option<char>, f: Flags)
    requires Stops(stop, f)
    requires beforeDigit || EndsEscape(rest)
    ensures var r := Decode(rest, stop, f);
            Decode(Chunk(c, beforeDigit, f) + rest, stop, f) == ([c] + r.0, r.1)
  {
    if f.nobackslash || (c != f.Esc() && !(f.quote && c == '"') && IsPrint(c)) {
      assert ([c] + rest)[1..] == rest;
    } else if c == f.Esc() || (f.quote && c == '"') {
      PairDecodes(c, c, rest, stop, f);
    } else if Name(c).Some? {
      PairDecodes(c, Name(c).value, rest, stop, f);
    } else {
      OctalDecodes(c, beforeDigit, rest, stop, f);
    }
  }

  // What follows the text of s[i] continues no escape if s[i] was not seen before a digit.
  lemma RestEndsEscape(s: seq<Octet>, i: nat, k: nat, after: char, tail: string, f: Flags)
    requires i < k <= |s| && EndsEscape(tail)
    ensures Numerals.IsDigit(Next(s, i, after)) || EndsEscape(Escaped(s, i + 1, k, after, f) + tail)
  {}

  // Escapes are padded to three digits exactly where a digit follows, so the text of
  // any stretch of the input decodes to that stretch.
  lemma {:induction false} EscapedDecodes(s: seq<Octet>, i: nat, k: nat, after: char,
                                         tail: string, stop: Option<char>, f: Flags)
    requires i <= k <= |s| && Stops(stop, f) && EndsEscape(tail)
    ensures var r := Decode(tail, stop, f);
            Decode(Escaped(s, i, k, after, f) + tail, stop, f) == (s[i..k] + r.0, r.1)
    decreases k - i
  {
    if i == k {
      assert [] + tail == tail;
      assert s[i..k] + Decode(tail, stop, f).0 == Decode(tail, stop, f).0;
    } else {
      RestEndsEscape(s, i, k, after, tail, f);
      EscapedDecodes(s, i + 1, k, after, tail, stop, f);
      DecodesOneMore(s, i, k, after, tail, stop, f);
    }
  }

  lemma Assoc(a: string, b: string, c: string)
    ensures (a + b) + c == a + (b + c)
  {}

  lemma SliceCons(s: string, i: nat, k: nat, r: string)
    requires i < k <= |s|
    ensures [s[i]] + (s[i + 1..k] + r) == s[i..k] + r
  {}

  lemma DecodesOneMore(s: seq<Octet>, i: nat, k: nat, after: char, tail: string, stop: Option<char>, f: Flags)
    requires i < k <= |s| && Stops(stop, f)
    requires Numerals.IsDigit(Next(s, i, after)) || EndsEscape(Escaped(s, i + 1, k, after, f) + tail)
    requires var r := Decode(tail, stop, f);
             Decode(Escaped(s, i + 1, k, after, f) + tail, stop, f) == (s[i + 1..k] + r.0, r.1)
    ensures var r := Decode(tail, stop, f);
            Decode(Escaped(s, i, k, after, f) + tail, stop, f) == (s[i..k] + r.0, r.1)
  {
    var r := Decode(tail, stop, f);
    var c := Chunk(s[i], Numerals.IsDigit(Next(s, i, after)), f);
    var rest := Escaped(s, i + 1, k, after, f) + tail;
    ChunkDecodes(s[i], Numerals.IsDigit(Next(s, i, after)), rest, stop, f);
    Assoc(c, Escaped(s, i + 1, k, after, f), tail);
    SliceCons(s, i, k, r.0);
  }

  // ----- pv_escape -----

  function EscapedAll(s: seq<Octet>, after: char, f: Flags): string {
    Escaped(s, 0, |s|, after, f)
  }

  function Unescape(t: string, f: Flags): string {
    Decode(t, None, f).0
  }

  // Without a length limit nothing is lost, in every mode and whatever byte follows the input.
  lemma UnescapeInvertsEscape(s: seq<Octet>, after: char, f: Flags)
    ensures Unescape(EscapedAll(s, after, f), f) == s
  {
    EscapedDecodes(s, 0, |s|, after, [], None, f);
    var t := EscapedAll(s, after, f);
    assert t + [] == t && s[0..|s|] + [] == s;
  }

  lemma EscapeIsInjective(s: seq<Octet>, a: char, s': seq<Octet>, a': char, f: Flags)
    requires EscapedAll(s, a, f) == EscapedAll(s', a', f)
    ensures s == s'
  {
    UnescapeInvertsEscape(s, a, f);
    UnescapeInvertsEscape(s', a', f);
  }

  // The escaped text is printable.
  lemma {:induction false} EscapedIsPrintable(s: seq<Octet>, i: nat, k: nat, after: char, f: Flags)
    requires k <= |s| && !f.nobackslash
    ensures forall x :: x in Escaped(s, i, k, after, f) ==> IsPrint(x)
    decreases k - i
  {
    if i < k {
      EscapedIsPrintable(s, i + 1, k, after, f);
      ChunkIsPrintable(s[i], Numerals.IsDigit(Next(s, i, after)), f);
    }
  }

  lemma ChunkIsPrintable(c: Octet, beforeDigit: bool, f: Flags)
    requires !f.nobackslash
    ensures forall x :: x in Chunk(c, beforeDigit, f) ==> IsPrint(x)
  {}

  // The number of bytes from k on that still fit in max characters; 0 is no limit.
  function Consumed(s: seq<Octet>, k: nat, max: nat, after: char, f: Flags): (n: nat)
    requires k <= |s|
    ensures k <= n <= |s|
    decreases |s| - k
  {
    if k < |s| && (max == 0 || |Escaped(s, 0, k + 1, after, f)| <= max) then Consumed(s, k + 1, max, after, f) else k
  }

  lemma {:induction false} EscapedGrows(s: seq<Octet>, k: nat, m: nat, after: char, f: Flags)
    requires k <= m <= |s|
    ensures |Escaped(s, 0, m, after, f)| >= |Escaped(s, 0, k, after, f)| + (m - k)
    decreases m - k
  {
    if k < m {
      EscapedSnoc(s, 0, m - 1, after, f);
      EscapedGrows(s, k, m - 1, after, f);
    }
  }

  lemma {:induction false} ConsumedFits(s: seq<Octet>, k: nat, max: nat, after: char, f: Flags)
    requires k <= |s| && (max == 0 || |Escaped(s, 0, k, after, f)| <= max)
    ensures var n := Consumed(s, k, max, after, f);
            && (max == 0 || |Escaped(s, 0, n, after, f)| <= max)
            && (n < |s| ==> max != 0 && |Escaped(s, 0, n + 1, after, f)| > max)
    decreases |s| - k
  {
    if k < |s| && (max == 0 || |Escaped(s, 0, k + 1, after, f)| <= max) {
      ConsumedFits(s, k + 1, max, after, f);
    }
  }

  // pv_escape consumes the longest prefix whose complete escaping fits the limit.
  lemma ConsumesLongestPrefix(s: seq<Octet>, max: nat, after: char, f: Flags, m: nat)
    requires m <= |s|
    ensures (max == 0 || |Escaped(s, 0, m, after, f)| <= max) <==> m <= Consumed(s, 0, max, after, f)
  {
    ConsumedFits(s, 0, max, after, f);
    var n := Consumed(s, 0, max, after, f);
    if m <= n {
      EscapedGrows(s, m, n, after, f);
    } else {
      EscapedGrows(s, n + 1, m, after, f);
    }
  }

  // A Perl string buffer that the printers append to.
  class Sv {
    var pv: string

    constructor ()
      ensures pv == []
    {
      pv := [];
    }

    method Cat(t: string)
      modifies this
      ensures pv == old(pv) + t
    {
      pv := pv + t;
    }
  }

  // my_snprintf(octbuf, sizeof octbuf, "%c%03o" or "%c%o", esc, c)
  method PrintOctal(octbuf: array<char>, c: Octet, padded: bool, esc: char) returns (chsize: nat)
    requires octbuf.Length == 32
    modifies octbuf
    ensures octbuf[0] == esc && 1 < chsize <= 4 && octbuf[..chsize] == [esc] + Octal(c, padded)
  {
    octbuf[0] := esc;
    var n := c as int;
    if padded || n >= 64 {
      octbuf[1], octbuf[2], octbuf[3] := OctDigit(n / 64), OctDigit(n / 8 % 8), OctDigit(n % 8);
      chsize := 4;
    } else if n >= 8 {
      octbuf[1], octbuf[2] := OctDigit(n / 8), OctDigit(n % 8);
      chsize := 3;
    } else {
      octbuf[1] := OctDigit(n);
      chsize := 2;
    }
  }

  // The branches that choose the text of one byte: in octbuf if it takes more than one
  // character, and the byte itself otherwise.
  method ChooseText(octbuf: array<char>, c: Octet, beforeDigit: bool, f: Flags) returns (chsize: nat)
    requires octbuf.Length == 32 && octbuf[0] == f.Esc()
    modifies octbuf
    ensures octbuf[0] == f.Esc() && 1 <= chsize <= 4
    ensures Chunk(c, beforeDigit, f) == if chsize > 1 then octbuf[..chsize] else [c]
  {
    var esc, dq := f.Esc(), f.Dq();
    if f.nobackslash {
      chsize := 1;
    } else if c == dq || c == esc || !IsPrint(c) {
      chsize := 2;
      if c == '\\' || c == '%' {
        if c == esc {
          octbuf[1] := esc;
        } else {
          chsize := 1;
        }
      } else if c == VT {
        octbuf[1] := 'v';
      } else if c == '\t' {
        octbuf[1] := 't';
      } else if c == '\r' {
        octbuf[1] := 'r';
      } else if c == '\n' {
        octbuf[1] := 'n';
      } else if c == FF {
        octbuf[1] := 'f';
      } else if c == '"' {
        if dq == '"' {
          octbuf[1] := '"';
        } else {
          chsize := 1;
        }
      } else {
        chsize := PrintOctal(octbuf, c, beforeDigit, esc);
      }
    } else {
      chsize := 1;
    }
  }

  // One more byte has been printed.
  lemma PrintedOne(str: seq<Octet>, k: nat, after: char, f: Flags, base: string, pv: string)
    requires k < |str|
    requires pv == base + Escaped(str, 0, k, after, f) + Chunk(str[k], Numerals.IsDigit(Next(str, k, after)), f)
    ensures pv == base + Escaped(str, 0, k + 1, after, f)
  {
    EscapedSnoc(str, 0, k, after, f);
  }

  lemma LengthOfNext(str: seq<Octet>, k: nat, after: char, f: Flags)
    requires k < |str|
    ensures |Escaped(str, 0, k + 1, after, f)|
         == |Escaped(str, 0, k, after, f)| + |Chunk(str[k], Numerals.IsDigit(Next(str, k, after)), f)|
  {
    EscapedSnoc(str, 0, k, after, f);
  }

  method PvEscape(dsv: Sv, str: seq<Octet>, after: char, max: nat, f: Flags) returns (escaped: nat)
    modifies dsv
    ensures escaped == Consumed(str, 0, max, after, f)
    ensures dsv.pv == (if f.noclear then old(dsv.pv) else []) + Escaped(str, 0, escaped, after, f)
  {
    var octbuf := new char[32](_ => 'F');
    octbuf[0] := f.Esc();
    if !f.noclear {
      dsv.pv := [];
    }
    ghost var base := dsv.pv;
    var wrote, k := 0, 0;
    while k < |str| && (max == 0 || wrote < max)
      invariant octbuf[0] == f.Esc()
      invariant k <= |str| && wrote == |Escaped(str, 0, k, after, f)|
      invariant Consumed(str, k, max, after, f) == Consumed(str, 0, max, after, f)
      invariant dsv.pv == base + Escaped(str, 0, k, after, f)
    {
      var c := str[k];
      ghost var text := Chunk(c, Numerals.IsDigit(Next(str, k, after)), f);
      var chsize := ChooseText(octbuf, c, Numerals.IsDigit(Next(str, k, after)), f);
      LengthOfNext(str, k, after, f);
      if max != 0 && wrote + chsize > max {
        break;
      } else if chsize > 1 {
        dsv.Cat(octbuf[..chsize]);
        wrote := wrote + chsize;
      } else {
        dsv.Cat([c]);
        wrote := wrote + 1;
      }
      PrintedOne(str, k, after, f, base, dsv.pv);
      k := k + 1;
    }
    if k < |str| {
      LengthOfNext(str, k, after, f);
    }
    escaped := k;
  }

  // ----- pv_pretty -----

  function Opening(f: Flags): string {
    if f.quote then ['"'] else if f.ltgt then ['<'] else []
  }

  function Closing(f: Flags): string {
    if f.quote then ['"'] else if f.ltgt then ['>'] else []
  }

  function Ellipsis(s: seq<Octet>, max: nat, after: char, f: Flags): string {
    if f.ellipses && Consumed(s, 0, max, after, f) < |s| then ['.', '.', '.'] else []
  }

  // The printed form: delimiters and colours around the longest prefix that fits.
  function Pretty(s: seq<Octet>, after: char, max: nat, startColor: string, endColor: string, f: Flags): string {
    Opening(f) + startColor + Escaped(s, 0, Consumed(s, 0, max, after, f), after, f) + endColor + Closing(f)
    + Ellipsis(s, max, after, f)
  }

  // The printed form: quotes go before angle brackets, the colours inside them around the
  // text, and the dots, if the text is cut, after them.
  lemma PrettyForm(s: seq<Octet>, after: char, max: nat, startColor: string, endColor: string, f: Flags)
    ensures var text := Escaped(s, 0, Consumed(s, 0, max, after, f), after, f);
            var body := startColor + text + endColor;
            var dots := if f.ellipses && max != 0 && |EscapedAll(s, after, f)| > max then "..." else "";
            Pretty(s, after, max, startColor, endColor, f)
            == (if f.quote then "\"" + body + "\"" else if f.ltgt then "<" + body + ">" else body) + dots
  {
    EllipsisMeansTooLong(s, max, after, f);
    hide Escaped, Consumed, EscapedAll;
    var text := Escaped(s, 0, Consumed(s, 0, max, after, f), after, f);
    var body := startColor + text + endColor;
    assert Opening(f) + startColor + text + endColor == Opening(f) + body;
    assert [] + body == body && body + [] == body;
  }

  // The dots are there exactly when the whole input, escaped, is longer than the limit.
  lemma EllipsisMeansTooLong(s: seq<Octet>, max: nat, after: char, f: Flags)
    ensures Ellipsis(s, max, after, f) != [] <==> f.ellipses && max != 0 && |EscapedAll(s, after, f)| > max
  {
    ConsumesLongestPrefix(s, max, after, f, |s|);
  }

  predicate SameMode(f: Flags, g: Flags) {
    f.quote == g.quote && f.re == g.re && f.nobackslash == g.nobackslash
  }

  lemma {:induction false} SameModeEscaped(s: seq<Octet>, i: nat, k: nat, after: char, f: Flags, g: Flags)
    requires k <= |s| && SameMode(f, g)
    ensures Escaped(s, i, k, after, f) == Escaped(s, i, k, after, g)
    decreases k - i
  {
    if i < k {
      SameModeEscaped(s, i + 1, k, after, f, g);
    }
  }

  lemma {:induction false} SameModeConsumed(s: seq<Octet>, k: nat, max: nat, after: char, f: Flags, g: Flags)
    requires k <= |s| && SameMode(f, g)
    ensures Consumed(s, k, max, after, f) == Consumed(s, k, max, after, g)
    decreases |s| - k
  {
    if k < |s| {
      SameModeEscaped(s, 0, k + 1, after, f, g);
      SameModeConsumed(s, k + 1, max, after, f, g);
    }
  }

  // A further piece has been appended to a buffer that held base and t.
  lemma Append(base: string, t: string, piece: string, pv: string) returns (t': string)
    requires pv == base + t + piece
    ensures t' == t + piece && pv == base + t'
  {
    t' := t + piece;
  }

  method CatOpening(dsv: Sv, f: Flags)
    modifies dsv
    ensures dsv.pv == old(dsv.pv) + Opening(f)
  {
    var dq := if f.quote then '"' else '%';
    if dq == '"' {
      dsv.Cat(['"']);
    } else if f.ltgt {
      dsv.Cat(['<']);
    }
  }

  method CatClosing(dsv: Sv, f: Flags)
    modifies dsv
    ensures dsv.pv == old(dsv.pv) + Closing(f)
  {
    var dq := if f.quote then '"' else '%';
    if dq == '"' {
      dsv.Cat(['"']);
    } else if f.ltgt {
      dsv.Cat(['>']);
    }
  }

  // A null colour is the empty one.
  function ColorText(color: Option<string>): string {
    match color case None => [] case Some(t) => t
  }

  method CatColor(dsv: Sv, color: Option<string>)
    modifies dsv
    ensures dsv.pv == old(dsv.pv) + ColorText(color)
  {
    if color.Some? {
      dsv.Cat(color.value);
    }
  }

  method CatEscaped(dsv: Sv, str: seq<Octet>, after: char, max: nat, f: Flags) returns (escaped: nat)
    modifies dsv
    ensures escaped == Consumed(str, 0, max, after, f)
    ensures dsv.pv == old(dsv.pv) + Escaped(str, 0, escaped, after, f)
  {
    escaped := PvEscape(dsv, str, after, max, f.(noclear := true));
    SameModeConsumed(str, 0, max, after, f, f.(noclear := true));
    SameModeEscaped(str, 0, escaped, after, f, f.(noclear := true));
  }

  method PvPretty(dsv: Sv, str: seq<Octet>, after: char, max: nat,
                  startColor: Option<string>, endColor: Option<string>, f: Flags)
    modifies dsv
    ensures dsv.pv == (if f.noclear then old(dsv.pv) else [])
                    + Pretty(str, after, max, ColorText(startColor), ColorText(endColor), f)
  {
    if !f.noclear {
      dsv.pv := [];
    }
    ghost var base := dsv.pv;
    CatOpening(dsv, f);
    ghost var t := Opening(f);
    CatColor(dsv, startColor);
    t := Append(base, t, ColorText(startColor), dsv.pv);
    var escaped := CatEscaped(dsv, str, after, max, f);
    t := Append(base, t, Escaped(str, 0, escaped, after, f), dsv.pv);
    CatColor(dsv, endColor);
    t := Append(base, t, ColorText(endColor), dsv.pv);
    CatClosing(dsv, f);
    t := Append(base, t, Closing(f), dsv.pv);
    if f.ellipses && escaped < |str| {
      dsv.Cat(['.', '.', '.']);
    }
    t := Append(base, t, Ellipsis(str, max, after, f), dsv.pv);
  }

  // The quoted printed form can be read back: it shows exactly the consumed prefix, and
  // the dots after the closing quote say whether input was left out.
  lemma PrettyReadsBack(s: seq<Octet>, after: char, max: nat, f: Flags)
    requires f.quote && f.ellipses && !f.nobackslash
    ensures var t := Pretty(s, after, max, [], [], f);
            var n := Consumed(s, 0, max, after, f);
            && t != [] && t[0] == '"'
            && Decode(t[1..], Some('"'), f) == (s[..n], ['"'] + if n < |s| then ['.', '.', '.'] else [])
  {
    var n := Consumed(s, 0, max, after, f);
    var tail := ['"'] + Ellipsis(s, max, after, f);
    EscapedDecodes(s, 0, n, after, tail, Some('"'), f);
    assert Pretty(s, after, max, [], [], f)[1..] == Escaped(s, 0, n, after, f) + tail;
    assert s[0..n] + [] == s[..n];
  }

  // Two inputs that print alike in full are equal.
  lemma PrettyIsInjective(s: seq<Octet>, a: char, s': seq<Octet>, a': char, max: nat, f: Flags)
    requires f.quote && f.ellipses && !f.nobackslash
    requires Pretty(s, a, max, [], [], f) == Pretty(s', a', max, [], [], f)
    ensures var n, n' := Consumed(s, 0, max, a, f), Consumed(s', 0, max, a', f);
            s[..n] == s'[..n'] && (n == |s| <==> n' == |s'|)
  {
    PrettyReadsBack(s, a, max, f);
    PrettyReadsBack(s', a', max, f);
  }
}
