// Parameters of a statement: sqlite_bind_ph and the binding loop of sqlite_st_execute
// in DBD-SQLite/dbdimp.c.
module Binding {
  import opened IsNumber
  import opened Numerals
  import opened Options
  import opened SqlScan

  // The ODBC type codes that sqlite_type_from_odbc_type tells apart.
  datatype OdbcType =
    | SqlInteger | SqlSmallInt | SqlTinyInt | SqlBigInt
    | SqlFloat | SqlReal | SqlDouble
    | SqlBlob
    | SqlOther
  {
    function ToSqlite(): SqlType {
      match this
      case SqlInteger => TInteger
      case SqlSmallInt => TInteger
      case SqlTinyInt => TInteger
      case SqlBigInt => TInteger
      case SqlFloat => TFloat
      case SqlReal => TFloat
      case SqlDouble => TFloat
      case SqlBlob => TBlob
      case SqlOther => TText
    }
  }

  // What the engine is given for a parameter; a double is named by its text.
  datatype Bound =
    | BoundNull
    | BoundBlob(data: string)
    | BoundInt(n: int)
    | BoundDouble(text: string)
    | BoundText(text: string)

  // The parameter list, as a Perl array: the value of parameter p in element 2p - 2, its
  // type in element 2p - 1.
  datatype Slot = Unset | Text(value: Option<string>) | Type(t: OdbcType)
  type Params = seq<Slot>

  // What Perl makes of a type read as a text and of a value read as a type.
  datatype Conv = Conv(textOf: OdbcType -> string, typeOf: Option<string> -> OdbcType)

  // How a parameter is named: by number, or by a name the engine resolves to an index (0
  // if it has none), or by something that is no C string.
  datatype Param = Position(p: int) | Named(index: nat) | NotAName

  function PositionOf(param: Param): Option<int> {
    match param
    case Position(p) => Some(p)
    case Named(index) => if index == 0 then None else Some(index)
    case NotAName => None
  }

  // A number stands for itself, a name for its index unless that is 0, and nothing else for
  // anything.
  lemma PositionsAre(p: int, index: nat)
    ensures PositionOf(Position(p)) == Some(p) && PositionOf(NotAName) == None
    ensures index > 0 ==> PositionOf(Named(index)) == PositionOf(Position(index))
    ensures PositionOf(Named(0)) == None
  {}

  // What C code sees of a Perl text: the part before its first NUL.
  function CPart(text: string): (c: CString)
    ensures '\0' !in text ==> c == text
  {
    if text == [] || text[0] == '\0' then []
    else
      var c: CString := [text[0]] + CPart(text[1..]);
      c
  }

  // How the binding loop chooses.
  function BindAs(value: Option<string>, t: SqlType, seeIfNumber: bool, echo: FloatEcho): Bound {
    if value.None? then BoundNull
    else if t.TBlob? then BoundBlob(value.value)
    else
      var data := CPart(value.value);
      var kind := if seeIfNumber then Classify(data, TNull, echo)
                  else if t.TInteger? || t.TFloat? then Classify(data, t, echo)
                  else 0;
      if kind == 1 then BoundInt(Atoll(data))
      else if kind == 2 && !t.TInteger? then BoundDouble(data)
      else BoundText(value.value)
  }

  function SlotAt(av: Params, k: int): Slot {
    if 0 <= k < |av| then av[k] else Unset
  }

  function SlotValue(av: Params, p: int, conv: Conv): Option<string> {
    match SlotAt(av, 2 * p - 2)
    case Unset => None
    case Text(value) => value
    case Type(t) => Some(conv.textOf(t))
  }

  function SlotType(av: Params, p: int, conv: Conv): SqlType {
    match SlotAt(av, 2 * p - 1)
    case Unset => SqlOther.ToSqlite()
    case Text(value) => conv.typeOf(value).ToSqlite()
    case Type(t) => t.ToSqlite()
  }

  // av_store: a negative key counts from the end, and stores nothing if it is still
  // negative then; the array grows as needed.
  function AvStore(av: Params, key: int, s: Slot): Params {
    var k := if key < 0 then key + |av| else key;
    if k < 0 then av
    else if k < |av| then av[k := s]
    else av + seq(k - |av|, _ => Unset) + [s]
  }

  // ----- A sequence of bind calls -----

  // A successful call: a type of 0 is no type.
  datatype Call = Call(p: int, value: Option<string>, t: Option<OdbcType>)

  function Stored(av: Params, c: Call): Params {
    var av1 := AvStore(av, 2 * (c.p - 1), Text(c.value));
    if c.t.Some? then AvStore(av1, 2 * (c.p - 1) + 1, Type(c.t.value)) else av1
  }

  function AllStored(calls: seq<Call>): Params {
    if calls == [] then [] else Stored(AllStored(calls[..|calls| - 1]), calls[|calls| - 1])
  }

  lemma AllStoredSnoc(calls: seq<Call>, c: Call)
    ensures AllStored(calls + [c]) == Stored(AllStored(calls), c)
  {
    assert (calls + [c])[..|calls|] == calls;
  }

  // Parameters are numbered from 1.
  predicate Numbered(calls: seq<Call>) {
    forall i :: 0 <= i < |calls| ==> 1 <= calls[i].p
  }

  function LastValue(calls: seq<Call>, p: int): Option<string> {
    if calls == [] then None
    else
      var c := calls[|calls| - 1];
      if c.p == p then c.value else LastValue(calls[..|calls| - 1], p)
  }

  // The type is sticky: a call without a type keeps the one given before.
  function LastType(calls: seq<Call>, p: int): SqlType {
    if calls == [] then TText
    else
      var c := calls[|calls| - 1];
      if c.p == p && c.t.Some? then c.t.value.ToSqlite() else LastType(calls[..|calls| - 1], p)
  }

  // Every element is of its kind.
  ghost predicate Kinds(av: Params) {
    forall k :: 0 <= k < |av| ==> if k % 2 == 0 then !av[k].Type? else !av[k].Text?
  }

  lemma AvStoreAt(av: Params, key: int, s: Slot, k: int)
    requires 0 <= key
    ensures SlotAt(AvStore(av, key, s), k) == if k == key then s else SlotAt(av, k)
  {}

  lemma StoredAt(av: Params, c: Call, k: int)
    requires 1 <= c.p
    ensures SlotAt(Stored(av, c), k) == if k == 2 * c.p - 2 then Text(c.value)
                                        else if k == 2 * c.p - 1 && c.t.Some? then Type(c.t.value)
                                        else SlotAt(av, k)
  {
    hide AvStore, SlotAt;
    var av1 := AvStore(av, 2 * (c.p - 1), Text(c.value));
    AvStoreAt(av, 2 * (c.p - 1), Text(c.value), k);
    if c.t.Some? {
      AvStoreAt(av1, 2 * (c.p - 1) + 1, Type(c.t.value), k);
    }
  }

  lemma StoredKinds(av: Params, c: Call)
    requires Kinds(av) && 1 <= c.p
    ensures Kinds(Stored(av, c))
  {
    hide Stored;
    forall k | 0 <= k < |Stored(av, c)|
      ensures var s := Stored(av, c)[k]; if k % 2 == 0 then !s.Type? else !s.Text?
    {
      StoredAt(av, c, k);
      assert Stored(av, c)[k] == SlotAt(Stored(av, c), k);
    }
  }

  // The list says what the calls said: every parameter has its last value and its last
  // given type.
  lemma {:induction false} CallsAreRecorded(calls: seq<Call>, p: int, conv: Conv)
    requires Numbered(calls)
    ensures Kinds(AllStored(calls))
    ensures SlotValue(AllStored(calls), p, conv) == LastValue(calls, p)
    ensures SlotType(AllStored(calls), p, conv) == LastType(calls, p)
  {
    if calls != [] {
      hide Stored, SlotAt, Kinds;
      var init, c := calls[..|calls| - 1], calls[|calls| - 1];
      CallsAreRecorded(init, p, conv);
      StoredKinds(AllStored(init), c);
      StoredAt(AllStored(init), c, 2 * p - 2);
      StoredAt(AllStored(init), c, 2 * p - 1);
    } else {
      assert Kinds([]);
    }
  }

  // ----- Positions below 1 -----

  // A call at a position below 1 is answered like any other. It changes no element but
  // those that its position reaches from the end of the list, if any.
  lemma LowPositionStored(av: Params, c: Call)
    requires c.p < 1
    ensures var k, av' := |av| + 2 * (c.p - 1), Stored(av, c);
            && |av'| == |av|
            && forall i :: 0 <= i < |av| ==>
                 av'[i] == if i == k then Text(c.value) else if i == k + 1 && c.t.Some? then Type(c.t.value) else av[i]
  {}

  // If the last call gave a type, the list is even, and a position below 1 overwrites the
  // parameter that it counts back to, if there is one.
  lemma LowPositionOverwrites(av: Params, c: Call)
    requires c.p < 1 && |av| % 2 == 0
    ensures var q := |av| / 2 + c.p;
            Stored(av, c) == if 1 <= q then Stored(av, c.(p := q)) else av
  {
    LowPositionStored(av, c);
  }

  // After an odd number of elements, value and type change places.
  lemma LowPositionMisplaces(av: Params, c: Call)
    requires c.p < 1 && |av| % 2 == 1 && 1 <= (|av| + 1) / 2 + c.p - 1
    ensures var q := (|av| + 1) / 2 + c.p - 1;
            SlotAt(Stored(av, c), 2 * q - 1) == Text(c.value)
            && (c.t.Some? ==> SlotAt(Stored(av, c), 2 * q) == Type(c.t.value))
  {
    LowPositionStored(av, c);
  }

  // Such a call leaves the list alone, whatever it says, if and only if it does not reach
  // back into it.
  lemma LowPositionHarmless(av: Params, p: int)
    requires p < 1
    ensures (forall value, t :: Stored(av, Call(p, value, t)) == av) <==> |av| + 2 * (p - 1) + 1 < 0
  {
    var k := |av| + 2 * (p - 1);
    if k + 1 < 0 {
      forall value, t
        ensures Stored(av, Call(p, value, t)) == av
      {
        LowPositionStored(av, Call(p, value, t));
      }
    } else {
      var a, b := Call(p, None, Some(SqlBlob)), Call(p, Some([]), Some(SqlOther));
      LowPositionStored(av, a);
      LowPositionStored(av, b);
      var i := if k < 0 then 0 else k;
      assert Stored(av, a)[i] != Stored(av, b)[i];
    }
  }

  // One parameter, bound as an integer, then a call at position 0.
  lemma PositionZeroOverwritesTheFirst(a: string, b: string, conv: Conv)
    ensures var calls := [Call(1, Some(a), Some(SqlInteger)), Call(0, Some(b), None)];
            SlotValue(AllStored(calls), 1, conv) == Some(b)
  {
    var first, second := Call(1, Some(a), Some(SqlInteger)), Call(0, Some(b), None);
    var av := Stored([], first);
    assert [first, second][..1] == [first] && [first][..0] == [];
    assert AllStored([first]) == av;
    assert |av| == 2;
    LowPositionStored(av, second);
  }

  // ----- The binding loop -----

  // The first n parameters are bound as the list says.
  ghost predicate BoundBy(bound: seq<Bound>, av: Params, conv: Conv, seeIfNumber: bool, echo: FloatEcho) {
    forall i :: 0 <= i < |bound| ==>
      bound[i] == BindAs(SlotValue(av, i + 1, conv), SlotType(av, i + 1, conv), seeIfNumber, echo)
  }

  class ParamList {
    var av: Params
    ghost var calls: seq<Call>

    ghost predicate Valid()
      reads this
    {
      av == AllStored(calls)
    }

    constructor ()
      ensures Valid() && calls == []
    {
      av, calls := [], [];
    }

    // sqlite_bind_ph
    method BindPh(param: Param, value: Option<string>, t: Option<OdbcType>, isInOut: bool) returns (ok: bool)
      requires Valid()
      modifies this
      ensures Valid()
      ensures ok <==> !isInOut && PositionOf(param).Some?
      ensures calls == if ok then old(calls) + [Call(PositionOf(param).value, value, t)] else old(calls)
    {
      hide AvStore, AllStored;
      if isInOut {
        return false;
      }
      var pos;
      match param {
        case Named(index) =>
          if index == 0 {
            return false;
          }
          pos := 2 * (index - 1);
        case NotAName =>
          return false;
        case Position(p) =>
          pos := 2 * (p - 1);
      }
      ghost var c := Call(PositionOf(param).value, value, t);
      AllStoredSnoc(calls, c);
      calls := calls + [c];
      av := AvStore(av, pos, Text(value));
      if t.Some? {
        av := AvStore(av, pos + 1, Type(t.value));
      }
      return true;
    }

    // The binding loop.
    method BindAll(numParams: nat, conv: Conv, seeIfNumber: bool, echo: FloatEcho) returns (bound: seq<Bound>)
      requires Valid()
      ensures |bound| == numParams && BoundBy(bound, av, conv, seeIfNumber, echo)
      ensures Numbered(calls) ==>
        forall i :: 0 <= i < numParams ==>
          bound[i] == BindAs(LastValue(calls, i + 1), LastType(calls, i + 1), seeIfNumber, echo)
    {
      hide LastValue, LastType, SlotValue, SlotType, BindAs, AllStored, Numbered;
      bound := [];
      for i := 0 to numParams
        invariant |bound| == i && BoundBy(bound, av, conv, seeIfNumber, echo)
      {
        var b := BindOne(SlotValue(av, i + 1, conv), SlotType(av, i + 1, conv), seeIfNumber, echo);
        bound := bound + [b];
      }
      if Numbered(calls) {
        forall i | 0 <= i < numParams
          ensures bound[i] == BindAs(LastValue(calls, i + 1), LastType(calls, i + 1), seeIfNumber, echo)
        {
          CallsAreRecorded(calls, i + 1, conv);
        }
      }
    }
  }

  // The body of the binding loop.
  method BindOne(value: Option<string>, t: SqlType, seeIfNumber: bool, echo: FloatEcho) returns (b: Bound)
    ensures b == BindAs(value, t, seeIfNumber, echo)
  {
    if value.None? {
      return BoundNull;
    }
    if t.TBlob? {
      return BoundBlob(value.value);
    }
    var data := CPart(value.value);
    var numtype := 0;
    if seeIfNumber {
      numtype := IsNumber.IsNumber(data, TNull, echo);
    } else if t.TInteger? || t.TFloat? {
      numtype := IsNumber.IsNumber(data, t, echo);
    }
    if numtype == 1 {
      return BoundInt(Atoll(data));
    } else if numtype == 2 && !t.TInteger? {
      return BoundDouble(data);
    }
    return BoundText(value.value);
  }

  // ----- What is bound -----

  // The codes that make an integer, a float and a blob; every other one makes a text.
  lemma TypesOfCodes(t: OdbcType)
    ensures t.ToSqlite().TInteger? <==> t in {SqlInteger, SqlSmallInt, SqlTinyInt, SqlBigInt}
    ensures t.ToSqlite().TFloat? <==> t in {SqlFloat, SqlReal, SqlDouble}
    ensures t.ToSqlite().TBlob? <==> t == SqlBlob
    ensures t.ToSqlite().TText? <==> t == SqlOther
  {}

  // What the classifier says of the text under these settings, and 0 if it is not asked.
  function NumberKind(text: string, t: SqlType, seeIfNumber: bool, echo: FloatEcho): int {
    if seeIfNumber then Classify(CPart(text), TNull, echo)
    else if t.TInteger? || t.TFloat? then Classify(CPart(text), t, echo)
    else 0
  }

  // NULL is bound for an undefined value and nothing else, a blob for every defined value
  // under that type and in full, a double for a text classified 2 under a type other than
  // integer; every other value is bound as an integer or as the whole text, NULs included.
  lemma WhatIsBound(value: Option<string>, t: SqlType, seeIfNumber: bool, echo: FloatEcho)
    ensures var b := BindAs(value, t, seeIfNumber, echo);
            && (b.BoundNull? <==> value.None?)
            && (b.BoundBlob? <==> value.Some? && t.TBlob?)
            && (b.BoundBlob? ==> b.data == value.value)
            && (value.Some? && !t.TBlob? ==>
                 var kind := NumberKind(value.value, t, seeIfNumber, echo);
                 && (b.BoundInt? <==> kind == 1)
                 && (b.BoundDouble? <==> kind == 2 && !t.TInteger?)
                 && (b.BoundText? <==> kind != 1 && !(kind == 2 && !t.TInteger?)))
            && (b.BoundInt? ==> b.n == Atoll(CPart(value.value)))
            && (b.BoundDouble? ==> b.text == CPart(value.value))
            && (b.BoundText? ==> b.text == value.value)
  {
    hide Classify, Atoll, CPart;
  }

  // A text that is not asked to be seen as a number is bound as it is.
  lemma PlainTextIsKept(text: string, echo: FloatEcho)
    ensures BindAs(Some(text), TText, false, echo) == BoundText(text)
  {}

  // What comes before the first NUL.
  lemma {:induction false} CPartIsBeforeNul(text: string)
    ensures CPart(text) <= text && '\0' !in CPart(text)
    ensures CPart(text) == text || text[|CPart(text)|] == '\0'
  {
    if text != [] && text[0] != '\0' {
      CPartIsBeforeNul(text[1..]);
      assert CPart(text) == [text[0]] + CPart(text[1..]);
    }
  }

  // ----- Integers and their texts -----

  // The text that the classifier is to look at under these settings.
  function LookedAt(text: string, t: SqlType, seeIfNumber: bool): string {
    Looked(text, if seeIfNumber then TNull else t)
  }

  // The text is the decimal form of n, with an optional plus.
  ghost predicate Prints(n: int, text: string) {
    exists hasPlus :: (hasPlus ==> n >= 0) && text == Form(n, hasPlus)
  }

  lemma OneMeansDecimal(data: CString, u: SqlType, echo: FloatEcho)
    ensures Classify(data, u, echo) == 1 <==> exists n :: IsInt64(n) && Prints(n, Looked(data, u))
    ensures Classify(data, u, echo) == 1 ==> Prints(Atoll(data), Looked(data, u))
  {
    hide Classify, Form, Atoll, Looked;
    OneMeansInt64(data, u, echo);
    if n, hasPlus :| IsInt64(n) && (hasPlus ==> n >= 0) && Looked(data, u) == Form(n, hasPlus) {
      AtollSkipsSpaces(data, u);
      AtollOfForm(n, hasPlus);
      assert Prints(n, Looked(data, u));
    }
    if n :| IsInt64(n) && Prints(n, Looked(data, u)) {
      var hasPlus :| (hasPlus ==> n >= 0) && Looked(data, u) == Form(n, hasPlus);
    }
  }

  // A text is bound as an integer exactly when it is asked to be seen as a number and its
  // part before the first NUL is the decimal form of an int64: of the integer bound.
  lemma IntegersAreDecimal(text: string, t: SqlType, seeIfNumber: bool, echo: FloatEcho)
    ensures var looked := LookedAt(CPart(text), t, seeIfNumber);
            var b := BindAs(Some(text), t, seeIfNumber, echo);
            && (b.BoundInt? <==> !t.TBlob? && (seeIfNumber || t.TInteger? || t.TFloat?)
                                 && exists n :: IsInt64(n) && Prints(n, looked))
            && (b.BoundInt? ==> Prints(b.n, looked))
  {
    hide Classify, Atoll, Looked, CPart, Prints;
    OneMeansDecimal(CPart(text), if seeIfNumber then TNull else t, echo);
  }

  lemma {:induction false} DecHasNoNul(n: nat)
    ensures '\0' !in Dec(n)
  {
    assert forall c :: c in Dec(n) ==> IsDigit(c);
  }

  lemma PrintsHasNoNul(n: int, text: string)
    requires Prints(n, text)
    ensures '\0' !in text
  {
    DecHasNoNul(if n < 0 then -n else n);
  }

  lemma {:induction false} NulIsLookedAt(text: string, t: SqlType)
    ensures '\0' in Looked(text, t) <==> '\0' in text
  {
    if !t.TNull? && text != [] && text[0] == ' ' {
      assert text == [' '] + text[1..];
      NulIsLookedAt(text[1..], t);
    }
  }

  // The integer bound prints as the text, but for leading blanks under a type and a plus
  // sign, exactly if the text holds no NUL.
  lemma IntegersKeepTheirText(text: string, t: SqlType, seeIfNumber: bool, echo: FloatEcho)
    ensures var b := BindAs(Some(text), t, seeIfNumber, echo);
            b.BoundInt? ==> (Prints(b.n, LookedAt(text, t, seeIfNumber)) <==> '\0' !in text)
  {
    hide BindAs, Prints, Looked;
    var b := BindAs(Some(text), t, seeIfNumber, echo);
    IntegersAreDecimal(text, t, seeIfNumber, echo);
    NulIsLookedAt(text, if seeIfNumber then TNull else t);
    if b.BoundInt? && Prints(b.n, LookedAt(text, t, seeIfNumber)) {
      PrintsHasNoNul(b.n, LookedAt(text, t, seeIfNumber));
    }
  }

  lemma BeforeNul()
    ensures CPart("12\0x") == "12"
  {
    var text := "12\0x";
    assert text[1..][1..] == "\0x";
  }

  lemma TwelveIsDecimal()
    ensures IsInt64(12) && Form(12, false) == "12"
  {
    assert Dec(1) == "1";
  }

  // Such as 12 and what follows a NUL after it.
  lemma NulHidesTheRest(echo: FloatEcho)
    ensures BindAs(Some("12\0x"), TText, true, echo) == BoundInt(12)
  {
    var text := "12\0x";
    BeforeNul();
    TwelveIsDecimal();
    OneMeansInt64("12", TNull, echo);
    AtollOfForm(12, false);
    hide Classify, Atoll, Form, CPart;
  }
}
