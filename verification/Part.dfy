// The two drivers of part() in List-MoreUtils/MoreUtils.xs: the one in use, and
// part_dhash, which uses the hash table and is kept under #if 0.
module Part {
  import opened DHash
  import opened HashCode
  import opened Options

  // ----- The stores that a driver makes -----

  // The number of partitions so far: all indices up to the greatest used one.
  function Cells<V>(log: Log<V>): (n: nat)
    ensures n <= 0x8000_0000
  {
    if log == [] then 0 else MaxOf(log) + 1
  }

  // What a negative index is added to: part adds the number of partitions, so that -1 is
  // the last one; part_dhash adds the greatest key.
  function Top<V>(live: bool, log: Log<V>): nat {
    if live then Cells(log) else MaxOf(log)
  }

  // The stores for a list of indices; None if one is refused.
  function Assigned<V>(live: bool, idx: seq<CInt>, args: seq<V>): Option<Log<V>>
    requires |idx| == |args|
  {
    var n := |idx| - 1;
    if n < 0 then Some([])
    else AssignOne(live, Assigned(live, idx[..n], args[..n]), idx[n], args[n])
  }

  function AssignOne<V>(live: bool, sofar: Option<Log<V>>, k: CInt, v: V): Option<Log<V>> {
    match sofar
    case None => None
    case Some(log) =>
      var key := if k < 0 then k + Top(live, log) else k;
      if key < 0 then None else Some(log + [(key, v)])
  }

  lemma AssignedStep<V>(live: bool, idx: seq<CInt>, args: seq<V>, i: nat)
    requires |idx| == |args| && i < |idx|
    ensures Assigned(live, idx[..i + 1], args[..i + 1])
         == AssignOne(live, Assigned(live, idx[..i], args[..i]), idx[i], args[i])
  {
    assert idx[..i + 1][..i] == idx[..i] && args[..i + 1][..i] == args[..i];
  }

  lemma AssignedSnoc<V>(live: bool, idx: seq<CInt>, args: seq<V>, k: CInt, v: V)
    requires |idx| == |args|
    ensures Assigned(live, idx + [k], args + [v]) == AssignOne(live, Assigned(live, idx, args), k, v)
  {
    assert (idx + [k])[..|idx|] == idx && (args + [v])[..|args|] == args;
  }

  predicate NoNegativeIndex(idx: seq<CInt>) {
    forall i :: 0 <= i < |idx| ==> 0 <= idx[i]
  }

  lemma {:induction false} AssignedStaysNone<V>(live: bool, idx: seq<CInt>, args: seq<V>, i: nat)
    requires |idx| == |args| && i <= |idx|
    requires Assigned(live, idx[..i], args[..i]).None?
    ensures Assigned(live, idx, args).None?
  {
    var n := |idx| - 1;
    if i == |idx| {
      assert idx[..i] == idx && args[..i] == args;
    } else {
      assert idx[..n][..i] == idx[..i] && args[..n][..i] == args[..i];
      AssignedStaysNone(live, idx[..n], args[..n], i);
    }
  }

  lemma {:induction false} AssignedKeys<V>(live: bool, idx: seq<CInt>, args: seq<V>)
    requires |idx| == |args| && Assigned(live, idx, args).Some?
    ensures var log := Assigned(live, idx, args).value; |log| == |idx| && NoNegativeKey(log)
  {
    var n := |idx| - 1;
    if 0 <= n {
      AssignedKeys(live, idx[..n], args[..n]);
    }
  }

  // What a driver returns for its stores: one cell per partition, which is the list of
  // arguments sent there, in order, or undef.
  function Parts<V>(log: Log<V>): seq<Option<seq<V>>> {
    seq(Cells(log), k => Cell(log, k))
  }

  function Cell<V>(log: Log<V>, k: int): Option<seq<V>> {
    var vs := ValuesOf(log, k);
    if |vs| == 0 then None else Some(vs)
  }

  function Outcome<V>(live: bool, idx: seq<CInt>, args: seq<V>): Option<seq<Option<seq<V>>>>
    requires |idx| == |args|
  {
    match Assigned(live, idx, args)
    case None => None
    case Some(log) => Some(Parts(log))
  }

  // ----- part -----

  // One more store, on the cells.
  function Put<V>(st: seq<Option<seq<V>>>, key: nat, v: V): seq<Option<seq<V>>> {
    var grown := st + seq(if key < |st| then 0 else key + 1 - |st|, _ => None);
    grown[key := Some((if grown[key].Some? then grown[key].value else []) + [v])]
  }

  lemma PutNext<V>(st: seq<Option<seq<V>>>, v: V)
    ensures Put(st, |st|, v) == st + [Some([v])]
  {
    var grown := st + seq(1, _ => None);
    assert grown[|st|] == None;
    assert [] + [v] == [v];
    assert Put(st, |st|, v) == grown[|st| := Some([v])];
  }

  lemma PutAt<V>(st: seq<Option<seq<V>>>, key: nat, v: V)
    requires key < |st| && st[key].Some?
    ensures Put(st, key, v) == st[key := Some(st[key].value + [v])]
  {}

  lemma CellExtend<V>(log: Log<V>, key: CInt, v: V, k: int)
    ensures Cell(log + [(key, v)], k) == if k == key then Some(ValuesOf(log, k) + [v]) else Cell(log, k)
  {
    ValuesOfExtend(log, key, v, k);
    assert ValuesOf(log, k) + [] == ValuesOf(log, k);
  }

  lemma CellsExtend<V>(log: Log<V>, key: CInt, v: V)
    requires 0 <= key
    ensures Cells(log + [(key, v)]) == if key < Cells(log) then Cells(log) else key + 1
    ensures MaxOf(log + [(key, v)]) == if key > MaxOf(log) then key else MaxOf(log)
  {
    assert (log + [(key, v)])[..|log|] == log;
  }

  lemma PartsStep<V>(log: Log<V>, key: CInt, v: V)
    requires 0 <= key && NoNegativeKey(log)
    ensures Parts(log + [(key, v)]) == Put(Parts(log), key, v)
  {
    hide ValuesOf, MaxOf;
    var log' := log + [(key, v)];
    CellsExtend(log, key, v);
    assert |Parts(log')| == |Put(Parts(log), key, v)|;
    forall k | 0 <= k < Cells(log')
      ensures Parts(log')[k] == Put(Parts(log), key, v)[k]
    {
      hide Cells;
      CellExtend(log, key, v, k);
      if Cells(log) <= k {
        BeyondCells(log, k);
      }
    }
  }

  lemma BeyondCells<V>(log: Log<V>, k: int)
    requires NoNegativeKey(log) && !(0 <= k < Cells(log))
    ensures ValuesOf(log, k) == []
  {
    KeyWasStored(log, k);
    MaxOfIsMax(log, MaxOf(log));
  }

  lemma NoStores<V>(live: bool)
    ensures Parts<V>([]) == [] && Assigned<V>(live, [], []) == Some([])
  {}

  lemma CellCount<V>(log: Log<V>)
    ensures |Parts(log)| == Cells(log)
  {}

  // Renew and Zero: the cells up to last, and empty ones after them.
  method Grow<V>(tmp: array<Option<seq<V>>>, last: nat) returns (a: array<Option<seq<V>>>)
    requires tmp.Length < last
    ensures fresh(a) && a[..] == tmp[..] + seq(last - tmp.Length, _ => None)
  {
    a := new Option<seq<V>>[last](i requires 0 <= i < last reads tmp => if i < tmp.Length then tmp[i] else None);
  }

  method Part<V(==)>(idx: seq<CInt>, args: seq<V>) returns (r: Option<seq<Option<seq<V>>>>)
    requires |idx| == |args|
    ensures r == Outcome(true, idx, args)
  {
    hide ValuesOf, MaxOf, Parts, Assigned, Cells;
    ghost var log: Log<V> := [];
    NoStores<V>(true);
    var tmp := new Option<seq<V>>[0];
    for i := 0 to |args|
      invariant fresh(tmp) && tmp[..] == Parts(log) && NoNegativeKey(log)
      invariant Assigned(true, idx[..i], args[..i]) == Some(log)
    {
      AssignedStep(true, idx, args, i);
      CellCount(log);
      var k := idx[i];
      if k < 0 {
        k := k + tmp.Length;
        if k < 0 {
          AssignedStaysNone(true, idx, args, i + 1);
          return None;
        }
      }
      PartsStep(log, k, args[i]);
      if k >= tmp.Length {
        tmp := Grow(tmp, k + 1);
      }
      if tmp[k].None? {
        tmp[k] := Some([]);
      }
      tmp[k] := Some(tmp[k].value + [args[i]]);
      log := log + [(k, args[i])];
    }
    assert idx[..|idx|] == idx && args[..|args|] == args;
    r := Some(tmp[..]);
  }

  // ----- part_dhash -----

  // The store loop of part_dhash; ok is false where it croaks.
  method StoreAll<V(==)>(h: Table<V>, idx: seq<CInt>, args: seq<V>) returns (ok: bool)
    requires |idx| == |args| && h.Valid() && h.log == []
    modifies h, h.ary
    ensures h.Valid() && (h.ary == old(h.ary) || fresh(h.ary))
    ensures Assigned(false, idx, args) == if ok then Some(h.log) else None
  {
    hide NoGap, Represents, IsMax, Used;
    for i := 0 to |args|
      invariant h.Valid() && (h.ary == old(h.ary) || fresh(h.ary))
      invariant Assigned(false, idx[..i], args[..i]) == Some(h.log)
    {
      AssignedStep(false, idx, args, i);
      MaxOfIsMax(h.log, h.max);
      var k := idx[i];
      if k < 0 {
        k := k + h.max;
        if k < 0 {
          AssignedStaysNone(false, idx, args, i + 1);
          return false;
        }
      }
      h.Store(k, args[i]);
    }
    assert idx[..|idx|] == idx && args[..|args|] == args;
    return true;
  }

  lemma NoNegativeIsComparable<V>(log: Log<V>)
    requires NoNegativeKey(log)
    ensures Comparable(log)
  {}

  method PartDhash<V(==)>(idx: seq<CInt>, args: seq<V>) returns (r: Option<seq<Option<seq<V>>>>)
    requires |idx| == |args|
    ensures r == Outcome(false, idx, args)
  {
    hide NoGap, Represents, IsMax, Used, Assigned, Parts, ValuesOf, Ranked, Comparable, NoNegativeKey, MaxOf;
    NoStores<V>(false);
    var h := new Table<V>(KeyHash);
    if |args| == 0 {
      return Some([]);
    }
    var ok := StoreAll(h, idx, args);
    if !ok {
      return None;
    }
    AssignedKeys(false, idx, args);
    NoNegativeIsComparable(h.log);
    MaxOfIsMax(h.log, h.max);
    h.SortFinal();
    var st := Spread(h.ary, h.count, h.max, h.log);
    r := Some(st);
  }

  method FillUndef<V>(a: array<Option<V>>, retidx: int, fill: int)
    requires 0 <= retidx - fill <= retidx <= a.Length
    modifies a
    ensures forall k :: retidx - fill <= k < retidx ==> a[k] == None
    ensures forall k :: 0 <= k < a.Length && !(retidx - fill <= k < retidx) ==> a[k] == old(a[k])
  {
    for j := 0 to fill
      invariant forall k :: retidx - j <= k < retidx ==> a[k] == None
      invariant forall k :: 0 <= k < a.Length && !(retidx - j <= k < retidx) ==> a[k] == old(a[k])
    {
      a[retidx - j - 1] := None;
    }
  }

  // The first n cells are final.
  ghost predicate Placed<V>(st: seq<Option<seq<V>>>, n: int, log: Log<V>) {
    0 <= n <= |st| && forall k :: 0 <= k < n ==> st[k] == Cell(log, k)
  }

  // The state of the output loop before its i-th iteration.
  ghost predicate Spreading<V>(s: seq<Slot<V>>, n: int, log: Log<V>, i: nat, lastidx: int, st: seq<Option<seq<V>>>) {
    && Ranked(s, n, log) && i <= n
    && log != [] && NoNegativeKey(log)
    && lastidx == (if i == 0 then -1 else s[i - 1].key)
    && |st| == MaxOf(log) + 1
    && Placed(st, lastidx + 1, log)
  }

  lemma SpreadDone<V>(s: seq<Slot<V>>, n: int, log: Log<V>, lastidx: int, st: seq<Option<seq<V>>>)
    requires 0 <= n && Spreading(s, n, log, n, lastidx, st)
    ensures st == Parts(log)
  {
    RankedMax(s, n, log);
  }

  // One iteration of the output loop.
  method SpreadOne<V>(a: array<Option<seq<V>>>, e: Slot<V>, lastidx: int,
                      ghost s: seq<Slot<V>>, ghost n: int, ghost log: Log<V>, ghost i: nat)
    returns (retidx: int)
    requires Spreading(s, n, log, i, lastidx, a[..]) && i < n && e == s[i]
    modifies a
    ensures Spreading(s, n, log, i + 1, retidx, a[..])
  {
    RankedKey(s, n, log, i);
    retidx := e.key;
    forall k | lastidx < k < retidx
      ensures Cell(log, k) == None
    {
      RankedGap(s, n, log, i, k);
    }
    FillUndef(a, retidx, retidx - lastidx - 1);
    a[retidx] := Some(e.vals);
  }

  // The output loop of part_dhash: undef is filled in between consecutive keys.
  method Spread<V>(ary: array<Slot<V>>, count: int, max: int, ghost log: Log<V>) returns (st: seq<Option<seq<V>>>)
    requires Ranked(ary[..], count, log)
    requires log != [] && max == MaxOf(log) && NoNegativeKey(log)
    ensures st == Parts(log)
  {
    hide ValuesOf, Cell, Parts, HasKey;
    ghost var s := ary[..];
    var a := new Option<seq<V>>[max + 1];
    var i, lastidx := 0, -1;
    while i < count
      invariant 0 <= i <= count && ary[..] == s
      invariant Spreading(s, count, log, i, lastidx, a[..])
    {
      lastidx := SpreadOne(a, ary[i], lastidx, s, count, log, i);
      i := i + 1;
    }
    SpreadDone(s, count, log, lastidx, a[..]);
    st := a[..];
  }
}
