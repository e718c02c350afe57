// What the drivers of part() return, told from the indices and arguments alone.
module Partition {
  import opened DHash
  import opened HashCode
  import opened Options
  import opened Part

  // The arguments whose index is k, in order.
  function Sent<V>(idx: seq<CInt>, args: seq<V>, k: int): seq<V>
    requires |idx| == |args|
  {
    if idx == [] then []
    else (if idx[0] == k then [args[0]] else []) + Sent(idx[1..], args[1..], k)
  }

  lemma {:induction false} SentSnoc<V>(idx: seq<CInt>, args: seq<V>, i: CInt, v: V, k: int)
    requires |idx| == |args|
    ensures Sent(idx + [i], args + [v], k) == Sent(idx, args, k) + if i == k then [v] else []
  {
    if idx == [] {
      assert idx + [i] == [i] && args + [v] == [v];
      assert [i][1..] == [] && [v][1..] == [];
    } else {
      assert (idx + [i])[1..] == idx[1..] + [i] && (args + [v])[1..] == args[1..] + [v];
      SentSnoc(idx[1..], args[1..], i, v, k);
    }
  }

  // The number of cells for these indices: one more than the greatest, or none.
  ghost predicate IsCellCount(idx: seq<CInt>, n: int) {
    && (idx == [] ==> n == 0)
    && (idx != [] ==> exists i :: 0 <= i < |idx| && idx[i] == n - 1)
    && (forall i :: 0 <= i < |idx| ==> idx[i] < n)
  }

  // What the result of either driver is to be, told from the indices and arguments alone.
  ghost predicate IsPartition<V>(idx: seq<CInt>, args: seq<V>, st: seq<Option<seq<V>>>)
    requires |idx| == |args|
  {
    && IsCellCount(idx, |st|)
    && forall k :: 0 <= k < |st| ==> st[k] == if Sent(idx, args, k) == [] then None else Some(Sent(idx, args, k))
  }

  lemma FirstOnes(idx: seq<CInt>, n: nat)
    requires n < |idx| && NoNegativeIndex(idx)
    ensures NoNegativeIndex(idx[..n]) && 0 <= idx[n]
  {}

  // The stores of a driver say where the indices send the arguments, for key k.
  ghost predicate Says<V>(sofar: Option<Log<V>>, idx: seq<CInt>, args: seq<V>, k: int)
    requires |idx| == |args|
  {
    && sofar.Some?
    && ValuesOf(sofar.value, k) == Sent(idx, args, k)
    && IsCellCount(idx, Cells(sofar.value))
  }

  lemma SaysOneMore<V>(live: bool, idx: seq<CInt>, args: seq<V>, i: CInt, v: V, k: int)
    requires |idx| == |args| && 0 <= i && Says(Assigned(live, idx, args), idx, args, k)
    ensures Says(Assigned(live, idx + [i], args + [v]), idx + [i], args + [v], k)
  {
    hide Assigned, Sent, ValuesOf, Cells, MaxOf, IsCellCount;
    var log := Assigned(live, idx, args).value;
    AssignedSnoc(live, idx, args, i, v);
    ValuesOfExtend(log, i, v, k);
    SentSnoc(idx, args, i, v, k);
    CellsExtend(log, i, v);
    CountExtends(idx, Cells(log), i);
  }

  lemma {:induction false} LogSays<V>(live: bool, idx: seq<CInt>, args: seq<V>, k: int)
    requires |idx| == |args| && NoNegativeIndex(idx)
    ensures Says(Assigned(live, idx, args), idx, args, k)
  {
    var n := |idx| - 1;
    if 0 <= n {
      hide Assigned, Says, NoNegativeIndex;
      FirstOnes(idx, n);
      LogSays(live, idx[..n], args[..n], k);
      SaysOneMore(live, idx[..n], args[..n], idx[n], args[n], k);
      assert idx == idx[..n] + [idx[n]] && args == args[..n] + [args[n]];
    }
  }

  lemma CountExtends(idx: seq<CInt>, n: nat, i: CInt)
    requires IsCellCount(idx, n) && 0 <= i
    ensures IsCellCount(idx + [i], if i < n then n else i + 1)
  {
    var idx' := idx + [i];
    assert idx'[|idx|] == i;
    if i < n && idx != [] {
      var j :| 0 <= j < |idx| && idx[j] == n - 1;
      assert idx'[j] == n - 1;
    }
  }

  // Without negative indices both drivers return one cell more than the greatest index,
  // and cell k holds exactly the arguments whose index is k, in order, or undef.
  lemma ResultIsPartition<V>(live: bool, idx: seq<CInt>, args: seq<V>)
    requires |idx| == |args| && NoNegativeIndex(idx)
    ensures Outcome(live, idx, args).Some? && IsPartition(idx, args, Outcome(live, idx, args).value)
  {
    LogSays(live, idx, args, 0);
    var log := Assigned(live, idx, args).value;
    forall k | 0 <= k < Cells(log)
      ensures Parts(log)[k] == if Sent(idx, args, k) == [] then None else Some(Sent(idx, args, k))
    {
      LogSays(live, idx, args, k);
    }
  }

  // What the last argument adds to the cells st: its list gets it at the end.
  ghost predicate Appended<V>(st: seq<Option<seq<V>>>, key: int, v: V, st': seq<Option<seq<V>>>) {
    && 0 <= key < |st'| && |st'| == (if key < |st| then |st| else key + 1)
    && (forall k :: 0 <= k < |st'| && k != key ==> st'[k] == if k < |st| then st[k] else None)
    && st'[key] == Some((if key < |st| && st[key].Some? then st[key].value else []) + [v])
  }

  // The cell of one more argument with index k, after n cells: cell k; for a negative k,
  // part counts back from n, and part_dhash from the greatest index used, which is n - 1.
  function CellOf(live: bool, n: nat, k: CInt): int {
    if k >= 0 then k else if live then k + n else if n == 0 then k else k + (n - 1)
  }

  // The last argument is refused exactly if that cell is below 0, and otherwise appended
  // there; after a refusal there is no result any more.
  lemma LastArgument<V>(live: bool, idx: seq<CInt>, args: seq<V>, k: CInt, v: V)
    requires |idx| == |args|
    ensures Outcome(live, idx, args).None? ==> Outcome(live, idx + [k], args + [v]).None?
    ensures Outcome(live, idx, args).Some? ==>
              var st, r := Outcome(live, idx, args).value, Outcome(live, idx + [k], args + [v]);
              var key := CellOf(live, |st|, k);
              (r.None? <==> key < 0) && (r.Some? ==> Appended(st, key, v, r.value))
  {
    hide Assigned, Parts, MaxOf;
    AssignedSnoc(live, idx, args, k, v);
    if Assigned(live, idx, args).Some? {
      var log := Assigned(live, idx, args).value;
      AssignedKeys(live, idx, args);
      CellCount(log);
      NoStores<V>(live);
      EmptyMax<V>();
      var key := if k < 0 then k + Top(live, log) else k;
      if 0 <= key {
        PartsStep(log, key, v);
      }
    }
  }

  lemma EmptyMax<V>()
    ensures MaxOf<V>([]) == 0
  {}
}
