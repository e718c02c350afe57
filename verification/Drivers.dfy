// Where part and part_dhash agree.
module Drivers {
  import opened DHash
  import opened HashCode
  import opened Options
  import opened Part

  function KeySum<V>(log: Log<V>): int {
    if log == [] then 0 else KeySum(log[..|log| - 1]) + log[|log| - 1].0
  }

  // The stores of part_dhash lie at or below those of part.
  ghost predicate Below<V>(a: Log<V>, b: Log<V>) {
    MaxOf(a) <= MaxOf(b) && KeySum(a) <= KeySum(b) && |a| == |b|
  }

  lemma StepBelow<V>(a: Log<V>, b: Log<V>, k: CInt, v: V)
    requires Below(a, b)
    ensures var x, y := AssignOne(false, Some(a), k, v), AssignOne(true, Some(b), k, v);
            && (y.None? ==> x.None?)
            && (x.Some? ==> Below(x.value, y.value)
                            && (KeySum(a) < KeySum(b) || k < 0 ==> KeySum(x.value) < KeySum(y.value)))
  {
    var x, y := AssignOne(false, Some(a), k, v), AssignOne(true, Some(b), k, v);
    if x.Some? {
      assert x.value[..|a|] == a;
      assert y.value[..|b|] == b;
    }
  }

  // A negative index that part accepts takes part_dhash to a smaller sum of keys, or to a
  // refusal; without one the stores are the same.
  lemma {:induction false} SumsPart<V>(idx: seq<CInt>, args: seq<V>)
    requires |idx| == |args|
    ensures var x, y := Assigned(false, idx, args), Assigned(true, idx, args);
            && (y.None? ==> x.None?)
            && (x.Some? ==> Below(x.value, y.value) && (!NoNegativeIndex(idx) ==> KeySum(x.value) < KeySum(y.value)))
  {
    var n := |idx| - 1;
    if 0 <= n {
      SumsPart(idx[..n], args[..n]);
      var x, y := Assigned(false, idx[..n], args[..n]), Assigned(true, idx[..n], args[..n]);
      if x.Some? {
        StepBelow(x.value, y.value, idx[n], args[n]);
      }
      if NoNegativeIndex(idx[..n]) && 0 <= idx[n] {
        assert idx == idx[..n] + [idx[n]];
      }
    }
  }

  lemma {:induction false} SameStores<V>(idx: seq<CInt>, args: seq<V>)
    requires |idx| == |args| && NoNegativeIndex(idx)
    ensures Assigned(false, idx, args) == Assigned(true, idx, args)
  {
    var n := |idx| - 1;
    if 0 <= n {
      SameStores(idx[..n], args[..n]);
    }
  }

  // The sum of the keys, told from the lists.
  function CellSum<V>(log: Log<V>, n: nat): int {
    if n == 0 then 0 else CellSum(log, n - 1) + (n - 1) * |ValuesOf(log, n - 1)|
  }

  lemma OneMoreValue(k: nat, l: nat)
    ensures k * (l + 1) == k * l + k
  {}

  lemma {:induction false} CellSumExtend<V>(log: Log<V>, key: CInt, v: V, n: nat)
    requires 0 <= key
    ensures CellSum(log + [(key, v)], n) == CellSum(log, n) + if key < n then key else 0
  {
    if 0 < n {
      CellSumExtend(log, key, v, n - 1);
      hide ValuesOf;
      ValuesOfExtend(log, key, v, n - 1);
      OneMoreValue(n - 1, |ValuesOf(log, n - 1)|);
    }
  }

  lemma {:induction false} CellSumIsKeySum<V>(log: Log<V>, n: nat)
    requires NoNegativeKey(log) && Cells(log) <= n
    ensures CellSum(log, n) == KeySum(log)
  {
    if log == [] {
      NoKeysNoSum<V>(n);
    } else {
      var init, last := log[..|log| - 1], log[|log| - 1];
      assert log == init + [last];
      assert last in log;
      CellSumIsKeySum(init, n);
      CellSumExtend(init, last.0, last.1, n);
    }
  }

  lemma {:induction false} NoKeysNoSum<V>(n: nat)
    ensures CellSum<V>([], n) == 0
  {
    if 0 < n {
      NoKeysNoSum<V>(n - 1);
    }
  }

  lemma {:induction false} SameCellSum<V>(a: Log<V>, b: Log<V>, n: nat)
    requires n <= Cells(a) && Parts(a) == Parts(b)
    ensures CellSum(a, n) == CellSum(b, n)
  {
    if 0 < n {
      SameCellSum(a, b, n - 1);
      assert Parts(a)[n - 1] == Cell(a, n - 1);
      assert Parts(b)[n - 1] == Cell(b, n - 1);
    }
  }

  lemma SamePartsSameSum<V>(a: Log<V>, b: Log<V>)
    requires NoNegativeKey(a) && NoNegativeKey(b) && Parts(a) == Parts(b)
    ensures KeySum(a) == KeySum(b)
  {
    var n := Cells(a);
    assert |Parts(a)| == n && |Parts(b)| == Cells(b);
    SameCellSum(a, b, n);
    CellSumIsKeySum(a, n);
    CellSumIsKeySum(b, n);
  }

  // part_dhash returns what part returns if and only if no index is negative, or part
  // refuses one.
  lemma DriversAgreeExactly<V>(idx: seq<CInt>, args: seq<V>)
    requires |idx| == |args|
    ensures Outcome(false, idx, args) == Outcome(true, idx, args)
      <==> NoNegativeIndex(idx) || Outcome(true, idx, args).None?
  {
    SumsPart(idx, args);
    if NoNegativeIndex(idx) {
      SameStores(idx, args);
    } else if Assigned(false, idx, args).Some? {
      AssignedKeys(false, idx, args);
      AssignedKeys(true, idx, args);
      var a, b := Assigned(false, idx, args).value, Assigned(true, idx, args).value;
      if Parts(a) == Parts(b) {
        SamePartsSameSum(a, b);
      }
    }
  }

  lemma OneStore<V>(live: bool, a: V)
    ensures Assigned(live, [0], [a]) == Some([(0, a)]) && Parts([(0, a)]) == [Some([a])]
    ensures Top(live, [(0, a)]) == if live then 1 else 0
  {
    AssignedSnoc(live, [], [], 0, a);
    assert [] + [0 as CInt] == [0 as CInt] && [] + [a] == [a];
    var log: Log<V> := [(0, a)];
    assert [] + [(0 as CInt, a)] == log;
    CellsExtend([], 0, a);
    PartsStep([], 0, a);
    assert Parts<V>([]) == [];
  }

  lemma TwoStores<V>(live: bool, a: V, b: V)
    ensures Assigned(live, [0, 1], [a, b]) == Some([(0, a), (1, b)]) && Parts([(0, a), (1, b)]) == [Some([a]), Some([b])]
    ensures Top(live, [(0, a), (1, b)]) == if live then 2 else 1
  {
    hide Assigned, Parts, MaxOf;
    OneStore(live, a);
    AssignedSnoc(live, [0], [a], 1, b);
    assert [0 as CInt] + [1] == [0 as CInt, 1] && [a] + [b] == [a, b];
    var log: Log<V> := [(0, a)];
    assert log + [(1, b)] == [(0, a), (1, b)];
    OneStore(false, a);
    CellsExtend(log, 1, b);
    PartsStep(log, 1, b);
    PutNext(Parts(log), b);
  }

  lemma ThreeStores<V>(live: bool, a: V, b: V, c: V)
    ensures Outcome(live, [0, 1, -1], [a, b, c])
         == Some(if live then [Some([a]), Some([b, c])] else [Some([a, c]), Some([b])])
  {
    hide Assigned, Parts, MaxOf, Top;
    TwoStores(live, a, b);
    AssignedSnoc(live, [0, 1], [a, b], -1, c);
    assert [0 as CInt, 1] + [-1] == [0 as CInt, 1, -1] && [a, b] + [c] == [a, b, c];
    var key: CInt, log: Log<V> := if live then 1 else 0, [(0, a), (1, b)];
    assert Assigned(live, [0, 1, -1], [a, b, c]) == Some(log + [(key, c)]);
    PartsStep(log, key, c);
    PutAt([Some([a]), Some([b])], key, c);
    assert [a] + [c] == [a, c] && [b] + [c] == [b, c];
    if live {
      assert Parts(log + [(key, c)]) == [Some([a]), Some([b, c])];
    } else {
      assert Parts(log + [(key, c)]) == [Some([a, c]), Some([b])];
    }
  }

  // The example of the documentation: -1 is the last partition for part only.
  lemma MinusOneDiffers<V>(a: V, b: V, c: V)
    ensures Outcome(true, [0, 1, -1], [a, b, c]) == Some([Some([a]), Some([b, c])])
    ensures Outcome(false, [0, 1, -1], [a, b, c]) == Some([Some([a, c]), Some([b])])
  {
    hide Outcome;
    ThreeStores(true, a, b, c);
    ThreeStores(false, a, b, c);
  }

  // -1 after one partition: part takes the last one, part_dhash refuses.
  lemma MinusOneRefused<V>(a: V, b: V)
    ensures Outcome(true, [0, -1], [a, b]) == Some([Some([a, b])])
    ensures Outcome(false, [0, -1], [a, b]) == None
  {
    hide Assigned, Parts, MaxOf, Top;
    OneStore(true, a);
    OneStore(false, a);
    AssignedSnoc(true, [0], [a], -1, b);
    AssignedSnoc(false, [0], [a], -1, b);
    assert [0 as CInt] + [-1] == [0 as CInt, -1] && [a] + [b] == [a, b];
    PartsStep([(0, a)], 0, b);
    PutAt([Some([a])], 0, b);
    assert [a] + [b] == [a, b];
    assert Parts([(0, a)] + [(0, b)]) == [Some([a, b])];
  }
}
