// The store-only hash table that was written for part(): List-MoreUtils/dhash.h.
module DHash {
  import opened HashCode
  import opened Options

  // An empty bucket is one whose val pointer is null.
  datatype Slot<V> = Empty | Full(key: CInt, vals: seq<V>)

  type Log<V> = seq<(CInt, V)>

  // ----- What a sequence of stores means -----

  // The values stored under key k, in store order.
  function ValuesOf<V>(log: Log<V>, k: int): seq<V> {
    if log == [] then []
    else
      var (key, v) := log[|log| - 1];
      ValuesOf(log[..|log| - 1], k) + if key == k then [v] else []
  }

  lemma ValuesOfExtend<V>(log: Log<V>, key: CInt, v: V, k: int)
    ensures ValuesOf(log + [(key, v)], k) == ValuesOf(log, k) + if key == k then [v] else []
  {}

  lemma {:induction false} KeyWasStored<V>(log: Log<V>, k: int)
    ensures ValuesOf(log, k) != [] <==> exists e :: e in log && e.0 == k
  {
    if log != [] {
      var init, last := log[..|log| - 1], log[|log| - 1];
      assert log == init + [last];
      KeyWasStored(init, k);
    }
  }

  // max is the larger of 0 and the greatest key.
  ghost predicate IsMax<V>(log: Log<V>, max: int) {
    && 0 <= max
    && (forall e :: e in log ==> e.0 <= max)
    && (max == 0 || exists e :: e in log && e.0 == max)
  }

  function MaxOf<V>(log: Log<V>): (m: int)
    ensures 0 <= m < 0x8000_0000
  {
    if log == [] then 0
    else
      var m := MaxOf(log[..|log| - 1]);
      if log[|log| - 1].0 > m then log[|log| - 1].0 else m
  }

  lemma {:induction false} MaxOfIsMax<V>(log: Log<V>, max: int)
    ensures IsMax(log, max) <==> max == MaxOf(log)
  {
    if log != [] {
      var init := log[..|log| - 1];
      assert log == init + [log[|log| - 1]];
      MaxOfIsMax(init, MaxOf(init));
      assert log[|log| - 1] in log;
    }
  }

  // ----- Tables as sequences of slots -----

  ghost predicate HasKey<V>(s: seq<Slot<V>>, k: int) {
    exists i :: 0 <= i < |s| && s[i].Full? && s[i].key == k
  }

  ghost predicate UniqueKeys<V>(s: seq<Slot<V>>) {
    forall i, j :: 0 <= i < j < |s| && s[i].Full? && s[j].Full? ==> s[i].key != s[j].key
  }

  // x lies in the cyclic half-open interval [from, to).
  predicate InArc(from: nat, to: nat, x: nat) {
    if from <= to then from <= x < to else from <= x || x < to
  }

  // One probing step.
  function Next(hash: nat, size: nat): (h: nat)
    requires hash < size
    ensures h == if hash + 1 == size then 0 else hash + 1
  {
    if hash + 1 == size then assert (hash + 1) % size == 0; (hash + 1) % size else (hash + 1) % size
  }

  // Every occupied slot is reached by probing from its key's home with no gap.
  ghost predicate NoGap<V>(hash: Hasher, s: seq<Slot<V>>) {
    forall i, x :: 0 <= i < |s| && 0 <= x < |s| && s[i].Full? && InArc(Home(hash, s[i].key, |s|), i, x)
      ==> s[x].Full?
  }

  // The number of occupied slots.
  ghost function Used<V>(s: seq<Slot<V>>): int {
    |s| - multiset(s)[Empty]
  }

  // s holds exactly the lists that log describes, one slot per key.
  ghost predicate Represents<V>(s: seq<Slot<V>>, log: Log<V>) {
    && UniqueKeys(s)
    && (forall i :: 0 <= i < |s| && s[i].Full? ==> s[i].vals == ValuesOf(log, s[i].key) != [])
    && (forall k :: ValuesOf(log, k) != [] ==> HasKey(s, k))
  }

  lemma FreeSlot<V>(s: seq<Slot<V>>)
    requires Used(s) < |s|
    ensures exists f :: 0 <= f < |s| && s[f].Empty?
  {}

  // h is where probing for key stops.
  ghost predicate ProbeStops<V>(hash: Hasher, s: seq<Slot<V>>, key: CInt, h: nat)
    requires 0 < |s|
  {
    && h < |s|
    && (s[h].Full? ==> s[h].key == key)
    && (forall x :: 0 <= x < |s| && InArc(Home(hash, key, |s|), h, x) ==> s[x].Full? && s[x].key != key)
  }

  // Probing is a correct search: it stops on an empty slot only if the key is absent.
  lemma ProbeDecides<V>(hash: Hasher, s: seq<Slot<V>>, key: CInt, h: nat)
    requires 0 < |s| && NoGap(hash, s) && ProbeStops(hash, s, key, h)
    ensures s[h].Full? <==> HasKey(s, key)
  {}

  lemma ClaimKeepsNoGap<V>(hash: Hasher, s: seq<Slot<V>>, e: Slot<V>, h: nat)
    requires 0 < |s| && NoGap(hash, s) && e.Full? && h < |s|
    requires s[h].Full? ==> s[h].key == e.key
    requires forall x :: 0 <= x < |s| && InArc(Home(hash, e.key, |s|), h, x) ==> s[x].Full?
    ensures NoGap(hash, s[h := e])
  {}

  lemma ClaimCounts<V>(s: seq<Slot<V>>, e: Slot<V>, h: nat)
    requires h < |s| && e.Full?
    ensures Used(s[h := e]) == Used(s) + if s[h].Empty? then 1 else 0
  {}

  lemma StoreRepresents<V>(hash: Hasher, s: seq<Slot<V>>, log: Log<V>, key: CInt, v: V, h: nat)
    requires 0 < |s| && NoGap(hash, s) && Represents(s, log) && ProbeStops(hash, s, key, h)
    ensures Represents(s[h := Full(key, (if s[h].Full? then s[h].vals else []) + [v])], log + [(key, v)])
  {
    var t := s[h := Full(key, (if s[h].Full? then s[h].vals else []) + [v])];
    var log' := log + [(key, v)];
    ProbeDecides(hash, s, key, h);
    forall i | 0 <= i < |t| && t[i].Full?
      ensures t[i].vals == ValuesOf(log', t[i].key) != []
    {
      ValuesOfExtend(log, key, v, t[i].key);
      if i == h && s[h].Empty? {
        assert ValuesOf(log, key) == [];
      }
    }
    forall k | ValuesOf(log', k) != []
      ensures HasKey(t, k)
    {
      ValuesOfExtend(log, key, v, k);
      if k == key {
        assert t[h].key == k;
      } else {
        var i :| 0 <= i < |s| && s[i].Full? && s[i].key == k;
        assert t[i] == s[i];
      }
    }
  }

  // The values that the slots of s should hold, counted over the whole table.
  function Stored<V>(s: seq<Slot<V>>): nat {
    if s == [] then 0
    else Stored(s[..|s| - 1]) + match s[|s| - 1] case Empty => 0 case Full(_, vals) => |vals|
  }

  function Owed<V>(s: seq<Slot<V>>, log: Log<V>): nat {
    if s == [] then 0
    else Owed(s[..|s| - 1], log) + match s[|s| - 1] case Empty => 0 case Full(key, _) => |ValuesOf(log, key)|
  }

  lemma HasKeySnoc<V>(init: seq<Slot<V>>, last: Slot<V>, k: int)
    ensures HasKey(init + [last], k) <==> HasKey(init, k) || (last.Full? && last.key == k)
  {
    var s := init + [last];
    assert s[|init|] == last;
    if HasKey(init, k) {
      var i :| 0 <= i < |init| && init[i].Full? && init[i].key == k;
      assert s[i] == init[i];
    }
  }

  lemma {:induction false} OwedExtend<V>(s: seq<Slot<V>>, log: Log<V>, key: CInt, v: V)
    requires UniqueKeys(s)
    ensures Owed(s, log + [(key, v)]) == Owed(s, log) + if HasKey(s, key) then 1 else 0
  {
    if s != [] {
      var init, last := s[..|s| - 1], s[|s| - 1];
      assert s == init + [last];
      OwedExtend(init, log, key, v);
      HasKeySnoc(init, last, key);
      if last.Full? {
        ValuesOfExtend(log, key, v, last.key);
        LastKeyIsNew(init, last);
      }
      hide HasKey, ValuesOf, UniqueKeys;
    }
  }

  lemma LastKeyIsNew<V>(init: seq<Slot<V>>, last: Slot<V>)
    requires UniqueKeys(init + [last]) && last.Full?
    ensures !HasKey(init, last.key)
  {
    var s := init + [last];
    assert s[|init|] == last;
    assert forall i :: 0 <= i < |init| ==> s[i] == init[i];
  }

  lemma {:induction false} OwedIsLog<V>(s: seq<Slot<V>>, log: Log<V>)
    requires UniqueKeys(s) && forall e :: e in log ==> HasKey(s, e.0)
    ensures Owed(s, log) == |log|
  {
    if log == [] {
      OwedNothing(s);
    } else {
      var init, last := log[..|log| - 1], log[|log| - 1];
      assert log == init + [last];
      OwedIsLog(s, init);
      OwedExtend(s, init, last.0, last.1);
      assert last in log;
    }
  }

  lemma OwedNothing<V>(s: seq<Slot<V>>)
    ensures Owed(s, []) == 0
  {}

  lemma {:induction false} StoredIsOwed<V>(s: seq<Slot<V>>, log: Log<V>)
    requires forall i :: 0 <= i < |s| && s[i].Full? ==> s[i].vals == ValuesOf(log, s[i].key)
    ensures Stored(s) == Owed(s, log)
  {
    if s != [] {
      StoredIsOwed(s[..|s| - 1], log);
    }
  }

  // Nothing is lost or duplicated: the list lengths sum to the number of stores.
  lemma LengthsSumToStores<V>(s: seq<Slot<V>>, log: Log<V>)
    requires Represents(s, log)
    ensures Stored(s) == |log|
  {
    StoredIsOwed(s, log);
    forall e | e in log
      ensures HasKey(s, e.0)
    {
      KeyWasStored(log, e.0);
    }
    OwedIsLog(s, log);
  }

  // ----- Rehashing -----

  ghost predicate SameEntries<V>(s: seq<Slot<V>>, t: seq<Slot<V>>) {
    && (forall e :: e in s && e.Full? ==> e in t)
    && (forall e :: e in t && e.Full? ==> e in s)
  }

  // t holds the occupied slots of s, each once, and can be probed.
  ghost predicate Rehashed<V>(hash: Hasher, s: seq<Slot<V>>, t: seq<Slot<V>>) {
    && UniqueKeys(t)
    && NoGap(hash, t)
    && multiset(t)[Empty] - |t| == multiset(s)[Empty] - |s|
    && SameEntries(s, t)
  }

  lemma AllEmpty<V>(hash: Hasher, t: seq<Slot<V>>)
    requires forall x :: 0 <= x < |t| ==> t[x].Empty?
    ensures Rehashed(hash, [], t)
  {
    if |t| > 0 {
      AllEmpty(hash, t[1..]);
      assert t == [t[0]] + t[1..];
    }
  }

  lemma RehashSkip<V>(hash: Hasher, s: seq<Slot<V>>, i: nat, t: seq<Slot<V>>)
    requires i < |s| && s[i].Empty? && Rehashed(hash, s[..i], t)
    ensures Rehashed(hash, s[..i + 1], t)
  {
    assert s[..i + 1] == s[..i] + [s[i]];
  }

  lemma RehashOne<V>(hash: Hasher, s: seq<Slot<V>>, i: nat, t: seq<Slot<V>>, h: nat)
    requires UniqueKeys(s) && i < |s| && s[i].Full? && Rehashed(hash, s[..i], t)
    requires h < |t| && t[h].Empty?
    requires forall x :: 0 <= x < |t| && InArc(Home(hash, s[i].key, |t|), h, x) ==> t[x].Full?
    ensures Rehashed(hash, s[..i + 1], t[h := s[i]])
  {
    var e := s[i];
    var t' := t[h := e];
    assert s[..i + 1] == s[..i] + [e];
    ClaimKeepsNoGap(hash, t, e, h);
    ClaimCounts(t, e, h);
    forall x | 0 <= x < |t| && t[x].Full?
      ensures t[x].key != e.key
    {
      assert t[x] in s[..i];
    }
    forall f | f in s[..i + 1] && f.Full?
      ensures f in t'
    {
      if f in t && f != e {
        var x :| 0 <= x < |t| && t[x] == f;
        assert t'[x] == f;
      }
      assert t'[h] == e;
    }
  }

  lemma RehashedRepresents<V>(hash: Hasher, s: seq<Slot<V>>, t: seq<Slot<V>>, log: Log<V>)
    requires Rehashed(hash, s, t) && Represents(s, log)
    ensures Represents(t, log)
  {}

  // The search loop of dhash_insert: the key's slot, or the first free one.
  method Probe<V>(hasher: Hasher, ary: array<Slot<V>>, key: CInt, hash: nat) returns (h: nat)
    requires 0 < ary.Length && hash == Home(hasher, key, ary.Length)
    requires Used(ary[..]) < ary.Length
    ensures ProbeStops(hasher, ary[..], key, h)
  {
    FreeSlot(ary[..]);
    ghost var f :| 0 <= f < ary.Length && ary[f].Empty?;
    h := hash;
    while ary[h].Full? && ary[h].key != key
      invariant 0 <= h < ary.Length
      invariant forall x :: 0 <= x < ary.Length && InArc(hash, h, x) ==> ary[x].Full? && ary[x].key != key
      invariant !InArc(hash, h, f)
      decreases if h <= f then f - h else f + ary.Length - h
    {
      h := Next(h, ary.Length);
    }
  }

  // The free slot a rehashed key moves to: keys are not compared.
  method FindFree<V>(hasher: Hasher, ary: array<Slot<V>>, key: CInt) returns (hash: nat)
    requires Used(ary[..]) < ary.Length
    ensures hash < ary.Length && ary[hash].Empty?
    ensures forall x :: 0 <= x < ary.Length && InArc(Home(hasher, key, ary.Length), hash, x) ==> ary[x].Full?
  {
    FreeSlot(ary[..]);
    ghost var f :| 0 <= f < ary.Length && ary[f].Empty?;
    hash := Home(hasher, key, ary.Length);
    ghost var home := hash;
    while ary[hash].Full?
      invariant 0 <= hash < ary.Length
      invariant forall x :: 0 <= x < ary.Length && InArc(home, hash, x) ==> ary[x].Full?
      invariant !InArc(home, hash, f)
      decreases if hash <= f then f - hash else f + ary.Length - hash
    {
      hash := Next(hash, ary.Length);
    }
  }

  // The sizes 4 * 2^k.
  predicate IsTableSize(size: nat): (b: bool)
    ensures b ==> 4 <= size
  {
    size == 4 || (4 < size && size % 2 == 0 && IsTableSize(size / 2))
  }

  lemma DoubledSize(size: nat)
    requires IsTableSize(size)
    ensures IsTableSize(2 * size)
  {}

  // The load test of dhash_store. Every size is a power of two, by which a quotient of
  // ints is exact in double.
  predicate Overloaded(count: int, size: nat)
    requires 0 < size
  {
    count as real / size as real > 0.75
  }

  lemma OverloadedMeans(count: int, size: nat)
    requires 0 < size
    ensures Overloaded(count, size) <==> 4 * count > 3 * size
  {
    var q, n := count as real / size as real, size as real;
    assert q * n == count as real;
    assert q > 0.75 ==> q * n > 0.75 * n;
    assert q <= 0.75 ==> q * n <= 0.75 * n;
  }

  lemma ExtendMax<V>(log: Log<V>, max: int, key: CInt, v: V)
    requires IsMax(log, max)
    ensures IsMax(log + [(key, v)], if key > max then key else max)
  {}

  // ----- The final sort -----

  // int arithmetic as the hardware does it; ISO C leaves overflow undefined.
  function Wrap(x: int): CInt {
    (x + 0x8000_0000) % 0x1_0000_0000 - 0x8000_0000
  }

  // cmp
  function Cmp<V>(a: Slot<V>, b: Slot<V>): CInt {
    if a.Empty? then 1
    else if b.Empty? then -1
    else Wrap(a.key - b.key)
  }

  // cmp orders two keys correctly exactly when their difference is an int.
  lemma CmpOrders<V>(a: Slot<V>, b: Slot<V>)
    requires a.Full? && b.Full?
    ensures (Cmp(a, b) > 0 <==> a.key > b.key) && (Cmp(a, b) < 0 <==> a.key < b.key)
      <==> -0x8000_0000 <= a.key - b.key < 0x8000_0000
  {}

  // The greatest int sorts before -1.
  lemma FarKeysAreMisordered<V>(vs: seq<V>, ws: seq<V>)
    ensures Cmp(Full(0x7FFF_FFFF, vs), Full(-1, ws)) < 0
  {}

  ghost predicate Fits<V>(m: multiset<Slot<V>>) {
    forall a, b :: a in m && b in m && a.Full? && b.Full? ==> -0x8000_0000 <= a.key - b.key < 0x8000_0000
  }

  // What qsort promises for cmp, which answers 1 for two empty slots in both orders.
  ghost predicate Sorted<V>(s: seq<Slot<V>>) {
    forall i, j :: 0 <= i < j < |s| ==> Cmp(s[j], s[i]) >= 0
  }

  // The order that cmp stands for: ascending keys, empty slots last.
  predicate Le<V>(a: Slot<V>, b: Slot<V>) {
    b.Empty? || (a.Full? && a.key <= b.key)
  }

  ghost predicate Ordered<V>(s: seq<Slot<V>>) {
    forall i, j :: 0 <= i < j < |s| ==> Le(s[i], s[j])
  }

  lemma SortedIsOrdered<V>(s: seq<Slot<V>>)
    requires Fits(multiset(s))
    ensures Sorted(s) <==> Ordered(s)
  {}

  // The ascending order meets what qsort promises for cmp exactly when every two keys
  // are no further apart than an int can say.
  lemma AscendingIsSortedExactly<V>(s: seq<Slot<V>>)
    requires Ordered(s)
    ensures Sorted(s) <==> Fits(multiset(s))
  {}

  // libc's qsort is not part of the sources; any sort with this contract will do.
  method QSort<V(==)>(a: array<Slot<V>>)
    requires Fits(multiset(a[..]))
    modifies a
    ensures multiset(a[..]) == old(multiset(a[..]))
    ensures Sorted(a[..])
  {
    for i := 0 to a.Length
      invariant multiset(a[..]) == old(multiset(a[..]))
      invariant Ordered(a[..i])
    {
      Sink(a, i);
    }
    assert a[..] == a[..a.Length];
    SortedIsOrdered(a[..]);
  }

  // Ordered up to i, except that slot j may still have to sink.
  ghost predicate Sinking<V>(s: seq<Slot<V>>, j: nat, i: nat) {
    j <= i < |s| && forall x, y :: 0 <= x < y <= i && y != j ==> Le(s[x], s[y])
  }

  lemma SwapKeepsMultiset<V>(s: seq<Slot<V>>, j: nat)
    requires 0 < j < |s|
    ensures multiset(s[j - 1 := s[j]][j := s[j - 1]]) == multiset(s)
  {}

  lemma SinkStep<V>(s: seq<Slot<V>>, j: nat, i: nat)
    requires 0 < j && Sinking(s, j, i) && Le(s[j], s[j - 1])
    ensures Sinking(s[j - 1 := s[j]][j := s[j - 1]], j - 1, i)
  {}

  lemma SinkDone<V>(s: seq<Slot<V>>, j: nat, i: nat)
    requires Sinking(s, j, i) && (j == 0 || Le(s[j - 1], s[j]))
    ensures Ordered(s[..i + 1])
  {}

  lemma CmpNeighbours<V>(s: seq<Slot<V>>, j: nat)
    requires Fits(multiset(s)) && 0 < j < |s|
    ensures if Cmp(s[j - 1], s[j]) > 0 then Le(s[j], s[j - 1]) else Le(s[j - 1], s[j])
  {}

  method Sink<V(==)>(a: array<Slot<V>>, i: nat)
    requires i < a.Length && Fits(multiset(a[..])) && Ordered(a[..i])
    modifies a
    ensures multiset(a[..]) == old(multiset(a[..]))
    ensures Ordered(a[..i + 1])
  {
    var j := i;
    while 0 < j && Cmp(a[j - 1], a[j]) > 0
      invariant 0 <= j <= i
      invariant multiset(a[..]) == old(multiset(a[..]))
      invariant Sinking(a[..], j, i)
    {
      ghost var s := a[..];
      CmpNeighbours(s, j);
      SwapKeepsMultiset(s, j);
      SinkStep(s, j, i);
      a[j - 1], a[j] := a[j], a[j - 1];
      assert a[..] == s[j - 1 := s[j]][j := s[j - 1]];
      j := j - 1;
    }
    if 0 < j {
      CmpNeighbours(a[..], j);
    }
    SinkDone(a[..], j, i);
  }

  // The first n slots hold the keys of log in strictly ascending order, each with
  // its own list; only empty slots follow.
  ghost predicate Ranked<V>(s: seq<Slot<V>>, n: int, log: Log<V>) {
    && 0 <= n <= |s|
    && (forall i :: 0 <= i < n ==> s[i].Full? && s[i].vals == ValuesOf(log, s[i].key) != [])
    && (forall i :: n <= i < |s| ==> s[i].Empty?)
    && (forall i, j :: 0 <= i < j < n ==> s[i].key < s[j].key)
    && (forall k :: ValuesOf(log, k) != [] ==> HasKey(s, k))
  }

  // No two stored keys are further apart than an int can say.
  ghost predicate Comparable<V>(log: Log<V>) {
    forall e, f :: e in log && f in log ==> e.0 - f.0 < 0x8000_0000
  }

  lemma ComparableFits<V>(s: seq<Slot<V>>, log: Log<V>)
    requires Represents(s, log) && Comparable(log)
    ensures Fits(multiset(s))
  {
    forall a, b | a in multiset(s) && b in multiset(s) && a.Full? && b.Full?
      ensures -0x8000_0000 <= a.key - b.key < 0x8000_0000
    {
      KeyWasStored(log, a.key);
      KeyWasStored(log, b.key);
    }
  }

  lemma {:induction false} FullPrefix<V>(t: seq<Slot<V>>)
    requires Ordered(t)
    ensures forall i :: 0 <= i < |t| ==> (t[i].Full? <==> i < Used(t))
  {
    if t != [] {
      var init, last := t[..|t| - 1], t[|t| - 1];
      assert t == init + [last];
      assert multiset(t) == multiset(init) + multiset{last};
      FullPrefix(init);
      if last.Full? {
        forall i | 0 <= i < |init|
          ensures init[i].Full?
        {
          assert Le(t[i], t[|init|]);
        }
      }
    }
  }

  lemma {:induction false} TwoPlaces<V>(s: seq<Slot<V>>, e: Slot<V>)
    ensures multiset(s)[e] >= 2 <==> exists i, j :: 0 <= i < j < |s| && s[i] == s[j] == e
  {
    if s != [] {
      var init, last := s[..|s| - 1], s[|s| - 1];
      assert s == init + [last];
      TwoPlaces(init, e);
      if last == e && e in init {
        var i :| 0 <= i < |init| && init[i] == e;
        assert s[i] == s[|s| - 1] == e;
      }
      if i, j :| 0 <= i < j < |s| && s[i] == s[j] == e {
        assert e in init;
        if j < |init| {
          assert init[i] == init[j] == e;
        }
      }
    }
  }

  lemma PermutedUniqueKeys<V>(s: seq<Slot<V>>, t: seq<Slot<V>>)
    requires UniqueKeys(s) && multiset(t) == multiset(s)
    ensures UniqueKeys(t)
  {
    forall i, j | 0 <= i < j < |t| && t[i].Full? && t[j].Full?
      ensures t[i].key != t[j].key
    {
      TwoPlaces(t, t[i]);
      TwoPlaces(s, t[i]);
      assert t[i] in multiset(s) && t[j] in multiset(s);
      assert t[i] in s && t[j] in s;
    }
  }

  lemma SortedIsRanked<V>(s: seq<Slot<V>>, t: seq<Slot<V>>, log: Log<V>)
    requires Represents(s, log) && Comparable(log)
    requires multiset(t) == multiset(s) && Sorted(t)
    ensures Ranked(t, Used(s), log)
  {
    var n := Used(s);
    assert |t| == |multiset(t)| == |multiset(s)| == |s|;
    ComparableFits(s, log);
    SortedIsOrdered(t);
    FullPrefix(t);
    PermutedUniqueKeys(s, t);
    assert multiset(s)[Empty] <= |multiset(s)|;
    forall i | 0 <= i < n
      ensures t[i].Full? && t[i].vals == ValuesOf(log, t[i].key) != []
    {
      assert t[i] in multiset(s);
      assert t[i] in s;
    }
    forall i, j | 0 <= i < j < n
      ensures t[i].key < t[j].key
    {
      assert Le(t[i], t[j]);
    }
    forall k | ValuesOf(log, k) != []
      ensures HasKey(t, k)
    {
      var x :| 0 <= x < |s| && s[x].Full? && s[x].key == k;
      assert s[x] in multiset(t);
      var i :| 0 <= i < |t| && t[i] == s[x];
    }
  }

  ghost predicate NoNegativeKey<V>(log: Log<V>) {
    forall e :: e in log ==> 0 <= e.0
  }

  lemma RankedKey<V>(s: seq<Slot<V>>, n: int, log: Log<V>, i: nat)
    requires Ranked(s, n, log) && i < n && NoNegativeKey(log)
    ensures 0 <= s[i].key <= MaxOf(log)
  {
    KeyWasStored(log, s[i].key);
    MaxOfIsMax(log, MaxOf(log));
  }

  // No key lies strictly between two neighbours.
  lemma RankedGap<V>(s: seq<Slot<V>>, n: int, log: Log<V>, i: nat, k: int)
    requires Ranked(s, n, log) && i < n && k < s[i].key && (i == 0 || s[i - 1].key < k)
    ensures ValuesOf(log, k) == []
  {
    if x :| 0 <= x < |s| && s[x].Full? && s[x].key == k {
      assert x < i - 1 ==> s[x].key < s[i - 1].key;
      assert i < x ==> s[i].key < s[x].key;
    }
    assert !HasKey(s, k);
  }

  // The last key is max.
  lemma RankedMax<V>(s: seq<Slot<V>>, n: int, log: Log<V>)
    requires Ranked(s, n, log) && log != [] && NoNegativeKey(log)
    ensures 0 < n && s[n - 1].key == MaxOf(log)
  {
    var m := MaxOf(log);
    MaxOfIsMax(log, m);
    if m == 0 {
      assert log[0] in log && log[0].0 == 0;
    }
    KeyWasStored(log, m);
    assert HasKey(s, m);
    var x :| 0 <= x < |s| && s[x].Full? && s[x].key == m;
    RankedKey(s, n, log, n - 1);
  }

  // ----- The table object -----

  class Table<V(==)> {
    const hasher: Hasher
    var max: int
    var size: nat
    var count: int
    var ary: array<Slot<V>>
    ghost var log: Log<V>

    // What holds between probes: the table represents its stores and can be probed.
    ghost predicate Probed()
      reads this, ary
    {
      && IsTableSize(size) && size == ary.Length
      && count == Used(ary[..])
      && NoGap(hasher, ary[..])
      && Represents(ary[..], log)
    }

    ghost predicate Valid()
      reads this, ary
    {
      && Probed()
      && IsMax(log, max)
      && 4 * count <= 3 * size + 4
      && count <= size
    }

    // dhash_init
    constructor (hasher: Hasher)
      ensures Valid() && fresh(ary)
      ensures log == [] && size == 4
    {
      this.hasher := hasher;
      ary := new Slot<V>[4](_ => Empty);
      max, size, count, log := 0, 4, 0, [];
      new;
      assert multiset(ary[..])[Empty] == 4 by {
        assert ary[..] == [Empty, Empty, Empty, Empty];
      }
    }

    // dhash_insert: append sv to the key's list, claiming a free slot for a new key.
    method Insert(key: CInt, sv: V, hash: nat)
      requires Probed()
      requires hash == Home(hasher, key, size)
      requires count < size
      modifies this`count, this`log, ary
      ensures Probed()
      ensures log == old(log) + [(key, sv)]
      ensures old(count) <= count <= old(count) + 1
    {
      ghost var s := ary[..];
      var h := Probe(hasher, ary, key, hash);
      ghost var e := Full(key, (if s[h].Full? then s[h].vals else []) + [sv]);
      StoreRepresents(hasher, s, log, key, sv, h);
      ClaimKeepsNoGap(hasher, s, e, h);
      ClaimCounts(s, e, h);
      if ary[h].Empty? {
        ary[h] := Full(key, []);
        count := count + 1;
      }
      ary[h] := Full(key, ary[h].vals + [sv]);
      log := log + [(key, sv)];
      assert ary[..] == s[h := e];
    }

    // One slot of the rehash loop: move e, which is s[i], to the first free slot
    // from its home in the new array.
    method Move(e: Slot<V>, ghost s: seq<Slot<V>>, ghost i: nat)
      requires UniqueKeys(s) && i < |s| && s[i] == e && e.Full?
      requires Rehashed(hasher, s[..i], ary[..]) && count == Used(ary[..]) < size == ary.Length
      modifies this`count, ary
      ensures Rehashed(hasher, s[..i + 1], ary[..])
      ensures count == Used(ary[..]) == old(count) + 1
    {
      ghost var t := ary[..];
      var hash := FindFree(hasher, ary, e.key);
      RehashOne(hasher, s, i, t, hash);
      ClaimCounts(t, e, hash);
      ary[hash] := e;
      count := count + 1;
      assert ary[..] == t[hash := e];
    }

    // The loop of dhash_resize: reinsert every slot in old array order, without
    // comparing keys.
    method Rehash(old_: array<Slot<V>>)
      requires old_ != ary && UniqueKeys(old_[..])
      requires size == ary.Length == 2 * old_.Length && count == 0
      requires forall x :: 0 <= x < size ==> ary[x].Empty?
      modifies this`count, ary
      ensures Rehashed(hasher, old_[..], ary[..]) && count == Used(ary[..])
    {
      ghost var s := old_[..];
      AllEmpty(hasher, ary[..]);
      assert s[..0] == [];
      for i := 0 to size / 2
        invariant old_[..] == s
        invariant Rehashed(hasher, s[..i], ary[..])
        invariant count == Used(ary[..]) <= i
      {
        if old_[i].Full? {
          Move(old_[i], s, i);
        } else {
          RehashSkip(hasher, s, i, ary[..]);
        }
      }
      assert s[..old_.Length] == s;
    }

    // dhash_resize: double the array.
    method Resize()
      requires Probed()
      modifies this`size, this`count, this`ary
      ensures Probed() && fresh(ary)
      ensures size == 2 * old(size) && count == old(count)
      ensures SameEntries(old(ary[..]), ary[..])
    {
      hide IsTableSize, NoGap, UniqueKeys;
      var old_ := ary;
      ghost var s := ary[..];
      DoubledSize(size);
      size := 2 * size;
      count := 0;
      ary := new Slot<V>[size](_ => Empty);
      Rehash(old_);
      RehashedRepresents(hasher, s, ary[..], log);
    }

    // dhash_store
    method Store(key: CInt, val: V)
      requires Valid()
      modifies this, ary
      ensures Valid()
      ensures ary == old(ary) || fresh(ary)
      ensures log == old(log) + [(key, val)]
    {
      OverloadedMeans(count, size);
      ExtendMax(log, max, key, val);
      if Overloaded(count, size) {
        Resize();
      }
      Insert(key, val, Home(hasher, key, size));
      if key > max {
        max := key;
      }
    }

    // dhash_sort_final; the table can only be iterated afterwards.
    method SortFinal()
      requires Valid() && Comparable(log)
      modifies ary
      ensures Ranked(ary[..], count, log)
    {
      ghost var s := ary[..];
      ComparableFits(s, log);
      QSort(ary);
      SortedIsRanked(s, ary[..], log);
    }
  }
}
