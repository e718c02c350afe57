// The dependency search of Astro-Hipparcos/ppport.h (rec_depend).
module RecDepend {

  type Graph<K(==)> = map<K, seq<K>>

  // grep !$s{$_}++, @list: keep the first occurrence of each element.
  function Dedupe<K(==)>(xs: seq<K>): seq<K> {
    if xs == [] then []
    else
      var init, x := Dedupe(xs[..|xs| - 1]), xs[|xs| - 1];
      if x in init then init else init + [x]
  }

  // The recursive search: seen is the copied set of functions on the current path.
  function RecDepend<K(==)>(depends: Graph<K>, func: K, seen: set<K>): seq<K>
    decreases depends.Keys - seen, 1
  {
    if func !in depends then []
    else if func in seen then []
    else
      assert func in depends.Keys - seen && func !in depends.Keys - (seen + {func});
      Dedupe(Visit(depends, depends[func], seen + {func}))
  }

  // map { ($_, rec_depend($_, $seen)) } @deps
  function Visit<K(==)>(depends: Graph<K>, deps: seq<K>, seen: set<K>): seq<K>
    decreases depends.Keys - seen, 2, |deps|
  {
    if deps == [] then []
    else [deps[0]] + RecDepend(depends, deps[0], seen) + Visit(depends, deps[1..], seen)
  }

  // ----- Reachability, the reference -----

  ghost predicate Edge<K>(depends: Graph<K>, x: K, y: K) {
    x in depends && y in depends[x]
  }

  // p is a path with at least one edge.
  ghost predicate IsPath<K>(depends: Graph<K>, p: seq<K>) {
    2 <= |p| && forall i :: 0 <= i < |p| - 1 ==> Edge(depends, p[i], p[i + 1])
  }

  // y is reachable from x by a non-empty path that leaves no function of seen.
  ghost predicate Reaches<K(!new)>(depends: Graph<K>, seen: set<K>, x: K, y: K) {
    exists p :: IsPath(depends, p) && p[0] == x && p[|p| - 1] == y && Avoids(p, seen)
  }

  ghost predicate Avoids<K>(p: seq<K>, seen: set<K>) {
    forall i :: 0 <= i < |p| - 1 ==> p[i] !in seen
  }

  // ----- Each function once -----

  ghost predicate Distinct<K>(xs: seq<K>) {
    forall i, j :: 0 <= i < j < |xs| ==> xs[i] != xs[j]
  }

  lemma {:induction false} DedupeSpec<K>(xs: seq<K>)
    ensures Distinct(Dedupe(xs))
    ensures forall x :: x in Dedupe(xs) <==> x in xs
  {
    if xs != [] {
      var init := xs[..|xs| - 1];
      assert xs == init + [xs[|xs| - 1]];
      DedupeSpec(init);
    }
  }

  // ----- Order -----

  // The position of the first occurrence.
  function FirstAt<K(==)>(xs: seq<K>, x: K): nat
    requires x in xs
  {
    if xs[0] == x then 0 else 1 + FirstAt(xs[1..], x)
  }

  lemma {:induction false} FirstAtSnoc<K>(xs: seq<K>, y: K, x: K)
    requires x in xs + [y]
    ensures FirstAt(xs + [y], x) == if x in xs then FirstAt(xs, x) else |xs|
    ensures x in xs ==> FirstAt(xs, x) < |xs|
  {
    var all := xs + [y];
    if xs != [] {
      assert all[1..] == xs[1..] + [y];
      if xs[0] != x {
        FirstAtSnoc(xs[1..], y, x);
      }
    }
  }

  lemma DedupeHas<K>(xs: seq<K>, i: nat)
    requires i < |Dedupe(xs)|
    ensures Dedupe(xs)[i] in xs
  {
    DedupeSpec(xs);
    var d := Dedupe(xs);
    assert d[i] in d;
  }

  // The elements keep the order of their first occurrences.
  lemma {:induction false} DedupeKeepsOrder<K>(xs: seq<K>, i: nat, j: nat)
    requires i < j < |Dedupe(xs)|
    ensures Dedupe(xs)[i] in xs && Dedupe(xs)[j] in xs
    ensures FirstAt(xs, Dedupe(xs)[i]) < FirstAt(xs, Dedupe(xs)[j])
  {
    var init, x := xs[..|xs| - 1], xs[|xs| - 1];
    assert xs == init + [x];
    DedupeSpec(init);
    DedupeSpec(xs);
    var a, b := Dedupe(xs)[i], Dedupe(xs)[j];
    DedupeHas(xs, i);
    DedupeHas(xs, j);
    FirstAtSnoc(init, x, a);
    FirstAtSnoc(init, x, b);
    if j < |Dedupe(init)| {
      DedupeKeepsOrder(init, i, j);
    }
  }

  lemma {:induction false} DedupePrefix<K>(xs: seq<K>, ys: seq<K>)
    ensures Dedupe(xs) <= Dedupe(xs + ys)
  {
    if ys == [] {
      assert xs + ys == xs;
    } else {
      var init := ys[..|ys| - 1];
      DedupePrefix(xs, init);
      assert (xs + ys)[..|xs + ys| - 1] == xs + init;
    }
  }

  lemma {:induction false} VisitConcat<K>(depends: Graph<K>, a: seq<K>, b: seq<K>, seen: set<K>)
    ensures Visit(depends, a + b, seen) == Visit(depends, a, seen) + Visit(depends, b, seen)
  {
    if a == [] {
      assert a + b == b;
    } else {
      assert (a + b)[1..] == a[1..] + b;
      VisitConcat(depends, a[1..], b, seen);
    }
  }

  lemma DedupeNext<K>(a: seq<K>, y: K, rest: seq<K>)
    ensures Dedupe(a) <= Dedupe(a + ([y] + rest))
    ensures y !in Dedupe(a) ==> Dedupe(a) + [y] <= Dedupe(a + ([y] + rest))
  {
    assert a + ([y] + rest) == (a + [y]) + rest;
    DedupePrefix(a, [y] + rest);
    DedupePrefix(a + [y], rest);
    assert (a + [y])[..|a|] == a;
  }

  lemma VisitNext<K>(depends: Graph<K>, deps: seq<K>, seen: set<K>, i: nat) returns (rest: seq<K>)
    requires i < |deps|
    ensures Visit(depends, deps, seen) == Visit(depends, deps[..i], seen) + ([deps[i]] + rest)
  {
    assert deps == deps[..i] + deps[i..];
    VisitConcat(depends, deps[..i], deps[i..], seen);
    rest := RecDepend(depends, deps[i], seen) + Visit(depends, deps[i..][1..], seen);
    assert [deps[i]] + rest == [deps[i]] + RecDepend(depends, deps[i], seen) + Visit(depends, deps[i..][1..], seen);
  }

  // The list is in the order of the search: what is found through the first i dependencies
  // comes first, and the next dependency, if it is new, follows at once.
  lemma RecDependOrder<K>(depends: Graph<K>, func: K, seen: set<K>, i: nat)
    requires func in depends && func !in seen && i < |depends[func]|
    ensures var deps := depends[func];
            var head := Dedupe(Visit(depends, deps[..i], seen + {func}));
            && head <= RecDepend(depends, func, seen)
            && (deps[i] !in head ==> head + [deps[i]] <= RecDepend(depends, func, seen))
  {
    hide Dedupe, Visit;
    var deps := depends[func];
    var rest := VisitNext(depends, deps, seen + {func}, i);
    DedupeNext(Visit(depends, deps[..i], seen + {func}), deps[i], rest);
  }

  // ----- Soundness -----

  lemma PathExtends<K(!new)>(depends: Graph<K>, seen: set<K>, x: K, y: K, z: K)
    requires x !in seen && Edge(depends, x, y) && Reaches(depends, seen + {x}, y, z)
    ensures Reaches(depends, seen, x, z)
  {
    var p :| IsPath(depends, p) && p[0] == y && p[|p| - 1] == z && Avoids(p, seen + {x});
    var q := [x] + p;
    forall i | 0 <= i < |q| - 1
      ensures Edge(depends, q[i], q[i + 1]) && q[i] !in seen
    {
      if 0 < i {
        assert Edge(depends, p[i - 1], p[i - 1 + 1]);
        assert p[i - 1] !in seen + {x};
      }
    }
    assert IsPath(depends, q) && Avoids(q, seen);
  }

  lemma {:induction false} RecDependSound<K(!new)>(depends: Graph<K>, func: K, seen: set<K>, y: K)
    requires y in RecDepend(depends, func, seen)
    ensures Reaches(depends, seen, func, y)
    decreases depends.Keys - seen, 1
  {
    assert func in depends.Keys - seen && func !in depends.Keys - (seen + {func});
    DedupeSpec(Visit(depends, depends[func], seen + {func}));
    VisitSound(depends, func, depends[func], seen, y);
  }

  lemma {:induction false} VisitSound<K(!new)>(depends: Graph<K>, func: K, deps: seq<K>, seen: set<K>, y: K)
    requires func in depends && func !in seen
    requires forall d :: d in deps ==> Edge(depends, func, d)
    requires y in Visit(depends, deps, seen + {func})
    ensures Reaches(depends, seen, func, y)
    decreases depends.Keys - (seen + {func}), 2, |deps|
  {
    var d := deps[0];
    if y == d {
      assert IsPath(depends, [func, d]) && Avoids([func, d], seen);
    } else if y in RecDepend(depends, d, seen + {func}) {
      RecDependSound(depends, d, seen + {func}, y);
      PathExtends(depends, seen, func, d, y);
    } else {
      VisitSound(depends, func, deps[1..], seen, y);
    }
  }

  // ----- Completeness -----

  // Cutting out loops leaves a path whose inner functions are all different, which
  // the seen-set never stops.
  lemma {:induction false} Simplify<K(!new)>(depends: Graph<K>, seen: set<K>, p: seq<K>) returns (q: seq<K>)
    requires IsPath(depends, p) && Avoids(p, seen)
    ensures IsPath(depends, q) && Avoids(q, seen) && Distinct(q[..|q| - 1])
    ensures q[0] == p[0] && q[|q| - 1] == p[|p| - 1]
    decreases |p|
  {
    if Distinct(p[..|p| - 1]) {
      q := p;
    } else {
      var i, j :| 0 <= i < j < |p| - 1 && p[i] == p[j];
      var r := p[..i] + p[j..];
      forall k | 0 <= k < |r| - 1
        ensures Edge(depends, r[k], r[k + 1]) && r[k] !in seen
      {
        if k < i {
          assert Edge(depends, p[k], p[k + 1]);
        } else {
          assert Edge(depends, p[k - i + j], p[k - i + j + 1]);
        }
      }
      q := Simplify(depends, seen, r);
    }
  }

  lemma {:induction false} VisitHas<K>(depends: Graph<K>, deps: seq<K>, seen: set<K>, d: K, y: K)
    requires d in deps
    requires y == d || y in RecDepend(depends, d, seen)
    ensures y in Visit(depends, deps, seen)
    decreases |deps|
  {
    if d != deps[0] {
      VisitHas(depends, deps[1..], seen, d, y);
    }
  }

  lemma {:induction false} RecDependFollows<K>(depends: Graph<K>, p: seq<K>, seen: set<K>)
    requires IsPath(depends, p) && Avoids(p, seen) && Distinct(p[..|p| - 1])
    ensures p[|p| - 1] in RecDepend(depends, p[0], seen)
    decreases |p|
  {
    var func, rest := p[0], p[1..];
    assert Edge(depends, p[0], p[0 + 1]);
    DedupeSpec(Visit(depends, depends[func], seen + {func}));
    if |p| > 2 {
      forall i | 0 <= i < |rest| - 1
        ensures Edge(depends, rest[i], rest[i + 1]) && rest[i] !in seen + {func}
      {
        assert Edge(depends, p[i + 1], p[i + 1 + 1]);
        assert p[..|p| - 1][0] != p[..|p| - 1][i + 1];
      }
      assert rest[..|rest| - 1] == p[..|p| - 1][1..];
      RecDependFollows(depends, rest, seen + {func});
    }
    VisitHas(depends, depends[func], seen + {func}, p[1], p[|p| - 1]);
  }

  // ----- The main results -----

  // Below any path, the search lists each function once, and exactly those reachable
  // by a non-empty path that does not pass through the functions already seen.
  lemma RecDependReaches<K(!new)>(depends: Graph<K>, func: K, seen: set<K>, y: K)
    ensures Distinct(RecDepend(depends, func, seen))
    ensures y in RecDepend(depends, func, seen) <==> Reaches(depends, seen, func, y)
  {
    if func in depends && func !in seen {
      DedupeSpec(Visit(depends, depends[func], seen + {func}));
    }
    if y in RecDepend(depends, func, seen) {
      RecDependSound(depends, func, seen, y);
    }
    if Reaches(depends, seen, func, y) {
      var p :| IsPath(depends, p) && p[0] == func && p[|p| - 1] == y && Avoids(p, seen);
      var q := Simplify(depends, seen, p);
      RecDependFollows(depends, q, seen);
    }
  }

  // From the top, rec_depend is reachability by a non-empty path, on every finite
  // graph, cyclic or not; a function lists itself exactly when it lies on a cycle.
  lemma RecDependIsReachability<K(!new)>(depends: Graph<K>, func: K)
    ensures Distinct(RecDepend(depends, func, {}))
    ensures forall y :: (y in RecDepend(depends, func, {})
                         <==> exists p :: IsPath(depends, p) && p[0] == func && p[|p| - 1] == y)
  {
    RecDependReaches(depends, func, {}, func);
    forall y
      ensures y in RecDepend(depends, func, {})
        <==> exists p :: IsPath(depends, p) && p[0] == func && p[|p| - 1] == y
    {
      RecDependReaches(depends, func, {}, y);
      if p :| IsPath(depends, p) && p[0] == func && p[|p| - 1] == y {
        assert Avoids(p, {});
      }
    }
  }
}
