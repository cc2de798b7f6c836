/** Ordering the workspace crates for publishing: layer by layer, each crate after the crates of the
    workspace that it depends on. */
module CrateOrder {
  import opened Types

  type Name(==, !new)

  /** The dependencies of each crate; some of them may lie outside the workspace. */
  type Graph = map<Name, seq<Name>>

  datatype Outcome =
    | Sorted(order: seq<Name>)
      /** Crates that depend on each other directly, or wrong self dev-dependencies. */
    | Rejected(circular: set<(Name, Name)>)
      /** The iteration limit was reached with these crates left. */
    | Suspected(left: seq<Name>)

  /** `a` depends on `b`, and both are in the workspace. */
  predicate DependsOn(graph: Graph, a: Name, b: Name) { a in graph && b in graph && b in graph[a] }

  // ----- Cycles -----

  ghost predicate Walk(graph: Graph, w: seq<Name>) { forall i | 0 < i < |w| :: DependsOn(graph, w[i - 1], w[i]) }

  ghost predicate Cycle(graph: Graph, w: seq<Name>) { |w| > 1 && w[0] == w[|w| - 1] && Walk(graph, w) }

  ghost predicate Cyclic(graph: Graph) { exists w :: Cycle(graph, w) }

  ghost predicate HasNext(graph: Graph, s: set<Name>, x: Name) { exists y :: y in s && DependsOn(graph, x, y) }

  /** Each of these crates depends on one of them. */
  ghost predicate Stuck(graph: Graph, s: set<Name>) {
    s != {} && forall x {:trigger HasNext(graph, s, x)} | x in s :: HasNext(graph, s, x)
  }

  lemma {:induction false} Pigeonhole(w: seq<Name>, s: set<Name>)
    requires |w| > |s| && forall i | 0 <= i < |w| :: w[i] in s
    ensures !Distinct(w)
    decreases |w|
  {
    var n := |w| - 1;
    if Distinct(w) {
      forall i | 0 <= i < n ensures w[..n][i] in s - {w[n]} {}
      Pigeonhole(w[..n], s - {w[n]});
      assert false;
    }
  }

  /** Follow dependencies inside `s` for as long as one likes. */
  lemma {:induction false} LongWalk(graph: Graph, s: set<Name>, n: nat) returns (w: seq<Name>)
    requires Stuck(graph, s)
    ensures |w| == n + 1 && Walk(graph, w) && forall i | 0 <= i < |w| :: w[i] in s
  {
    if n == 0 {
      var x :| x in s;
      w := [x];
    } else {
      w := LongWalk(graph, s, n - 1);
      assert HasNext(graph, s, w[n - 1]);
      var y :| y in s && DependsOn(graph, w[n - 1], y);
      w := w + [y];
    }
  }

  /** Crates that each depend on another one among them contain a cycle. */
  lemma StuckIsCyclic(graph: Graph, s: set<Name>)
    requires Stuck(graph, s)
    ensures Cyclic(graph)
  {
    var w := LongWalk(graph, s, |s|);
    Pigeonhole(w, s);
    var i, j :| 0 <= i < j < |w| && w[i] == w[j];
    var c := w[i..j + 1];
    forall k | 0 < k < |c| ensures DependsOn(graph, c[k - 1], c[k]) {
      assert DependsOn(graph, w[i + k - 1], w[i + k]);
    }
    assert Cycle(graph, c);
  }

  // ----- Layers -----

  /** A crate can be published when none of its dependencies is left. */
  predicate Free(graph: Graph, left: seq<Name>, x: Name) {
    x in graph && forall i | 0 <= i < |graph[x]| :: graph[x][i] !in left
  }

  /** Everything in front depends only on crates before it, and what is left are the other crates. */
  ghost predicate Progress(graph: Graph, done: seq<Name>, left: seq<Name>) {
    && Distinct(done + left)
    && (forall x :: x in graph <==> x in done + left)
    && (forall i | 0 <= i < |done| :: forall y | DependsOn(graph, done[i], y) :: y in done[..i])
  }

  /** What has to come out: every crate once, each after its dependencies in the workspace. */
  ghost predicate Ordered(graph: Graph, order: seq<Name>) {
    && Distinct(order)
    && (forall x :: x in graph <==> x in order)
    && (forall i | 0 <= i < |order| :: forall y | DependsOn(graph, order[i], y) :: y in order[..i])
  }

  function Keep(s: seq<Name>, removed: seq<Name>): (r: seq<Name>)
    ensures forall x :: x in r <==> x in s && x !in removed
    ensures |r| <= |s|
  {
    if s == [] then []
    else Keep(s[..|s| - 1], removed) + if s[|s| - 1] in removed then [] else [s[|s| - 1]]
  }

  lemma {:induction false} KeepIsDistinct(s: seq<Name>, removed: seq<Name>)
    requires Distinct(s)
    ensures Distinct(Keep(s, removed))
  {
    if s != [] {
      var n := |s| - 1;
      KeepIsDistinct(s[..n], removed);
      assert s[n] !in s[..n];
    }
  }

  lemma {:induction false} KeepShrinks(s: seq<Name>, removed: seq<Name>, x: Name)
    requires x in s && x in removed
    ensures |Keep(s, removed)| < |s|
  {
    var n := |s| - 1;
    if x != s[n] {
      assert x in s[..n];
      KeepShrinks(s[..n], removed, x);
    }
  }

  /** Publishing a layer of free crates keeps the progress. */
  lemma LayerProgress(graph: Graph, done: seq<Name>, left: seq<Name>, layer: seq<Name>)
    requires Progress(graph, done, left) && Distinct(layer)
    requires forall x | x in layer :: x in left && Free(graph, left, x)
    ensures Progress(graph, done + layer, Keep(left, layer))
  {
    Apart(done, left);
    LayerIsDistinct(done, left, layer);
    forall x ensures x in graph <==> x in done + layer + Keep(left, layer) {
      assert x in done + left <==> x in done || x in left;
    }
    forall i: nat, y | i < |done + layer| && DependsOn(graph, (done + layer)[i], y) ensures y in (done + layer)[..i] {
      LayerDependsOnDone(graph, done, left, layer, i, y);
    }
  }

  lemma LayerIsDistinct(done: seq<Name>, left: seq<Name>, layer: seq<Name>)
    requires Distinct(done) && Distinct(left) && Distinct(layer)
    requires (forall x | x in done :: x !in left) && (forall x | x in layer :: x in left)
    ensures Distinct(done + layer + Keep(left, layer))
  {
    KeepIsDistinct(left, layer);
    var all := done + layer + Keep(left, layer);
    forall i, j | 0 <= i < j < |all| ensures all[i] != all[j] {
      DistinctParts(done, layer, Keep(left, layer), i, j);
    }
  }

  /** What a newly or earlier published crate depends on comes before it. */
  lemma LayerDependsOnDone(graph: Graph, done: seq<Name>, left: seq<Name>, layer: seq<Name>, i: nat, y: Name)
    requires Progress(graph, done, left) && forall x | x in layer :: Free(graph, left, x)
    requires i < |done + layer| && DependsOn(graph, (done + layer)[i], y)
    ensures y in (done + layer)[..i]
  {
    var now := done + layer;
    if i < |done| {
      assert now[i] == done[i] && now[..i] == done[..i];
    } else {
      assert now[i] == layer[i - |done|] && now[i] in layer;
      assert y !in left && y in done + left;
      assert now[..i] == done + layer[..i - |done|];
    }
  }

  lemma Apart(done: seq<Name>, left: seq<Name>)
    requires Distinct(done + left)
    ensures Distinct(done) && Distinct(left) && forall x | x in done :: x !in left
  {
    var all := done + left;
    assert forall i | 0 <= i < |done| :: done[i] == all[i];
    assert forall i | 0 <= i < |left| :: left[i] == all[|done| + i];
  }

  lemma DistinctParts(a: seq<Name>, b: seq<Name>, c: seq<Name>, i: nat, j: nat)
    requires Distinct(a) && Distinct(b) && Distinct(c)
    requires (forall x | x in a :: x !in b && x !in c) && (forall x | x in b :: x !in c)
    requires i < j < |a + b + c|
    ensures (a + b + c)[i] != (a + b + c)[j]
  {
    var all := a + b + c;
    assert all[i] == if i < |a| then a[i] else if i < |a| + |b| then b[i - |a|] else c[i - |a| - |b|];
    assert all[j] == if j < |a| then a[j] else if j < |a| + |b| then b[j - |a|] else c[j - |a| - |b|];
    assert i < |a| <= j ==> all[i] in a && all[j] !in a;
    assert i < |a| + |b| <= j ==> all[j] in c;
  }

  /** Without a cycle some crate is always free. */
  lemma SomeoneIsFree(graph: Graph, left: seq<Name>)
    requires !Cyclic(graph) && left != [] && forall x | x in left :: x in graph
    ensures exists x | x in left :: Free(graph, left, x)
  {
    if forall x | x in left :: !Free(graph, left, x) {
      var s := set x | x in left;
      assert left[0] in s;
      forall x | x in s ensures HasNext(graph, s, x) {
        var i :| 0 <= i < |graph[x]| && graph[x][i] in left;
        assert graph[x][i] in s && DependsOn(graph, x, graph[x][i]);
      }
      StuckIsCyclic(graph, s);
    }
  }

  /** The crates of a cycle are never free while they are all left. */
  lemma CycleStays(graph: Graph, w: seq<Name>, left: seq<Name>, layer: seq<Name>)
    requires Cycle(graph, w) && (forall i | 0 <= i < |w| :: w[i] in left)
    requires forall x | x in layer :: Free(graph, left, x)
    ensures forall i | 0 <= i < |w| :: w[i] in Keep(left, layer)
  {
    forall i | 0 <= i < |w| ensures w[i] !in layer {
      var k := if i < |w| - 1 then i + 1 else 1;
      assert DependsOn(graph, w[k - 1], w[k]) && w[k - 1] == w[i];
      var j :| 0 <= j < |graph[w[i]]| && graph[w[i]][j] == w[k];
      assert !Free(graph, left, w[i]);
    }
  }

  // ----- The script -----

  /** Pairs of crates that depend on each other, and crates that depend on themselves. */
  method DirectCycles(graph: Graph, names: seq<Name>) returns (circular: set<(Name, Name)>)
    requires forall x :: x in graph <==> x in names
    ensures forall a: Name, b: Name :: (a, b) in circular <==> DependsOn(graph, a, b) && DependsOn(graph, b, a)
  {
    circular := {};
    for i := 0 to |names|
      invariant forall a: Name, b: Name ::
        (a, b) in circular <==> a in names[..i] && DependsOn(graph, a, b) && DependsOn(graph, b, a)
    {
      var package := names[i];
      ghost var before := circular;
      assert names[..i + 1] == names[..i] + [package];
      for j := 0 to |graph[package]|
        invariant forall a: Name, b: Name ::
          (a, b) in circular <==>
            || (a, b) in before
            || (a == package && b in graph[package][..j] && DependsOn(graph, a, b) && DependsOn(graph, b, a))
      {
        var dependency := graph[package][j];
        assert graph[package][..j + 1] == graph[package][..j] + [dependency];
        if dependency in graph && package in graph[dependency] {
          circular := circular + {(package, dependency)};
        }
      }
      assert graph[package][..|graph[package]|] == graph[package];
    }
    assert names[..|names|] == names;
  }

  method IsFree(graph: Graph, left: seq<Name>, x: Name) returns (free: bool)
    requires x in graph
    ensures free <==> Free(graph, left, x)
  {
    for i := 0 to |graph[x]|
      invariant forall j | 0 <= j < i :: graph[x][j] !in left
    {
      if graph[x][i] in left {
        return false;
      }
    }
    return true;
  }

  /** One round: the crates whose dependencies are all gone. */
  method FreeLayer(graph: Graph, left: seq<Name>) returns (layer: seq<Name>)
    requires Distinct(left) && forall x | x in left :: x in graph
    ensures Distinct(layer) && forall x :: x in layer <==> x in left && Free(graph, left, x)
  {
    layer := [];
    for i := 0 to |left|
      invariant Distinct(layer)
      invariant forall x :: x in layer <==> x in left[..i] && Free(graph, left, x)
    {
      assert left[..i + 1] == left[..i] + [left[i]];
      assert left[i] !in left[..i];
      var free := IsFree(graph, left, left[i]);
      if free {
        layer := layer + [left[i]];
      }
    }
    assert left[..|left|] == left;
  }

  /** The crates of every cycle are still there. */
  ghost predicate HoldsCycles(graph: Graph, left: seq<Name>) {
    forall w | Cycle(graph, w) :: forall i | 0 <= i < |w| :: w[i] in left
  }

  /** One round of the loop: with no cycle the list of remaining crates gets shorter, and the crates of a
      cycle stay in it. */
  method PublishLayer(graph: Graph, done: seq<Name>, left: seq<Name>) returns (done': seq<Name>, left': seq<Name>)
    requires Progress(graph, done, left) && HoldsCycles(graph, left) && left != []
    ensures Progress(graph, done', left') && HoldsCycles(graph, left')
    ensures Cyclic(graph) || |left'| < |left|
  {
    Apart(done, left);
    assert forall x | x in left :: x in done + left;
    var layer := FreeLayer(graph, left);
    LayerProgress(graph, done, left, layer);
    if !Cyclic(graph) {
      SomeoneIsFree(graph, left);
      var x :| x in left && Free(graph, left, x);
      KeepShrinks(left, layer, x);
    }
    forall w | Cycle(graph, w) ensures forall i | 0 <= i < |w| :: w[i] in Keep(left, layer) {
      CycleStays(graph, w, left, layer);
    }
    done', left' := done + layer, Keep(left, layer);
  }

  lemma AllHoldsCycles(graph: Graph, names: seq<Name>)
    requires forall x :: x in graph <==> x in names
    ensures HoldsCycles(graph, names)
  {
    forall w, i | Cycle(graph, w) && 0 <= i < |w| ensures w[i] in names {
      assert DependsOn(graph, w[if i == 0 then 0 else i - 1], w[if i == 0 then 1 else i]);
    }
  }

  lemma NothingLeftIsAcyclic(graph: Graph)
    requires HoldsCycles(graph, [])
    ensures !Cyclic(graph)
  {
    var none: seq<Name> := [];
    assert forall w :: Cycle(graph, w) ==> w[0] in none;
  }

  /** The layered ordering with its iteration limit: it succeeds exactly when there is no cycle, within as
      many rounds as there are crates. */
  method OrderLayers(graph: Graph, names: seq<Name>) returns (outcome: Outcome, rounds: nat)
    requires Distinct(names) && forall x :: x in graph <==> x in names
    ensures outcome.Sorted? <==> !Cyclic(graph)
    ensures outcome.Sorted? ==> Ordered(graph, outcome.order) && rounds <= |names|
    ensures outcome.Sorted? || outcome.Suspected?
  {
    var n := |names|;
    var maxIterations: nat := Square(n);
    ghost var limit := maxIterations;
    var done: seq<Name>, left := [], names;
    rounds := 0;
    assert done + left == names;
    AllHoldsCycles(graph, names);
    while left != []
      invariant Progress(graph, done, left) && HoldsCycles(graph, left)
      invariant maxIterations + rounds == limit
      invariant Cyclic(graph) || |left| + rounds <= n
      decreases maxIterations
    {
      if maxIterations == 0 {
        return Suspected(left), rounds;
      }
      maxIterations := maxIterations - 1;
      done, left := PublishLayer(graph, done, left);
      rounds := rounds + 1;
    }
    NothingLeftIsAcyclic(graph);
    assert done + left == done;
    outcome := Sorted(done);
  }

  function Square(n: nat): (r: nat)
    ensures n <= r
  {
    if n == 0 then 0 else n * n
  }

  /** The whole script: direct cycles and wrong self dev-dependencies are rejected first. */
  method OrderPackages(graph: Graph, names: seq<Name>, wrongSelfDevDependencies: bool) returns (outcome: Outcome)
    requires Distinct(names) && forall x :: x in graph <==> x in names
    ensures outcome.Sorted? <==> !wrongSelfDevDependencies && !Cyclic(graph)
    ensures outcome.Sorted? ==> Ordered(graph, outcome.order)
    ensures outcome.Rejected? <==>
      wrongSelfDevDependencies || exists a, b :: DependsOn(graph, a, b) && DependsOn(graph, b, a)
  {
    var circular := DirectCycles(graph, names);
    forall a, b | DependsOn(graph, a, b) && DependsOn(graph, b, a) ensures Cyclic(graph) {
      assert Cycle(graph, [a, b, a]);
    }
    if circular != {} || wrongSelfDevDependencies {
      if circular != {} {
        var pair :| pair in circular;
        assert (pair.0, pair.1) in circular;
      }
      return Rejected(circular);
    }
    var rounds;
    outcome, rounds := OrderLayers(graph, names);
  }
}
