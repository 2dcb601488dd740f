/** The dependency walk: the recursive expansion of a list of package keys
    through the dependency graph, with the list growing while it is being
    examined. */
module DependencyWalk {
  import opened Wrappers

  /** A record of the dependency graph: a package key and the keys of its
      direct dependencies (the `key` field of each dependency record). */
  datatype Package = Package(key: string, dependencies: seq<string>)

  /** The graph: its records in document order. */
  type Graph = seq<Package>

  /** `rank` decreases along every edge of the graph, so the graph has no
      cycle. */
  ghost predicate Ranked(graph: Graph, rank: map<string, nat>)
  {
    forall i :: 0 <= i < |graph| ==>
      graph[i].key in rank &&
      forall k :: k in graph[i].dependencies ==> k in rank && rank[k] < rank[graph[i].key]
  }

  /** Every ranked key of `keys` has a rank below `bound`. */
  ghost predicate Below(keys: seq<string>, rank: map<string, nat>, bound: nat)
  {
    forall k :: k in keys && k in rank ==> rank[k] < bound
  }

  /** Package `a` has `b` among its direct dependencies in some record. */
  ghost predicate DependsOn(graph: Graph, a: string, b: string)
  {
    exists i :: 0 <= i < |graph| && graph[i].key == a && b in graph[i].dependencies
  }

  /** Every element of `r` after the prefix `base` is a direct dependency
      of some element that comes before it. */
  ghost predicate Justified(graph: Graph, base: seq<string>, r: seq<string>)
  {
    forall n :: |base| <= n < |r| ==> JustifiedAt(graph, r, n)
  }

  /** The element at position `n` of `r` is a direct dependency of an
      element before it. */
  ghost predicate JustifiedAt(graph: Graph, r: seq<string>, n: nat)
    requires n < |r|
  {
    exists m :: 0 <= m < n && DependsOn(graph, r[m], r[n])
  }

  /** `k` is reachable from `base` in at most `steps` edges. */
  ghost predicate ReachableWithin(graph: Graph, base: seq<string>, k: string, steps: nat)
    decreases steps
  {
    k in base || (steps > 0 && exists a :: ReachableWithin(graph, base, a, steps - 1) && DependsOn(graph, a, k))
  }

  /** `traverse_used` from position `i` of its loop over the graph, with
      `dependencies` the list as it stands there. A record whose key is in
      the list either ends the walk at once (no dependencies) or has its
      dependencies expanded recursively; the expansion is appended twice,
      because the list returned by the recursive call is the list of
      dependencies that is then appended again. */
  function TraverseUsedFrom(dependencies: seq<string>, graph: Graph, i: nat, ghost rank: map<string, nat>, ghost bound: nat): (r: seq<string>)
    requires i <= |graph| && Ranked(graph, rank) && Below(dependencies, rank, bound)
    ensures Below(r, rank, bound)
    ensures dependencies <= r
    ensures Justified(graph, dependencies, r)
    decreases bound, |graph| - i
  {
    if i == |graph| then dependencies
    else if graph[i].key !in dependencies then TraverseUsedFrom(dependencies, graph, i + 1, rank, bound)
    else if graph[i].dependencies == [] then dependencies
    else
      var sub := graph[i].dependencies;
      var expanded := TraverseUsedFrom(sub, graph, 0, rank, rank[graph[i].key]);
      var grown := dependencies + expanded + expanded;
      AppendExpansionJustified(graph, dependencies, i, expanded);
      var r := TraverseUsedFrom(grown, graph, i + 1, rank, bound);
      JustifiedTransitive(graph, dependencies, grown, r);
      r
  }

  /** Appending (twice) the expansion of a listed record's dependencies
      keeps every new element justified. */
  lemma AppendExpansionJustified(graph: Graph, dependencies: seq<string>, i: nat, expanded: seq<string>)
    requires i < |graph| && graph[i].key in dependencies
    requires graph[i].dependencies <= expanded
    requires Justified(graph, graph[i].dependencies, expanded)
    ensures Justified(graph, dependencies, dependencies + expanded + expanded)
  {
    var sub := graph[i].dependencies;
    var r := dependencies + expanded + expanded;
    var owner :| 0 <= owner < |dependencies| && dependencies[owner] == graph[i].key;
    forall n | |dependencies| <= n < |r|
      ensures JustifiedAt(graph, r, n)
    {
      var e := if n < |dependencies| + |expanded| then n - |dependencies| else n - |dependencies| - |expanded|;
      assert r[n] == expanded[e];
      if e < |sub| {
        assert expanded[e] == sub[e];
        assert DependsOn(graph, r[owner], r[n]);
      } else {
        assert JustifiedAt(graph, expanded, e);
        var m :| 0 <= m < e && DependsOn(graph, expanded[m], expanded[e]);
        assert r[|dependencies| + m] == expanded[m];
        assert DependsOn(graph, r[|dependencies| + m], r[n]);
      }
    }
  }

  /** Justification composes along a chain of extensions. */
  lemma JustifiedTransitive(graph: Graph, a: seq<string>, b: seq<string>, c: seq<string>)
    requires a <= b <= c
    requires Justified(graph, a, b) && Justified(graph, b, c)
    ensures Justified(graph, a, c)
  {
    forall n | |a| <= n < |c|
      ensures JustifiedAt(graph, c, n)
    {
      if n < |b| {
        assert JustifiedAt(graph, b, n);
        var m :| 0 <= m < n && DependsOn(graph, b[m], b[n]);
        assert c[m] == b[m] && c[n] == b[n];
        assert DependsOn(graph, c[m], c[n]);
      }
    }
  }

  /** Reachability within a bound is reachability within any larger bound. */
  lemma {:induction false} ReachableWithinMonotone(graph: Graph, base: seq<string>, k: string, steps: nat, more: nat)
    requires steps <= more && ReachableWithin(graph, base, k, steps)
    ensures ReachableWithin(graph, base, k, more)
    decreases steps
  {
    if k !in base {
      var a :| ReachableWithin(graph, base, a, steps - 1) && DependsOn(graph, a, k);
      ReachableWithinMonotone(graph, base, a, steps - 1, more - 1);
    }
  }

  /** In a justified extension of `base`, the element at position `n` is
      reachable from `base` in at most `n` edges. */
  lemma {:induction false} JustifiedReachable(graph: Graph, base: seq<string>, r: seq<string>, n: nat)
    requires base <= r && Justified(graph, base, r) && n < |r|
    ensures ReachableWithin(graph, base, r[n], n)
    decreases n
  {
    if n < |base| {
      assert r[n] == base[n];
    } else {
      assert JustifiedAt(graph, r, n);
      var m :| 0 <= m < n && DependsOn(graph, r[m], r[n]);
      JustifiedReachable(graph, base, r, m);
      ReachableWithinMonotone(graph, base, r[m], m, n - 1);
    }
  }

  /** `traverse_used` only appends: its result starts with the list it was
      given, and every key it adds is reachable from that list through the
      edges of the graph. */
  lemma TraverseUsedReachable(dependencies: seq<string>, graph: Graph, rank: map<string, nat>, bound: nat, n: nat)
    requires Ranked(graph, rank) && Below(dependencies, rank, bound)
    requires n < |TraverseUsedFrom(dependencies, graph, 0, rank, bound)|
    ensures dependencies <= TraverseUsedFrom(dependencies, graph, 0, rank, bound)
    ensures ReachableWithin(graph, dependencies, TraverseUsedFrom(dependencies, graph, 0, rank, bound)[n], n)
  {
    JustifiedReachable(graph, dependencies, TraverseUsedFrom(dependencies, graph, 0, rank, bound), n);
  }

  /** When the first record of the graph whose key is in the list has no
      dependencies, `traverse_used` returns the list unchanged, whatever
      later records would have added. */
  lemma {:induction false} TraverseUsedEarlyReturn(dependencies: seq<string>, graph: Graph, rank: map<string, nat>, bound: nat, i: nat, first: nat)
    requires Ranked(graph, rank) && Below(dependencies, rank, bound)
    requires i <= first < |graph|
    requires graph[first].key in dependencies && graph[first].dependencies == []
    requires forall j :: i <= j < first ==> graph[j].key !in dependencies
    ensures TraverseUsedFrom(dependencies, graph, i, rank, bound) == dependencies
    decreases first - i
  {
    if i < first {
      TraverseUsedEarlyReturn(dependencies, graph, rank, bound, i + 1, first);
    }
  }

  /** `traverse_used` over the graph: examines each record in turn, against
      the list as it has grown so far. */
  method TraverseUsed(dependencies: seq<string>, graph: Graph, ghost rank: map<string, nat>, ghost bound: nat) returns (r: seq<string>)
    requires Ranked(graph, rank) && Below(dependencies, rank, bound)
    ensures r == TraverseUsedFrom(dependencies, graph, 0, rank, bound)
    decreases bound
  {
    r := dependencies;
    for i := 0 to |graph|
      invariant Below(r, rank, bound)
      invariant TraverseUsedFrom(r, graph, i, rank, bound) == TraverseUsedFrom(dependencies, graph, 0, rank, bound)
    {
      var package := graph[i];
      if package.key in r {
        var subDependencies := package.dependencies;
        if |subDependencies| == 0 {
          return;
        }
        var expanded := TraverseUsed(subDependencies, graph, rank, rank[package.key]);
        r := r + expanded + expanded;
      }
    }
  }

  /** The argument of the first recursive call `traverse_used` makes when
      started at position `i`: the dependencies of the first record whose
      key is in the list, unless that record has none (the walk then ends)
      or there is no such record. The list cannot change before that call. */
  function FirstRecursiveCall(dependencies: seq<string>, graph: Graph, i: nat): (r: Option<seq<string>>)
    requires i <= |graph|
    ensures r.Some? ==> r.value != []
    ensures r.Some? ==>
      exists j :: i <= j < |graph| && graph[j].key in dependencies && graph[j].dependencies == r.value &&
        forall k :: i <= k < j ==> graph[k].key !in dependencies
    decreases |graph| - i
  {
    if i == |graph| then None
    else if graph[i].key !in dependencies then FirstRecursiveCall(dependencies, graph, i + 1)
    else if graph[i].dependencies == [] then None
    else Some(graph[i].dependencies)
  }

  /** `FirstRecursiveCall` describes the walk itself. Let `j` be the first
      position from `i` on whose key is listed (or the end of the graph).
      When there is no recursive call, the walk returns the list unchanged;
      otherwise it is the walk that resumes after `j` with the expansion of
      `j`'s dependencies appended twice. */
  lemma {:induction false} FirstRecursiveCallStep(dependencies: seq<string>, graph: Graph, rank: map<string, nat>, bound: nat, i: nat, j: nat)
    requires Ranked(graph, rank) && Below(dependencies, rank, bound)
    requires i <= j <= |graph|
    requires forall k :: i <= k < j ==> graph[k].key !in dependencies
    requires j < |graph| ==> graph[j].key in dependencies
    ensures j == |graph| || graph[j].dependencies == [] ==>
      && FirstRecursiveCall(dependencies, graph, i) == None
      && TraverseUsedFrom(dependencies, graph, i, rank, bound) == dependencies
    ensures j < |graph| && graph[j].dependencies != [] ==>
      var expanded := TraverseUsedFrom(graph[j].dependencies, graph, 0, rank, rank[graph[j].key]);
      && FirstRecursiveCall(dependencies, graph, i) == Some(graph[j].dependencies)
      && TraverseUsedFrom(dependencies, graph, i, rank, bound) == TraverseUsedFrom(dependencies + expanded + expanded, graph, j + 1, rank, bound)
    decreases j - i
  {
    if i < j {
      FirstRecursiveCallStep(dependencies, graph, rank, bound, i + 1, j);
    }
  }

  /** On the cycle a -> b -> a, `traverse_used(["a"])` first calls
      `traverse_used(["b"])`, which first calls `traverse_used(["a"])`
      again: the recursion never returns. No rank exists for this graph,
      so the precondition of the walk excludes it. */
  lemma CycleNeverReturns(rank: map<string, nat>)
    ensures var graph := [Package("a", ["b"]), Package("b", ["a"])];
      && FirstRecursiveCall(["a"], graph, 0) == Some(["b"])
      && FirstRecursiveCall(["b"], graph, 0) == Some(["a"])
      && !Ranked(graph, rank)
  {
    var graph := [Package("a", ["b"]), Package("b", ["a"])];
    assert "b" != "a";
    assert graph[0].key == "a" && "b" in graph[0].dependencies;
    assert graph[1].key == "b" && "a" in graph[1].dependencies;
  }

  /** The walk from `a` over a -> b -> c collects b and c. */
  lemma ChainExample()
    ensures var graph := [Package("a", ["b"]), Package("b", ["c"]), Package("c", [])];
      var rank := map["a" := 2, "b" := 1, "c" := 0];
      && Ranked(graph, rank)
      && TraverseUsedFrom(["a"], graph, 0, rank, 3) == ["a", "b", "c", "c", "b", "c", "c", "c", "c"]
  {
    var graph := [Package("a", ["b"]), Package("b", ["c"]), Package("c", [])];
    var rank := map["a" := 2, "b" := 1, "c" := 0];
    assert TraverseUsedFrom(["c"], graph, 0, rank, 1) == ["c"];
    assert TraverseUsedFrom(["b"], graph, 0, rank, 2) == ["b", "c", "c"];
  }

  /** Once a listed record without dependencies is met, later listed records
      are not expanded: from `[x, a]`, `a`'s dependency `b` is never added. */
  lemma EarlyReturnExample()
    ensures var graph := [Package("x", []), Package("a", ["b"]), Package("b", [])];
      var rank := map["x" := 0, "a" := 1, "b" := 0];
      && Ranked(graph, rank)
      && TraverseUsedFrom(["x", "a"], graph, 0, rank, 2) == ["x", "a"]
  {
  }
}
