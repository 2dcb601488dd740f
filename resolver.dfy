/** `determine_unused`: which installed top-level packages are never imported,
    given the imports found, the module index and the dependency graph. */
module Resolver {
  import opened Seqs
  import opened DependencyWalk
  import ModuleIndex

  /** What the loop carries from one graph record to the next. `used` starts
      as the list of imports itself: appending to `used` appends to the
      imports, so every membership test sees everything appended so far. */
  datatype Progress = Progress(used: seq<string>, unused: seq<string>)

  /** The names a package is expected to be imported under: its entry in the
      module index, or its own key when the index has no entry for it. */
  function ModuleNames(modules: ModuleIndex.Index, key: string): (r: seq<string>)
    ensures key !in modules ==> r == [key]
    ensures r == [] <==> key in modules && modules[key] == []
  {
    if key in modules then modules[key] else [key]
  }

  /** The inner loop for record `i`, from its `j`-th module name on. A name
      not yet used records the key as unused and moves on; the first name
      that is used records the key, and the expansion of its dependencies
      (twice, as the walk returns the list it then appends again), as used,
      and ends the loop. */
  function CheckNames(names: seq<string>, j: nat, graph: Graph, i: nat, ghost rank: map<string, nat>, st: Progress): (r: Progress)
    requires i < |graph| && j <= |names| && Ranked(graph, rank)
    ensures st.used <= r.used && st.unused <= r.unused
    ensures forall n :: |st.unused| <= n < |r.unused| ==> r.unused[n] == graph[i].key && j < |names|
    decreases |names| - j
  {
    if j == |names| then st
    else if names[j] !in st.used then
      CheckNames(names, j + 1, graph, i, rank, st.(unused := st.unused + [graph[i].key]))
    else
      var used := st.used + [graph[i].key];
      var deps := graph[i].dependencies;
      if deps == [] then st.(used := used)
      else
        var expanded := TraverseUsedFrom(deps, graph, 0, rank, rank[graph[i].key]);
        st.(used := used + expanded + expanded)
  }

  /** The state of `determine_unused` once the first `i` records of the graph
      have been examined. */
  function ProgressAfter(modules: ModuleIndex.Index, imports: seq<string>, graph: Graph, i: nat, ghost rank: map<string, nat>): (r: Progress)
    requires i <= |graph| && Ranked(graph, rank)
    ensures imports <= r.used
    ensures forall n :: 0 <= n < |r.unused| ==>
      exists j :: 0 <= j < i && graph[j].key == r.unused[n] && ModuleNames(modules, graph[j].key) != []
    decreases i
  {
    if i == 0 then Progress(imports, [])
    else
      var before := ProgressAfter(modules, imports, graph, i - 1, rank);
      var r := CheckNames(ModuleNames(modules, graph[i - 1].key), 0, graph, i - 1, rank, before);
      assert forall n :: |before.unused| <= n < |r.unused| ==> r.unused[n] == graph[i - 1].key;
      r
  }

  /** The result of `determine_unused`: the distinct keys recorded as unused
      that never made it into the used list. */
  function Unused(modules: ModuleIndex.Index, imports: seq<string>, graph: Graph, ghost rank: map<string, nat>): (r: seq<string>)
    requires Ranked(graph, rank)
    ensures NoDuplicates(r)
    ensures forall u :: u in r ==> u !in imports
    ensures forall u :: u in r ==>
      exists j :: 0 <= j < |graph| && graph[j].key == u && ModuleNames(modules, u) != []
  {
    var final := ProgressAfter(modules, imports, graph, |graph|, rank);
    var r := Dedupe(Without(final.unused, final.used));
    assert forall u :: u in r ==> u in final.unused && u !in final.used;
    r
  }

  /** The state only grows as more records are examined. */
  lemma {:induction false} ProgressGrows(modules: ModuleIndex.Index, imports: seq<string>, graph: Graph, rank: map<string, nat>, i: nat, k: nat)
    requires i <= k <= |graph| && Ranked(graph, rank)
    ensures ProgressAfter(modules, imports, graph, i, rank).used <= ProgressAfter(modules, imports, graph, k, rank).used
    ensures ProgressAfter(modules, imports, graph, i, rank).unused <= ProgressAfter(modules, imports, graph, k, rank).unused
    decreases k - i
  {
    if i < k {
      ProgressGrows(modules, imports, graph, rank, i + 1, k);
      ProgressStep(modules, imports, graph, rank, i);
      var here := ProgressAfter(modules, imports, graph, i, rank);
      var next := ProgressAfter(modules, imports, graph, i + 1, rank);
      var last := ProgressAfter(modules, imports, graph, k, rank);
      PrefixTransitive(here.used, next.used, last.used);
      PrefixTransitive(here.unused, next.unused, last.unused);
    }
  }

  /** Examining one more record only appends to the state. */
  lemma ProgressStep(modules: ModuleIndex.Index, imports: seq<string>, graph: Graph, rank: map<string, nat>, i: nat)
    requires i < |graph| && Ranked(graph, rank)
    ensures ProgressAfter(modules, imports, graph, i, rank).used <= ProgressAfter(modules, imports, graph, i + 1, rank).used
    ensures ProgressAfter(modules, imports, graph, i, rank).unused <= ProgressAfter(modules, imports, graph, i + 1, rank).unused
  {
  }

  lemma PrefixTransitive(a: seq<string>, b: seq<string>, c: seq<string>)
    requires a <= b && b <= c
    ensures a <= c
  {
    assert b == c[..|b|];
    assert a == b[..|a|];
  }

  /** When one of the names from position `j` on is already used, the record's
      key and the whole expansion of its dependencies become used. */
  lemma {:induction false} CheckNamesMarksUsed(names: seq<string>, j: nat, graph: Graph, i: nat, rank: map<string, nat>, st: Progress, t: nat)
    requires i < |graph| && j <= t < |names| && Ranked(graph, rank)
    requires names[t] in st.used
    ensures graph[i].key in CheckNames(names, j, graph, i, rank, st).used
    ensures graph[i].dependencies != [] ==>
      forall k :: k in TraverseUsedFrom(graph[i].dependencies, graph, 0, rank, rank[graph[i].key]) ==>
        k in CheckNames(names, j, graph, i, rank, st).used
    decreases |names| - j
  {
    if names[j] !in st.used {
      CheckNamesMarksUsed(names, j + 1, graph, i, rank, st.(unused := st.unused + [graph[i].key]), t);
    }
  }

  /** A package one of whose module names is imported is never reported, and
      neither is anything the walk from its dependencies reaches: in
      particular none of its direct dependencies. */
  lemma ImportedPackageNotReported(modules: ModuleIndex.Index, imports: seq<string>, graph: Graph, rank: map<string, nat>, i: nat, t: nat)
    requires Ranked(graph, rank) && i < |graph|
    requires t < |ModuleNames(modules, graph[i].key)| && ModuleNames(modules, graph[i].key)[t] in imports
    ensures graph[i].key !in Unused(modules, imports, graph, rank)
    ensures forall k :: k in graph[i].dependencies ==> k !in Unused(modules, imports, graph, rank)
    ensures graph[i].dependencies != [] ==>
      forall k :: k in TraverseUsedFrom(graph[i].dependencies, graph, 0, rank, rank[graph[i].key]) ==>
        k !in Unused(modules, imports, graph, rank)
  {
    var names := ModuleNames(modules, graph[i].key);
    var before := ProgressAfter(modules, imports, graph, i, rank);
    var after := ProgressAfter(modules, imports, graph, i + 1, rank);
    var final := ProgressAfter(modules, imports, graph, |graph|, rank);
    ProgressGrows(modules, imports, graph, rank, i, |graph|);
    ProgressGrows(modules, imports, graph, rank, i + 1, |graph|);
    assert names[t] in before.used;
    CheckNamesMarksUsed(names, 0, graph, i, rank, before, t);
    assert graph[i].key in after.used;
    UsedNotReported(modules, imports, graph, rank, graph[i].key);
    if graph[i].dependencies != [] {
      var expanded := TraverseUsedFrom(graph[i].dependencies, graph, 0, rank, rank[graph[i].key]);
      forall k | k in expanded
        ensures k !in Unused(modules, imports, graph, rank)
      {
        assert k in after.used;
        UsedNotReported(modules, imports, graph, rank, k);
      }
    }
  }

  /** Nothing in the final used list is reported. */
  lemma UsedNotReported(modules: ModuleIndex.Index, imports: seq<string>, graph: Graph, rank: map<string, nat>, k: string)
    requires Ranked(graph, rank)
    requires k in ProgressAfter(modules, imports, graph, |graph|, rank).used
    ensures k !in Unused(modules, imports, graph, rank)
  {
  }

  /** A package with module names whose key is missing from the final used
      list is reported: its first module name cannot have been used when its
      record was examined, or the key would have been marked used. */
  lemma UnmatchedPackageReported(modules: ModuleIndex.Index, imports: seq<string>, graph: Graph, rank: map<string, nat>, i: nat)
    requires Ranked(graph, rank) && i < |graph|
    requires ModuleNames(modules, graph[i].key) != []
    requires graph[i].key !in ProgressAfter(modules, imports, graph, |graph|, rank).used
    ensures graph[i].key in Unused(modules, imports, graph, rank)
  {
    var names := ModuleNames(modules, graph[i].key);
    var before := ProgressAfter(modules, imports, graph, i, rank);
    var after := ProgressAfter(modules, imports, graph, i + 1, rank);
    var final := ProgressAfter(modules, imports, graph, |graph|, rank);
    ProgressGrows(modules, imports, graph, rank, i, |graph|);
    ProgressGrows(modules, imports, graph, rank, i + 1, |graph|);
    assert names[0] !in before.used by {
      if names[0] in before.used {
        CheckNamesMarksUsed(names, 0, graph, i, rank, before, 0);
      }
    }
    var marked := before.(unused := before.unused + [graph[i].key]);
    assert after == CheckNames(names, 1, graph, i, rank, marked);
    assert marked.unused <= after.unused;
    assert after.unused[|before.unused|] == graph[i].key;
    assert graph[i].key in final.unused;
  }

  /** Exactly the graph keys with a non-empty module-name list that never
      became used are reported. */
  lemma ReportedExactly(modules: ModuleIndex.Index, imports: seq<string>, graph: Graph, rank: map<string, nat>, i: nat)
    requires Ranked(graph, rank) && i < |graph|
    ensures graph[i].key in Unused(modules, imports, graph, rank) <==>
      ModuleNames(modules, graph[i].key) != [] && graph[i].key !in ProgressAfter(modules, imports, graph, |graph|, rank).used
  {
    var key := graph[i].key;
    if ModuleNames(modules, key) != [] && key !in ProgressAfter(modules, imports, graph, |graph|, rank).used {
      UnmatchedPackageReported(modules, imports, graph, rank, i);
    } else if key in ProgressAfter(modules, imports, graph, |graph|, rank).used {
      UsedNotReported(modules, imports, graph, rank, key);
    }
  }

  /** A package the module index has no entry for is checked under its own
      key: it is reported exactly when that key is neither imported nor made
      used by the time the loop ends. */
  lemma UnindexedPackageCheckedByKey(modules: ModuleIndex.Index, imports: seq<string>, graph: Graph, rank: map<string, nat>, i: nat)
    requires Ranked(graph, rank) && i < |graph| && graph[i].key !in modules
    ensures graph[i].key in imports ==> graph[i].key !in Unused(modules, imports, graph, rank)
    ensures graph[i].key in Unused(modules, imports, graph, rank) <==>
      graph[i].key !in ProgressAfter(modules, imports, graph, |graph|, rank).used
  {
    var key := graph[i].key;
    if key in imports {
      ImportedPackageNotReported(modules, imports, graph, rank, i, 0);
    }
    if key !in ProgressAfter(modules, imports, graph, |graph|, rank).used {
      UnmatchedPackageReported(modules, imports, graph, rank, i);
    } else {
      UsedNotReported(modules, imports, graph, rank, key);
    }
  }

  /** A package whose module index entry is empty is never reported. */
  lemma EmptyModuleListNeverReported(modules: ModuleIndex.Index, imports: seq<string>, graph: Graph, rank: map<string, nat>, key: string)
    requires Ranked(graph, rank)
    requires key in modules && modules[key] == []
    ensures key !in Unused(modules, imports, graph, rank)
  {
  }

  /** `determine_unused` over the graph, with the inner loop over each
      package's module names and its early exit. */
  method DetermineUnused(modules: ModuleIndex.Index, imports: seq<string>, graph: Graph, ghost rank: map<string, nat>) returns (result: seq<string>)
    requires Ranked(graph, rank)
    ensures result == Unused(modules, imports, graph, rank)
  {
    var unused: seq<string> := [];
    var used := imports;
    for i := 0 to |graph|
      invariant Progress(used, unused) == ProgressAfter(modules, imports, graph, i, rank)
    {
      var key := graph[i].key;
      var deps := graph[i].dependencies;
      var moduleNames := ModuleNames(modules, key);
      ghost var after := ProgressAfter(modules, imports, graph, i + 1, rank);
      for j := 0 to |moduleNames|
        invariant CheckNames(moduleNames, j, graph, i, rank, Progress(used, unused)) == after
      {
        if moduleNames[j] !in used {
          unused := unused + [key];
        } else {
          used := used + [key];
          if |deps| > 0 {
            var dependencies := deps;
            var expanded := TraverseUsed(dependencies, graph, rank, rank[key]);
            used := used + expanded + expanded;
          }
          assert Progress(used, unused) == after;
          break;
        }
      }
    }
    result := Dedupe(Without(unused, used));
  }

  /** `requests` is imported and depends on `urllib3`; `six` is installed but
      never imported: only `six` is reported. */
  lemma RequestsExample()
    ensures var modules := map["requests" := ["requests"], "six" := ["six"], "urllib3" := ["urllib3"]];
      var graph := [Package("requests", ["urllib3"]), Package("six", []), Package("urllib3", [])];
      var rank := map["requests" := 1, "six" := 0, "urllib3" := 0];
      && Ranked(graph, rank)
      && Unused(modules, ["requests"], graph, rank) == ["six"]
  {
    var modules := map["requests" := ["requests"], "six" := ["six"], "urllib3" := ["urllib3"]];
    var graph := [Package("requests", ["urllib3"]), Package("six", []), Package("urllib3", [])];
    var rank := map["requests" := 1, "six" := 0, "urllib3" := 0];
    var imports := ["requests"];
    RequestsFirstRecord(modules, graph, rank);
    var used := ["requests", "requests", "urllib3", "urllib3"];
    assert "six" !in used;
    assert ProgressAfter(modules, imports, graph, 2, rank) == Progress(used, ["six"]);
    assert ProgressAfter(modules, imports, graph, 3, rank) == Progress(used + ["urllib3"], ["six"]);
    assert Without(["six"], used + ["urllib3"]) == ["six"];
  }

  /** The first record of that example: `requests` is imported, so it is
      found used together with the expansion `[urllib3]` of its dependencies,
      appended twice. */
  lemma RequestsFirstRecord(modules: ModuleIndex.Index, graph: Graph, rank: map<string, nat>)
    requires modules == map["requests" := ["requests"], "six" := ["six"], "urllib3" := ["urllib3"]]
    requires graph == [Package("requests", ["urllib3"]), Package("six", []), Package("urllib3", [])]
    requires rank == map["requests" := 1, "six" := 0, "urllib3" := 0]
    ensures Ranked(graph, rank)
    ensures ProgressAfter(modules, ["requests"], graph, 1, rank) == Progress(["requests", "requests", "urllib3", "urllib3"], [])
  {
    assert Ranked(graph, rank);
    TraverseUsedEarlyReturn(["urllib3"], graph, rank, 1, 0, 2);
  }

  /** The early return of the walk can get a transitive dependency reported.
      `requests` is imported and depends on `certifi` and `beautifulsoup4`
      (imported as `bs4`), which depends on `soupsieve`. The walk from
      `[certifi, beautifulsoup4]` returns at `certifi`, which has no
      dependencies, before `beautifulsoup4` is expanded; `bs4` itself is
      never imported, so `soupsieve` is never used and is reported. */
  lemma EarlyReturnReportsTransitiveDependency(modules: ModuleIndex.Index, graph: Graph, rank: map<string, nat>)
    requires modules == map["beautifulsoup4" := ["bs4"]]
    requires graph == [Package("requests", ["certifi", "beautifulsoup4"]), Package("certifi", []),
                       Package("beautifulsoup4", ["soupsieve"]), Package("soupsieve", [])]
    requires rank == map["requests" := 2, "certifi" := 0, "beautifulsoup4" := 1, "soupsieve" := 0]
    ensures Ranked(graph, rank)
    ensures DependsOn(graph, "requests", "beautifulsoup4") && DependsOn(graph, "beautifulsoup4", "soupsieve")
    ensures Unused(modules, ["requests"], graph, rank) == ["soupsieve"]
  {
    EarlyReturnLastRecords(modules, graph, rank);
    var used := ["requests", "requests", "certifi", "beautifulsoup4", "certifi", "beautifulsoup4", "certifi"];
    assert graph[0].key == "requests" && "beautifulsoup4" in graph[0].dependencies;
    assert graph[2].key == "beautifulsoup4" && "soupsieve" in graph[2].dependencies;
    UsedParentLeavesDependency(used, "beautifulsoup4", "soupsieve");
  }

  /** Of a parent found used and a dependency not found used, only the
      dependency is left once the used names are taken out. */
  lemma UsedParentLeavesDependency(used: seq<string>, parent: string, dependency: string)
    requires parent in used && dependency !in used
    ensures Without([parent, dependency], used) == [dependency]
  {
    assert [parent, dependency][..1] == [parent];
    assert [parent][..0] == [];
  }

  /** The first record of that example: `requests` is imported, so it is
      found used, and the walk of its dependencies stops at `certifi`; the
      walk's result is the dependency list itself, appended twice. */
  lemma EarlyReturnRequestsRecord(modules: ModuleIndex.Index, graph: Graph, rank: map<string, nat>)
    requires modules == map["beautifulsoup4" := ["bs4"]]
    requires graph == [Package("requests", ["certifi", "beautifulsoup4"]), Package("certifi", []),
                       Package("beautifulsoup4", ["soupsieve"]), Package("soupsieve", [])]
    requires rank == map["requests" := 2, "certifi" := 0, "beautifulsoup4" := 1, "soupsieve" := 0]
    ensures Ranked(graph, rank)
    ensures ProgressAfter(modules, ["requests"], graph, 1, rank) ==
      Progress(["requests", "requests", "certifi", "beautifulsoup4", "certifi", "beautifulsoup4"], [])
  {
    EarlyReturnGraphRanked(graph, rank);
    var deps := ["certifi", "beautifulsoup4"];
    assert "requests" !in deps;
    TraverseUsedEarlyReturn(deps, graph, rank, 2, 0, 1);
  }

  /** The second record: `certifi` is already in the used list, so it is
      marked used again and, having no dependencies, adds nothing else. */
  lemma EarlyReturnCertifiRecord(modules: ModuleIndex.Index, graph: Graph, rank: map<string, nat>)
    requires modules == map["beautifulsoup4" := ["bs4"]]
    requires graph == [Package("requests", ["certifi", "beautifulsoup4"]), Package("certifi", []),
                       Package("beautifulsoup4", ["soupsieve"]), Package("soupsieve", [])]
    requires rank == map["requests" := 2, "certifi" := 0, "beautifulsoup4" := 1, "soupsieve" := 0]
    ensures Ranked(graph, rank)
    ensures ProgressAfter(modules, ["requests"], graph, 2, rank) ==
      Progress(["requests", "requests", "certifi", "beautifulsoup4", "certifi", "beautifulsoup4", "certifi"], [])
  {
    EarlyReturnRequestsRecord(modules, graph, rank);
    assert "certifi" in ["requests", "requests", "certifi", "beautifulsoup4", "certifi", "beautifulsoup4"];
  }

  /** The last two records: neither `beautifulsoup4` (whose only name `bs4` is
      never used) nor `soupsieve` is found used, so both are recorded unused. */
  lemma EarlyReturnLastRecords(modules: ModuleIndex.Index, graph: Graph, rank: map<string, nat>)
    requires modules == map["beautifulsoup4" := ["bs4"]]
    requires graph == [Package("requests", ["certifi", "beautifulsoup4"]), Package("certifi", []),
                       Package("beautifulsoup4", ["soupsieve"]), Package("soupsieve", [])]
    requires rank == map["requests" := 2, "certifi" := 0, "beautifulsoup4" := 1, "soupsieve" := 0]
    ensures Ranked(graph, rank)
    ensures ProgressAfter(modules, ["requests"], graph, 4, rank) ==
      Progress(["requests", "requests", "certifi", "beautifulsoup4", "certifi", "beautifulsoup4", "certifi"], ["beautifulsoup4", "soupsieve"])
  {
    var imports := ["requests"];
    EarlyReturnCertifiRecord(modules, graph, rank);
    var used := ["requests", "requests", "certifi", "beautifulsoup4", "certifi", "beautifulsoup4", "certifi"];
    assert "bs4" !in used;
    assert ProgressAfter(modules, imports, graph, 3, rank) == Progress(used, ["beautifulsoup4"]);
    assert "soupsieve" !in used;
  }

  /** The ranks of that example fall along every dependency edge. */
  lemma EarlyReturnGraphRanked(graph: Graph, rank: map<string, nat>)
    requires graph == [Package("requests", ["certifi", "beautifulsoup4"]), Package("certifi", []),
                       Package("beautifulsoup4", ["soupsieve"]), Package("soupsieve", [])]
    requires rank == map["requests" := 2, "certifi" := 0, "beautifulsoup4" := 1, "soupsieve" := 0]
    ensures Ranked(graph, rank)
  {
  }
}
