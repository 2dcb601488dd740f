/** The module index: which top-level module names each installed
    distribution exposes, read off the paths of the files it installed. */
module ModuleIndex {
  import opened Text
  import opened Seqs
  import opened Wrappers

  /** An installed distribution: its package key and the paths of the files
      it installed, as the distribution database lists them. */
  datatype Distribution = Distribution(key: string, files: seq<string>)

  /** The index built from the distributions: package key to module names. */
  type Index = map<string, seq<string>>

  /** A path without its `.py` suffix. */
  function Stem(path: string): (r: string)
    requires EndsWith(path, ".py")
    ensures path == r + ".py"
  {
    path[..|path| - 3]
  }

  /** The segments of a `.py` path: the stem split on the platform
      separator, or on `/` when the separator does not occur in it. */
  function PathParts(path: string, sep: char): (r: seq<string>)
    requires EndsWith(path, ".py")
    ensures |r| >= 1
    ensures |r| == 1 ==> r[0] == Stem(path) && sep !in Stem(path) && '/' !in Stem(path)
  {
    var parts := Split(Stem(path), sep);
    SplitHasTwoParts(Stem(path), sep);
    if |parts| == 1 then
      SplitHasTwoParts(Stem(path), '/');
      JoinHead(Split(Stem(path), '/'), '/');
      Split(Stem(path), '/')
    else parts
  }

  /** The last segment of a `.py` path. */
  function LastPart(path: string, sep: char): string
    requires EndsWith(path, ".py")
  {
    var parts := PathParts(path, sep);
    parts[|parts| - 1]
  }

  /** A file the indexer can look at without failing: a `.py` file whose
      only segment is `__init__` makes the indexer read a parent segment
      that does not exist. */
  predicate Indexable(path: string, sep: char)
  {
    EndsWith(path, ".py") ==> |PathParts(path, sep)| >= 2 || LastPart(path, sep) != "__init__"
  }

  /** With either platform separator, the only path the indexer cannot
      look at is a bare `__init__.py`. */
  lemma IndexableExactly(path: string, sep: char)
    requires sep == '/' || sep == '\\'
    ensures Indexable(path, sep) <==> path != "__init__.py"
  {
    if path == "__init__.py" {
      assert EndsWith(path, ".py");
      var stem := Stem(path);
      assert stem == "__init__";
      assert sep !in stem && '/' !in stem;
      SplitHasTwoParts(stem, sep);
      SplitHasTwoParts(stem, '/');
    } else if EndsWith(path, ".py") && |PathParts(path, sep)| == 1 {
      assert path == Stem(path) + ".py";
    }
  }

  /** A last segment with one leading underscore names an internal module. */
  predicate IsInternal(last: string)
  {
    StartsWith(last, "_") && !StartsWith(last, "__")
  }

  /** A segment is internal when its first character is an underscore and
      its second (if any) is not. */
  lemma IsInternalByCharacters(last: string)
    ensures IsInternal(last) <==> |last| >= 1 && last[0] == '_' && (|last| == 1 || last[1] != '_')
  {
    StartsWithChar(last, '_');
    if |last| >= 2 && last[1] != '_' {
      assert last[..2][1] != "__"[1];
    }
  }

  /** The module name one installed file contributes: the parent segment of
      an `__init__.py` whose parent is not `tests`; nothing for any other
      file, internal files included. */
  function ExposedModule(path: string, sep: char): (r: Option<string>)
    requires Indexable(path, sep)
    ensures r.Some? ==> EndsWith(path, ".py") && LastPart(path, sep) == "__init__"
    ensures r.Some? ==> r.value != "tests" && r.value in PathParts(path, sep)
  {
    if !EndsWith(path, ".py") then None
    else
      var parts := PathParts(path, sep);
      var last := parts[|parts| - 1];
      if IsInternal(last) then None
      else if last == "__init__" && parts[|parts| - 2] != "tests" then Some(parts[|parts| - 2])
      else None
  }

  /** Records what one file of the distribution `key` contributes. */
  function AddFile(index: Index, key: string, path: string, sep: char): Index
    requires Indexable(path, sep)
  {
    match ExposedModule(path, sep)
    case None => index
    case Some(moduleName) => index[key := (if key in index then index[key] else []) + [moduleName]]
  }

  /** Recording a file creates the package's entry when the file exposes a
      module and the entry is missing, appends the module to it, and leaves
      every other entry as it was. */
  lemma AddFileSpec(index: Index, key: string, path: string, sep: char)
    requires Indexable(path, sep)
    ensures var r := AddFile(index, key, path, sep);
      && (forall k :: k != key ==> (k in r <==> k in index) && (k in r ==> r[k] == index[k]))
      && (key in r <==> key in index || ExposedModule(path, sep).Some?)
      && (key in r ==> r[key] == (if key in index then index[key] else []) + ExposedList(path, sep))
  {
  }

  /** Every file of the distributions, in the order the indexer visits them. */
  predicate AllIndexable(dists: seq<Distribution>, sep: char)
  {
    forall i, j :: 0 <= i < |dists| && 0 <= j < |dists[i].files| ==> Indexable(dists[i].files[j], sep)
  }

  /** The index after the first `n` files of a distribution. */
  function IndexFiles(index: Index, key: string, files: seq<string>, sep: char): Index
    requires forall j :: 0 <= j < |files| ==> Indexable(files[j], sep)
  {
    if files == [] then index
    else AddFile(IndexFiles(index, key, files[..|files| - 1], sep), key, files[|files| - 1], sep)
  }

  /** The index built from a sequence of distributions, one after the other. */
  function BuildIndex(dists: seq<Distribution>, sep: char): Index
    requires AllIndexable(dists, sep)
  {
    if dists == [] then map[]
    else
      var d := dists[|dists| - 1];
      IndexFiles(BuildIndex(dists[..|dists| - 1], sep), d.key, d.files, sep)
  }

  /** `get_modules` over the distributions and their installed files: the
      nested loop that fills the index in place. */
  method GetModules(dists: seq<Distribution>, sep: char) returns (modules: Index)
    requires AllIndexable(dists, sep)
    ensures modules == BuildIndex(dists, sep)
  {
    modules := map[];
    for i := 0 to |dists|
      invariant modules == BuildIndex(dists[..i], sep)
    {
      var dist := dists[i];
      assert dists[..i + 1][..i] == dists[..i];
      ghost var before := BuildIndex(dists[..i], sep);
      for j := 0 to |dist.files|
        invariant modules == IndexFiles(before, dist.key, dist.files[..j], sep)
      {
        IndexFilesSnoc(before, dist.key, dist.files, j, sep);
        modules := RecordFile(modules, dist.key, dist.files[j], sep);
      }
      assert dist.files[..|dist.files|] == dist.files;
    }
    assert dists[..|dists|] == dists;
  }

  /** The body of the indexer's loop over the files of distribution `key`:
      internal files are skipped, and the parent of an `__init__.py` outside
      `tests` is appended to the entry, which is created empty first when
      missing. */
  method RecordFile(modules: Index, key: string, filename: string, sep: char) returns (r: Index)
    requires Indexable(filename, sep)
    ensures r == AddFile(modules, key, filename, sep)
  {
    r := modules;
    if EndsWith(filename, ".py") {
      var parts := PathParts(filename, sep);
      if IsInternal(parts[|parts| - 1]) {
        return;
      } else if parts[|parts| - 1] == "__init__" && parts[|parts| - 2] != "tests" {
        var moduleName := parts[|parts| - 2];
        if key !in r {
          r := r[key := []];
        }
        r := r[key := r[key] + [moduleName]];
      }
    }
  }

  /** Indexing one more file of a list records that file on top of the rest. */
  lemma IndexFilesSnoc(index: Index, key: string, files: seq<string>, j: nat, sep: char)
    requires j < |files| && forall k :: 0 <= k < |files| ==> Indexable(files[k], sep)
    ensures IndexFiles(index, key, files[..j + 1], sep) == AddFile(IndexFiles(index, key, files[..j], sep), key, files[j], sep)
  {
    assert files[..j + 1][..j] == files[..j];
  }

  /** What one file contributes, as a list of zero or one names (files the
      indexer cannot look at never reach this, see `AllIndexable`). */
  function ExposedList(path: string, sep: char): (r: seq<string>)
    ensures Indexable(path, sep) ==> forall name :: name in r <==> ExposedModule(path, sep) == Some(name)
  {
    if !Indexable(path, sep) then []
    else
      match ExposedModule(path, sep)
      case None => []
      case Some(name) => [name]
  }

  /** Reference definition: the names a list of files contributes, in order. */
  function FileModules(files: seq<string>, sep: char): (r: seq<string>)
    requires forall j :: 0 <= j < |files| ==> Indexable(files[j], sep)
    ensures forall name :: name in r <==> exists j :: 0 <= j < |files| && ExposedModule(files[j], sep) == Some(name)
  {
    var f := path => ExposedList(path, sep);
    forall name
      ensures name in FlatMap(f, files) <==> exists j :: 0 <= j < |files| && name in f(files[j])
    {
      FlatMapMember(f, files, name);
    }
    FlatMap(f, files)
  }

  /** Reference definition: the names the distributions with package key
      `key` contribute, in the order the indexer meets them. */
  function KeyModules(dists: seq<Distribution>, key: string, sep: char): (r: seq<string>)
    requires AllIndexable(dists, sep)
    ensures forall name :: name in r <==>
      exists i, j :: 0 <= i < |dists| && dists[i].key == key && 0 <= j < |dists[i].files| && ExposedModule(dists[i].files[j], sep) == Some(name)
  {
    var f := (d: Distribution) => if d.key == key && forall j :: 0 <= j < |d.files| ==> Indexable(d.files[j], sep) then FileModules(d.files, sep) else [];
    forall name
      ensures name in FlatMap(f, dists) <==> exists i :: 0 <= i < |dists| && name in f(dists[i])
    {
      FlatMapMember(f, dists, name);
    }
    FlatMap(f, dists)
  }

  /** Indexing the files of one distribution appends their names to that
      distribution's entry and leaves every other entry as it was. */
  lemma {:induction false} IndexFilesSpec(index: Index, key: string, files: seq<string>, sep: char, k: string)
    requires forall j :: 0 <= j < |files| ==> Indexable(files[j], sep)
    ensures var old_ := if k in index then index[k] else [];
      var added := if k == key then FileModules(files, sep) else [];
      var r := IndexFiles(index, key, files, sep);
      && (k in r <==> k in index || added != [])
      && (k in r ==> r[k] == old_ + added)
    decreases |files|
  {
    if files != [] {
      var init := files[..|files| - 1];
      IndexFilesSpec(index, key, init, sep, k);
      AddFileSpec(IndexFiles(index, key, init, sep), key, files[|files| - 1], sep);
      FileModulesSnoc(files, sep);
    }
  }

  /** The names of a list of files are those of all but its last file,
      followed by those of the last file. */
  lemma FileModulesSnoc(files: seq<string>, sep: char)
    requires files != [] && forall j :: 0 <= j < |files| ==> Indexable(files[j], sep)
    ensures FileModules(files, sep) == FileModules(files[..|files| - 1], sep) + ExposedList(files[|files| - 1], sep)
  {
  }

  /** The index holds a key exactly when the files of that package expose
      some module, and then holds all of those names, in order, duplicates
      included: a key is never present with an empty list. */
  lemma {:induction false} BuildIndexSpec(dists: seq<Distribution>, sep: char, key: string)
    requires AllIndexable(dists, sep)
    ensures key in BuildIndex(dists, sep) <==> KeyModules(dists, key, sep) != []
    ensures key in BuildIndex(dists, sep) ==> BuildIndex(dists, sep)[key] == KeyModules(dists, key, sep)
    decreases |dists|
  {
    if dists != [] {
      var init := dists[..|dists| - 1];
      var d := dists[|dists| - 1];
      BuildIndexSpec(init, sep, key);
      IndexFilesSpec(BuildIndex(init, sep), d.key, d.files, sep, key);
    }
  }

  /** Every entry of the index is non-empty, and every name in it comes from
      an `__init__.py` that the package with that key installed. */
  lemma BuildIndexSound(dists: seq<Distribution>, sep: char, key: string, name: string)
    requires AllIndexable(dists, sep)
    requires key in BuildIndex(dists, sep)
    ensures |BuildIndex(dists, sep)[key]| > 0
    ensures name in BuildIndex(dists, sep)[key] ==>
      exists i, j :: 0 <= i < |dists| && dists[i].key == key && 0 <= j < |dists[i].files| &&
        ExposedModule(dists[i].files[j], sep) == Some(name) && LastPart(dists[i].files[j], sep) == "__init__"
  {
    BuildIndexSpec(dists, sep, key);
  }

  /** Every exposed module lands in the entry of the package that installed it. */
  lemma BuildIndexComplete(dists: seq<Distribution>, sep: char, i: nat, j: nat)
    requires AllIndexable(dists, sep)
    requires i < |dists| && j < |dists[i].files|
    requires ExposedModule(dists[i].files[j], sep).Some?
    ensures dists[i].key in BuildIndex(dists, sep)
    ensures ExposedModule(dists[i].files[j], sep).value in BuildIndex(dists, sep)[dists[i].key]
  {
    var name := ExposedModule(dists[i].files[j], sep).value;
    assert name in KeyModules(dists, dists[i].key, sep);
    BuildIndexSpec(dists, sep, dists[i].key);
  }

  /** A path built from two or more separator-free segments splits back
      into those segments. */
  lemma PathPartsOfJoin(parts: seq<string>, sep: char)
    requires |parts| >= 2 && forall i :: 0 <= i < |parts| ==> sep !in parts[i]
    ensures EndsWith(Join(parts, sep) + ".py", ".py")
    ensures PathParts(Join(parts, sep) + ".py", sep) == parts
  {
    var path := Join(parts, sep) + ".py";
    assert EndsWith(path, ".py");
    assert Stem(path) == Join(parts, sep);
    SplitJoin(parts, sep);
  }

  /** The fallback: a path written with `/` whose segments hold neither `/`
      nor the platform separator splits into those segments, whichever of
      the two the platform separator is. */
  lemma PathPartsOfSlashJoin(parts: seq<string>, sep: char)
    requires |parts| >= 2
    requires forall i :: 0 <= i < |parts| ==> '/' !in parts[i] && sep !in parts[i]
    ensures EndsWith(Join(parts, '/') + ".py", ".py")
    ensures PathParts(Join(parts, '/') + ".py", sep) == parts
  {
    var path := Join(parts, '/') + ".py";
    assert EndsWith(path, ".py");
    var stem := Join(parts, '/');
    assert Stem(path) == stem;
    SplitJoin(parts, '/');
    if sep != '/' {
      JoinAvoids(parts, '/', sep);
      SplitHasTwoParts(stem, sep);
    }
  }

  /** An internal module file (one leading underscore) inside a directory
      contributes nothing. */
  lemma InternalFileExposesNothing(dirs: seq<string>, name: string, sep: char)
    requires |dirs| >= 1 && forall i :: 0 <= i < |dirs| ==> sep !in dirs[i]
    requires sep !in name && IsInternal(name)
    ensures var path := Join(dirs + [name], sep) + ".py";
      && EndsWith(path, ".py") && Indexable(path, sep) && ExposedModule(path, sep) == None
  {
    var parts := dirs + [name];
    assert forall i :: 0 <= i < |parts| ==> sep !in parts[i];
    PathPartsOfJoin(parts, sep);
  }

  /** A package directory `name` holding an `__init__.py`, below any
      directories, exposes `name` unless it is called `tests`. */
  lemma PackageInitExposesParent(dirs: seq<string>, name: string, sep: char)
    requires forall i :: 0 <= i < |dirs| ==> sep !in dirs[i]
    requires sep == '/' || sep == '\\'
    requires sep !in name
    ensures var path := Join(dirs + [name, "__init__"], sep) + ".py";
      && EndsWith(path, ".py") && Indexable(path, sep)
      && ExposedModule(path, sep) == if name == "tests" then None else Some(name)
  {
    var parts := dirs + [name, "__init__"];
    assert sep !in "__init__";
    assert forall i :: 0 <= i < |parts| ==> sep !in parts[i];
    PathPartsOfJoin(parts, sep);
    var path := Join(parts, sep) + ".py";
    assert LastPart(path, sep) == "__init__";
    assert !IsInternal("__init__") by {
      assert "__init__"[..2] == "__";
    }
  }

  /** The same for a package path written with `/`, the form some
      distribution types list their files in whatever the platform
      separator. */
  lemma PackageInitWithSlashExposesParent(dirs: seq<string>, name: string, sep: char)
    requires sep == '/' || sep == '\\'
    requires forall i :: 0 <= i < |dirs| ==> '/' !in dirs[i] && sep !in dirs[i]
    requires '/' !in name && sep !in name
    ensures var path := Join(dirs + [name, "__init__"], '/') + ".py";
      && EndsWith(path, ".py") && Indexable(path, sep)
      && ExposedModule(path, sep) == if name == "tests" then None else Some(name)
  {
    var parts := dirs + [name, "__init__"];
    PackageSegmentsFree(dirs, name, sep);
    assert parts[|parts| - 1] == "__init__" && parts[|parts| - 2] == name;
    SlashInitPathExposesParent(parts, sep);
  }

  /** The segments of `dirs/name/__init__` hold neither `/` nor `sep` when
      `dirs` and `name` do not. */
  lemma PackageSegmentsFree(dirs: seq<string>, name: string, sep: char)
    requires sep == '/' || sep == '\\'
    requires forall i :: 0 <= i < |dirs| ==> '/' !in dirs[i] && sep !in dirs[i]
    requires '/' !in name && sep !in name
    ensures var parts := dirs + [name, "__init__"];
      forall i :: 0 <= i < |parts| ==> '/' !in parts[i] && sep !in parts[i]
  {
    var parts := dirs + [name, "__init__"];
    assert '/' !in "__init__";
    assert sep !in "__init__";
    forall i | 0 <= i < |parts|
      ensures '/' !in parts[i] && sep !in parts[i]
    {
      if i < |dirs| {
        assert parts[i] == dirs[i];
      } else if i == |dirs| {
        assert parts[i] == name;
      } else {
        assert parts[i] == "__init__";
      }
    }
  }

  /** A path written with `/` whose last segment is `__init__` exposes the
      segment before it, unless that is `tests`. */
  lemma SlashInitPathExposesParent(parts: seq<string>, sep: char)
    requires |parts| >= 2 && parts[|parts| - 1] == "__init__"
    requires forall i :: 0 <= i < |parts| ==> '/' !in parts[i] && sep !in parts[i]
    ensures var path := Join(parts, '/') + ".py";
      && EndsWith(path, ".py") && Indexable(path, sep)
      && ExposedModule(path, sep) == if parts[|parts| - 2] == "tests" then None else Some(parts[|parts| - 2])
  {
    var path := Join(parts, '/') + ".py";
    PathPartsOfSlashJoin(parts, sep);
    InitSegmentExposesParent(path, sep, parts);
  }

  /** A `.py` path of two or more segments whose last is `__init__` exposes
      the segment before it, unless that is `tests`. */
  lemma InitSegmentExposesParent(path: string, sep: char, parts: seq<string>)
    requires EndsWith(path, ".py") && PathParts(path, sep) == parts
    requires |parts| >= 2 && parts[|parts| - 1] == "__init__"
    ensures Indexable(path, sep)
    ensures ExposedModule(path, sep) == if parts[|parts| - 2] == "tests" then None else Some(parts[|parts| - 2])
  {
    assert !IsInternal("__init__") by {
      assert "__init__"[..2] == "__";
    }
  }

  /** One distribution with three files of which only the first exposes a
      module indexes to that one module. */
  lemma IndexOneOfThree(key: string, files: seq<string>, sep: char, name: string)
    requires |files| == 3
    requires Indexable(files[0], sep) && Indexable(files[1], sep) && Indexable(files[2], sep)
    requires ExposedModule(files[0], sep) == Some(name)
    requires ExposedModule(files[1], sep) == None && ExposedModule(files[2], sep) == None
    ensures AllIndexable([Distribution(key, files)], sep)
    ensures BuildIndex([Distribution(key, files)], sep) == map[key := [name]]
  {
    var dists := [Distribution(key, files)];
    forall j | 0 <= j < |files|
      ensures Indexable(files[j], sep)
    {
      assert j == 0 || j == 1 || j == 2;
    }
    assert dists[..0] == [];
    assert BuildIndex(dists, sep) == IndexFiles(map[], key, files, sep);
    var first := IndexFiles(map[], key, files[..1], sep);
    assert files[..1][..0] == [] && files[..1][0] == files[0];
    assert [] + [name] == [name];
    assert AddFile(map[], key, files[0], sep) == map[key := [name]];
    assert first == AddFile(IndexFiles(map[], key, files[..1][..0], sep), key, files[..1][0], sep);
    assert files[..2][..1] == files[..1] && files[..2][1] == files[1];
    assert IndexFiles(map[], key, files[..2], sep) == first;
    assert files[..3] == files && files[..3][..2] == files[..2];
  }

  /** `foo/__init__.py` exposes `foo`. */
  lemma InitFileExample()
    ensures EndsWith("foo/__init__.py", ".py") && Indexable("foo/__init__.py", '/')
    ensures ExposedModule("foo/__init__.py", '/') == Some("foo")
  {
    assert Join(["foo", "__init__"], '/') + ".py" == "foo/__init__.py";
    PackageInitExposesParent([], "foo", '/');
    assert [] + ["foo", "__init__"] == ["foo", "__init__"];
  }

  /** `foo/__init__.py` exposes `foo` with `\\` as the platform separator
      too: the path is split again on `/`. */
  lemma InitFileBackslashExample()
    ensures EndsWith("foo/__init__.py", ".py") && Indexable("foo/__init__.py", '\\')
    ensures ExposedModule("foo/__init__.py", '\\') == Some("foo")
  {
    assert Join(["foo", "__init__"], '/') + ".py" == "foo/__init__.py";
    PackageInitWithSlashExposesParent([], "foo", '\\');
    assert [] + ["foo", "__init__"] == ["foo", "__init__"];
  }

  /** `foo/_internal.py` exposes nothing: it is internal. */
  lemma InternalFileExample()
    ensures EndsWith("foo/_internal.py", ".py") && Indexable("foo/_internal.py", '/')
    ensures ExposedModule("foo/_internal.py", '/') == None
  {
    assert Join(["foo", "_internal"], '/') + ".py" == "foo/_internal.py";
    IsInternalByCharacters("_internal");
    InternalFileExposesNothing(["foo"], "_internal", '/');
    assert ["foo"] + ["_internal"] == ["foo", "_internal"];
  }

  /** `foo/tests/__init__.py` exposes nothing: its parent is `tests`. */
  lemma TestsFileExample()
    ensures EndsWith("foo/tests/__init__.py", ".py") && Indexable("foo/tests/__init__.py", '/')
    ensures ExposedModule("foo/tests/__init__.py", '/') == None
  {
    assert Join(["foo", "tests", "__init__"], '/') + ".py" == "foo/tests/__init__.py";
    PackageInitExposesParent(["foo"], "tests", '/');
    assert ["foo"] + ["tests", "__init__"] == ["foo", "tests", "__init__"];
  }

  /** A package `foo` installing `foo/__init__.py`, `foo/_internal.py` and
      `foo/tests/__init__.py` exposes the single module `foo`. */
  lemma PackageExample(files: seq<string>)
    requires files == ["foo/__init__.py", "foo/_internal.py", "foo/tests/__init__.py"]
    ensures AllIndexable([Distribution("foo", files)], '/')
    ensures BuildIndex([Distribution("foo", files)], '/') == map["foo" := ["foo"]]
  {
    InitFileExample();
    InternalFileExample();
    TestsFileExample();
    assert files[0] == "foo/__init__.py";
    assert files[1] == "foo/_internal.py";
    assert files[2] == "foo/tests/__init__.py";
    IndexOneOfThree("foo", files, '/', "foo");
  }
}
