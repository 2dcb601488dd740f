# python-import-check, modelled in Dafny

`import-check.py` finds installed Python requirements that a project never
imports. It works in three steps:

- It scans the `.py` files of a source tree line by line. Lines that start
  with `import ` or `from ` give the top-level names they import.
- It builds a module index from the files each installed distribution
  installed. A distribution's key maps to the names of the package
  directories it ships, found by their `__init__.py`.
- It walks the dependency graph in document order. A package is used when
  one of its module names is imported, and so are the packages its
  dependencies expand to through `traverse_used`. A package is reported
  unused when one of its module names was never seen and its key never
  became used.

The modules follow those steps:

- `Text` (`text.dfy`) holds the string operations the script relies on:
  `startswith`, `endswith`, `strip()`, a one-character `split`, and `join`
  as the inverse of `split`.
- `Seqs` (`seqs.dfy`) holds `list(set(xs))`, the list-comprehension filter,
  and a concatenating map.
- `ImportParsing` (`import_parsing.dfy`) models `check_line_import`,
  `parse_imports`, `parse_import_line`, the line loop of `parse_file`, and
  the file loop and de-duplication of `get_imports`.
- `ModuleIndex` (`module_index.dfy`) models the path rule and the
  map-building loops of `get_modules`.
- `DependencyWalk` (`dependency_walk.dfy`) models `traverse_used`.
- `Resolver` (`resolver.dfy`) models `determine_unused`.

The pure helpers are Dafny functions. The loops of `parse_file`,
`get_imports`, `get_modules`, `traverse_used` and `determine_unused` are
methods. Each method is proved equal to a specification function, and the
lemmas state what the script promises about those functions.

Some of the script's list aliasing is modelled as it behaves:

- In `traverse_used`, the list returned by the recursive call *is* the list
  of sub-dependencies. So `dependencies += traverse_used(sub, graph)` followed
  by `dependencies += sub` appends the expansion twice.
- The same happens in `determine_unused`.
- `used` is the same list object as `imports`. So every `module_name in
  imports` test sees the keys and expansions appended so far. The model
  keeps a single `used` sequence.

## Model

| member | source | states |
|---|---|---|
| Text.Strip | import-check.py:74 | the result is the slice of the line left once whitespace is removed from both ends: everything cut is whitespace, and the result neither starts nor ends with whitespace |
| Text.Split | import-check.py:61 | `s.split(c)` yields at least one piece, no piece contains `c`, and joining the pieces with `c` gives back `s` |
| Text.SplitJoin | import-check.py:61 | splitting the join of separator-free pieces gives back exactly those pieces (the other round trip) |
| Text.SplitHasTwoParts | import-check.py:59 | `split(c)` has a second piece exactly when `c` occurs in the string, so `split(" ")[1]` is defined exactly then |
| Text.Before | import-check.py:48 | `imp.split(".")[0]` is a prefix of `imp` without a dot, followed by a dot or by the end of `imp` |
| Text.BeforeUnique | import-check.py:48 | that prefix is the only prefix with those properties |
| Seqs.Dedupe | import-check.py:95 | `list(set(xs))` has no duplicates and has exactly the elements of `xs` |
| Seqs.Without | import-check.py:141 | the comprehension keeps exactly the elements of the first list that are not in the second |
| ImportParsing.CheckLineImport | import-check.py:32-36 | a line is an import line if and only if it starts with `import ` or `from `; every import line has a second space-separated token |
| ImportParsing.ImportPrefixHasSpace | import-check.py:33 | a line starting with either prefix contains a space, so `parse_import_line` can read its second token |
| ImportParsing.Root | import-check.py:48 | the root is a prefix of the candidate, and it is a top-level name (no dot, no leading `.` or `_`) when the candidate passed both filters |
| ImportParsing.Kept | import-check.py:45-46 | a candidate survives both filters if and only if it is empty or its first character is neither `.` nor `_` |
| ImportParsing.ParseImports | import-check.py:39-50 | no more names than candidates; every name is top-level; a name is in the result if and only if it is the root of some candidate that starts with neither `.` nor `_` |
| ImportParsing.ParseImportsAppend | import-check.py:47-48 | `parse_imports` maps a concatenation to the concatenation of its results, so the output keeps the input order |
| ImportParsing.ParseImportsSingle | import-check.py:45-48 | one candidate yields its root when it passes both filters and nothing otherwise |
| ImportParsing.ParseImportsOfTopLevelNames | import-check.py:45-48 | a list of top-level names is returned unchanged |
| ImportParsing.ParseImportsIdempotent | import-check.py:39-50 | applying `parse_imports` to its own output changes nothing |
| ImportParsing.SecondToken | import-check.py:59 | the second space-separated token contains no space |
| ImportParsing.ParseImportLine | import-check.py:53-62 | every name is top-level; a line starting with `from` yields at most the root of its second token; any other line yields at most one name per comma-separated piece of its second token |
| ImportParsing.ImportLineTokens | import-check.py:61-62 | an `import` line yields `parse_imports` of the comma pieces of its second token; later tokens are ignored |
| ImportParsing.FromLineTokens | import-check.py:58-59 | a `from` line yields `parse_imports` of its second token alone |
| ImportParsing.LineImports | import-check.py:74-76 | a raw line yields only top-level names, and nothing unless its stripped form is an import line |
| ImportParsing.FileImports | import-check.py:70-78 | a name comes out of a file if and only if some line of the file yields it; every such name is top-level |
| ImportParsing.ParseFile | import-check.py:70-78 | the line loop returns exactly the concatenation, in line order, of what each stripped import line yields |
| ImportParsing.SourceFileImports | import-check.py:90-93 | a file that is not a `.py` file contributes nothing; otherwise a name comes from it if and only if some line of it yields that name |
| ImportParsing.TreeImports | import-check.py:88-93 | a name is collected if and only if some line of some `.py` file yields it; every such name is top-level |
| ImportParsing.GetImports | import-check.py:86-95 | the result has no duplicates and holds exactly the names some line of some `.py` file of the tree yields |
| ImportParsing.DottedCandidateExample | import-check.py:42 | `django.db` gives `django` |
| ImportParsing.FromLineExample | import-check.py:56 | `from django.db import Foo` gives `django` |
| ImportParsing.DeepImportExample | import-check.py:61 | `import a.b.c` gives `a` |
| ImportParsing.CommaListExample | import-check.py:61 | `import a,b` gives `a` and `b` |
| ImportParsing.CommaSpaceListExample | import-check.py:61 | `import a, b` gives `a` and an empty name, and loses `b` |
| ImportParsing.RelativeImportExample | import-check.py:45 | `from .models import User` gives nothing |
| ModuleIndex.Stem | import-check.py:19 | the stem followed by `.py` is the path |
| ModuleIndex.PathParts | import-check.py:19-21 | at least one segment; a single segment is the whole stem, which then holds neither the platform separator nor `/` |
| ModuleIndex.IndexableExactly | import-check.py:24-25 | with `/` or `\` as separator, the only path whose `parts[-2]` does not exist when read is a bare `__init__.py` |
| ModuleIndex.IsInternalByCharacters | import-check.py:22 | a last segment is internal if and only if it starts with one underscore that is not followed by a second |
| ModuleIndex.ExposedModule | import-check.py:18-25 | a file exposes a name only when it is a `.py` file whose last segment is `__init__`; the name is one of its segments and is never `tests` |
| ModuleIndex.AddFileSpec | import-check.py:26-28 | recording a file creates the key's entry only when the file exposes a name and the entry is missing, appends the exposed name to it, and leaves every other key and entry as it was |
| ModuleIndex.RecordFile | import-check.py:18-28 | the body of the loop over one distribution's files, with its `continue` and its create-then-append, records exactly what `AddFileSpec` states |
| ModuleIndex.ExposedList | import-check.py:18-25 | a name is in the list for a file if and only if the file exposes that name |
| ModuleIndex.FileModules | import-check.py:17-28 | a name comes from a list of files if and only if one of them exposes it |
| ModuleIndex.KeyModules | import-check.py:16-28 | a name belongs to a key if and only if some distribution with that key installed a file that exposes it |
| ModuleIndex.GetModules | import-check.py:13-29 | the nested loop returns the index built distribution by distribution, file by file, whose entries `IndexFilesSpec` and `BuildIndexSpec` describe |
| ModuleIndex.IndexFilesSpec | import-check.py:17-28 | indexing one distribution's files appends their names to its own entry and leaves every other entry as it was |
| ModuleIndex.BuildIndexSpec | import-check.py:16-29 | a key is in the index if and only if its files expose some module, and its entry is then all of those names in order, duplicates included |
| ModuleIndex.BuildIndexSound | import-check.py:24-28 | every entry is non-empty, and each of its names comes from an `__init__.py` that a distribution with that key installed |
| ModuleIndex.BuildIndexComplete | import-check.py:24-28 | every exposed name appears in the entry of the distribution that installed it |
| ModuleIndex.PathPartsOfJoin | import-check.py:19 | a path made of two or more separator-free segments splits back into them |
| ModuleIndex.PathPartsOfSlashJoin | import-check.py:19-21 | a `/`-joined path of two or more segments free of `/` and of the platform separator splits back into those segments, through the `/` fallback when the separator is `\` |
| ModuleIndex.InternalFileExposesNothing | import-check.py:22-23 | an internal module file inside a directory exposes nothing |
| ModuleIndex.PackageInitExposesParent | import-check.py:24-25 | `dir/.../name/__init__.py` exposes `name`, unless `name` is `tests` |
| ModuleIndex.PackageInitWithSlashExposesParent | import-check.py:19-25 | with either platform separator, `dir/.../name/__init__.py` written with `/` can be indexed and exposes `name`, unless `name` is `tests` |
| ModuleIndex.SlashInitPathExposesParent | import-check.py:19-25 | any `/`-joined path of two or more clean segments ending in `__init__` exposes its second-to-last segment, unless that is `tests` |
| ModuleIndex.InitSegmentExposesParent | import-check.py:22-25 | a `.py` path of two or more segments ending in `__init__` is not internal, can be indexed, and exposes its parent segment unless that is `tests` |
| ModuleIndex.IndexOneOfThree | import-check.py:17-28 | a distribution with three files, of which only the first exposes a name, is indexed to that one name |
| ModuleIndex.InitFileExample | import-check.py:24-25 | `foo/__init__.py` exposes `foo` |
| ModuleIndex.InitFileBackslashExample | import-check.py:19-25 | with `\` as separator, `foo/__init__.py` still exposes `foo`, through the `/` fallback |
| ModuleIndex.InternalFileExample | import-check.py:22-23 | `foo/_internal.py` exposes nothing |
| ModuleIndex.TestsFileExample | import-check.py:24 | `foo/tests/__init__.py` exposes nothing |
| ModuleIndex.PackageExample | import-check.py:13-29 | a package `foo` installing those three files is indexed as `foo` to `["foo"]` |
| DependencyWalk.TraverseUsedFrom | import-check.py:98-111 | the walk only appends to the list it is given; every key it adds is a direct dependency of a key before it; ranks stay below the bound |
| DependencyWalk.AppendExpansionJustified | import-check.py:108-109 | appending the expansion of a listed record's dependencies twice adds only keys that are dependencies of earlier keys |
| DependencyWalk.TraverseUsedReachable | import-check.py:98-111 | the result starts with the input list, and its key at position `n` is reachable from the input in at most `n` dependency edges |
| DependencyWalk.TraverseUsedEarlyReturn | import-check.py:104-107 | when the first listed record in graph order has no dependencies, the list comes back unchanged, whatever later records would have added |
| DependencyWalk.TraverseUsed | import-check.py:98-111 | the recursive loop, with its early return and its double append, returns what the specification function computes |
| DependencyWalk.FirstRecursiveCall | import-check.py:103-108 | the argument of the first recursive call is the non-empty dependency list of a listed record, and no earlier record from the start position is listed |
| DependencyWalk.FirstRecursiveCallStep | import-check.py:103-109 | when the first listed record from position `i` has no dependencies, or there is none, there is no recursive call and the walk returns its input; otherwise the recursive call is on that record's dependencies, and the walk continues after it with the expansion appended twice |
| DependencyWalk.CycleNeverReturns | import-check.py:103-108 | on the cycle a -> b -> a the walk from `a` recurses on `b`, which recurses on `a` again; no rank exists for that graph |
| DependencyWalk.ChainExample | import-check.py:98-111 | over a -> b -> c the walk from `a` yields `a, b, c, c, b, c, c, c, c` |
| DependencyWalk.EarlyReturnExample | import-check.py:104-107 | from `[x, a]`, with `x` listed first and dependency-free, `a`'s dependency is never added |
| Resolver.CheckNames | import-check.py:130-139 | the inner loop only appends to `used` and `unused`, and everything it adds to `unused` is the record's key |
| Resolver.ModuleNames | import-check.py:125-128 | a key missing from the module index is looked up under its own name; the list is empty exactly when the index holds an empty entry for the key |
| Resolver.ProgressAfter | import-check.py:118-139 | the imports stay a prefix of `used`; every unused entry is the key of an examined record whose module-name list is non-empty |
| Resolver.ProgressStep | import-check.py:121-139 | examining one more record only appends to `used` and `unused` |
| Resolver.Unused | import-check.py:141-142 | the result has no duplicates, holds no import, and holds only graph keys whose module-name list is non-empty |
| Resolver.ProgressGrows | import-check.py:118-139 | `used` and `unused` only grow as records are examined |
| Resolver.CheckNamesMarksUsed | import-check.py:130-139 | when a module name from the current position on is already used, the key and the whole expansion of its dependencies become used |
| Resolver.ImportedPackageNotReported | import-check.py:114-142 | a package with an imported module name is not reported, nor are its direct dependencies, nor anything their walk reaches |
| Resolver.UsedNotReported | import-check.py:141 | nothing in the final `used` list is reported |
| Resolver.UnmatchedPackageReported | import-check.py:130-142 | a package with module names whose key is missing from the final `used` list is reported, whatever became of its module names later |
| Resolver.ReportedExactly | import-check.py:125-142 | a graph key is reported if and only if its module-name list is non-empty and the key is missing from the final `used` list |
| Resolver.EmptyModuleListNeverReported | import-check.py:125-132 | a package whose module-index entry is empty is never reported |
| Resolver.UnindexedPackageCheckedByKey | import-check.py:125-139 | a package missing from the module index is reported exactly when its key never became used; an imported key is never reported |
| Resolver.DetermineUnused | import-check.py:114-142 | the nested loop, with its early exit and its aliasing, returns what the specification function computes |
| Resolver.RequestsExample | import-check.py:114-142 | with `requests` imported and depending on `urllib3`, and `six` installed, only `six` is reported |
| Resolver.EarlyReturnReportsTransitiveDependency | import-check.py:98-142 | with `requests` imported and depending on `certifi` and `beautifulsoup4`, which is imported as `bs4` and depends on `soupsieve`, the early return of the walk at `certifi` gets `soupsieve` reported |

## Left out

- The command-line entry point is not modelled (import-check.py:145-168). That covers option parsing, reading and parsing `graph.json`, printing, and the uninstall command.
- Walking the directory tree is replaced by a sequence of files, each a name and its lines (import-check.py:88-89). This leaves out `os.walk`, the pruning of excluded directories, and `os.path.join`. Opening and reading a file is replaced by its lines (import-check.py:72-73).
- Enumerating installed distributions is replaced by a sequence of distributions, each a key and its installed paths (import-check.py:14-17). This leaves out `DistributionPath` and `list_installed_files`.
- `os.sep` is a parameter. `os.path.splitext` is modelled as dropping the `.py` suffix. When the last segment is made only of dots followed by `py` (`.py`, `..py`, `foo/..py`), `splitext` keeps that segment whole. The model drops `.py` from it instead, giving an empty or all-dot segment. Neither form is `__init__` or starts with `_`, so the file exposes nothing either way and the index is the same.
- `str.strip()` removes a fixed set of whitespace characters here: space, tab, line feed, carriage return, vertical tab and form feed. Python also strips other Unicode whitespace.
- `list(set(...))` has no defined order in Python. `Seqs.Dedupe` keeps first occurrences, and its contracts state only membership and the absence of duplicates.
- A dependency record is modelled as its key. The comprehension `[pkg["key"] for pkg in deps]` is then the identity.
- DependencyWalk.TraverseUsed: requires a rank that falls along every edge of the graph, so it covers acyclic graphs only. On a cyclic graph the script can recurse without end; `CycleNeverReturns` shows this for a -> b -> a. Runs on cyclic graphs that never reach their cycle are not covered either.
- Resolver.DetermineUnused: inherits that acyclic-graph precondition from the walk.
- ModuleIndex.GetModules: requires every installed path to be one the script can index. A bare top-level `__init__.py` makes the script fail at `parts[-2]`, an `IndexError`; `IndexableExactly` shows this is the only excluded path.
- ImportParsing.ParseImportLine: requires a space in the line, because `split(" ")[1]` fails without one. Every line that `check_line_import` accepts has a space.

## Behaviour notes

- `import a, b as c` does not yield `a` and `b`. Only the second space-separated token, `a,`, is split on commas, so the line yields `a` and an empty name; see `CommaSpaceListExample`.
- `traverse_used` returns as soon as the first listed record in graph order has no dependencies, so the dependencies of later listed records are never added. A package reached only through such a record can be reported unused even though something imported needs it; `EarlyReturnReportsTransitiveDependency` shows `soupsieve` reported although the imported `requests` needs it through `beautifulsoup4`. The model keeps this behaviour.
