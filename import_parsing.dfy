/** The import extractor: which lines count as imports, which top-level
    names they yield, and the walk over the lines of a file and over the
    files of a tree. */
module ImportParsing {
  import opened Text
  import opened Seqs

  /** A source file of the scanned tree: its file name and its lines, as
      the file reader delivers them. */
  datatype SourceFile = SourceFile(name: string, lines: seq<string>)

  /** What the extractor promises of every name it reports: no dot (so not
      a relative name either), and not a private (`_`) name. */
  predicate IsTopLevelName(x: string)
  {
    '.' !in x && !StartsWith(x, "_")
  }

  /** A (stripped) line is an import line when it starts with `import ` or
      `from `; every such line has a second space-separated token. */
  function CheckLineImport(line: string): (r: bool)
    ensures r <==> StartsWith(line, "import ") || StartsWith(line, "from ")
    ensures r ==> |Split(line, ' ')| >= 2
  {
    ImportPrefixHasSpace(line);
    StartsWith(line, "import ") || StartsWith(line, "from ")
  }

  /** Both import prefixes end in a space, so a line carrying one splits
      into at least two tokens. */
  lemma ImportPrefixHasSpace(line: string)
    ensures StartsWith(line, "import ") || StartsWith(line, "from ") ==> |Split(line, ' ')| >= 2
  {
    if StartsWith(line, "import ") {
      assert line[6] == "import "[6];
    } else if StartsWith(line, "from ") {
      assert line[4] == "from "[4];
    }
    SplitHasTwoParts(line, ' ');
  }

  /** A candidate survives the two filters of `parse_imports` when it is
      neither relative nor private. */
  predicate Kept(candidate: string)
    ensures Kept(candidate) <==> candidate == [] || (candidate[0] != '.' && candidate[0] != '_')
  {
    StartsWithChar(candidate, '.');
    StartsWithChar(candidate, '_');
    !StartsWith(candidate, ".") && !StartsWith(candidate, "_")
  }

  /** The root of a dotted path: the text before its first dot. */
  function Root(candidate: string): (r: string)
    ensures Kept(candidate) ==> IsTopLevelName(r)
    ensures StartsWith(candidate, r)
  {
    Before(candidate, '.')
  }

  /** `parse_imports`: drops relative and private candidates and keeps the
      root of each remaining one, in order. */
  function ParseImports(candidates: seq<string>): (r: seq<string>)
    ensures |r| <= |candidates|
    ensures forall x :: x in r ==> IsTopLevelName(x)
    ensures forall x :: x in r <==> exists i :: 0 <= i < |candidates| && Kept(candidates[i]) && Root(candidates[i]) == x
  {
    if candidates == [] then []
    else
      var init := candidates[..|candidates| - 1];
      var last := candidates[|candidates| - 1];
      var r := ParseImports(init) + (if Kept(last) then [Root(last)] else []);
      assert forall i :: 0 <= i < |init| ==> init[i] == candidates[i];
      r
  }

  /** `parse_imports` works candidate by candidate: it maps a concatenation
      to the concatenation of the results, so the output keeps input order. */
  lemma {:induction false} ParseImportsAppend(a: seq<string>, b: seq<string>)
    ensures ParseImports(a + b) == ParseImports(a) + ParseImports(b)
    decreases |b|
  {
    if b == [] {
      assert a + b == a;
    } else {
      var b' := b[..|b| - 1];
      assert (a + b)[..|a + b| - 1] == a + b';
      ParseImportsAppend(a, b');
    }
  }

  /** A single candidate yields its root when kept, nothing otherwise. */
  lemma ParseImportsSingle(candidate: string)
    ensures ParseImports([candidate]) == if Kept(candidate) then [Root(candidate)] else []
  {
    assert [candidate][..0] == [];
  }

  /** `parse_imports` leaves a list of top-level names as it is, so applying
      it twice gives what applying it once gives. */
  lemma {:induction false} ParseImportsOfTopLevelNames(names: seq<string>)
    requires forall i :: 0 <= i < |names| ==> IsTopLevelName(names[i])
    ensures ParseImports(names) == names
    decreases |names|
  {
    if names != [] {
      var last := names[|names| - 1];
      BeforeUnique(last, '.', last);
      ParseImportsOfTopLevelNames(names[..|names| - 1]);
    }
  }

  /** Applying `parse_imports` a second time changes nothing. */
  lemma ParseImportsIdempotent(candidates: seq<string>)
    ensures ParseImports(ParseImports(candidates)) == ParseImports(candidates)
  {
    var r := ParseImports(candidates);
    assert forall i :: 0 <= i < |r| ==> IsTopLevelName(r[i]) by {
      forall i | 0 <= i < |r| ensures IsTopLevelName(r[i]) {
        assert r[i] in r;
      }
    }
    ParseImportsOfTopLevelNames(r);
  }

  /** The second space-separated token of a line: `line.split(" ")[1]`. */
  function SecondToken(line: string): (r: string)
    requires ' ' in line
    ensures ' ' !in r
  {
    SplitHasTwoParts(line, ' ');
    Split(line, ' ')[1]
  }

  /** `parse_import_line`: a line starting with `from` contributes the root
      of its second token; any other line splits its second token on commas
      and contributes the root of each piece. Only the second space-separated
      token is ever looked at. */
  function ParseImportLine(line: string): (r: seq<string>)
    requires ' ' in line
    ensures forall x :: x in r ==> IsTopLevelName(x)
    ensures StartsWith(line, "from") ==> |r| <= 1 && forall x :: x in r ==> x == Root(SecondToken(line))
    ensures !StartsWith(line, "from") ==> |r| <= |Split(SecondToken(line), ',')|
  {
    if StartsWith(line, "from") then ParseImports([SecondToken(line)])
    else ParseImports(Split(SecondToken(line), ','))
  }

  /** An `import` line given as its space-separated tokens: its result is
      `parse_imports` of the comma-separated pieces of its second token; the
      tokens after the second are never looked at. */
  lemma ImportLineTokens(tokens: seq<string>, pieces: seq<string>)
    requires |tokens| >= 2 && tokens[0] == "import"
    requires forall i :: 0 <= i < |tokens| ==> ' ' !in tokens[i]
    requires |pieces| >= 1 && forall i :: 0 <= i < |pieces| ==> ',' !in pieces[i]
    requires Join(pieces, ',') == tokens[1]
    ensures ' ' in Join(tokens, ' ')
    ensures ParseImportLine(Join(tokens, ' ')) == ParseImports(pieces)
  {
    var line := Join(tokens, ' ');
    JoinHead(tokens, ' ');
    assert line[0] == 'i' != "from"[0];
    SplitJoin(tokens, ' ');
    SplitHasTwoParts(line, ' ');
    SplitJoin(pieces, ',');
  }

  /** A `from` line given as its space-separated tokens: its result is
      `parse_imports` of its second token alone. */
  lemma FromLineTokens(tokens: seq<string>)
    requires |tokens| >= 2 && tokens[0] == "from"
    requires forall i :: 0 <= i < |tokens| ==> ' ' !in tokens[i]
    ensures ' ' in Join(tokens, ' ')
    ensures ParseImportLine(Join(tokens, ' ')) == ParseImports([tokens[1]])
  {
    var line := Join(tokens, ' ');
    JoinHead(tokens, ' ');
    assert line[..4] == "from";
    SplitJoin(tokens, ' ');
    SplitHasTwoParts(line, ' ');
  }

  /** What one raw line of a file contributes: the line is stripped, checked,
      and parsed when it is an import line. */
  function LineImports(raw: string): (r: seq<string>)
    ensures forall x :: x in r ==> IsTopLevelName(x)
    ensures !CheckLineImport(Strip(raw)) ==> r == []
  {
    var stripped := Strip(raw);
    if CheckLineImport(stripped) then ParseImportLine(stripped) else []
  }

  /** The names a file's lines contribute, line after line. */
  function FileImports(lines: seq<string>): (r: seq<string>)
    ensures forall x :: x in r ==> IsTopLevelName(x)
    ensures forall x :: x in r <==> exists j :: 0 <= j < |lines| && x in LineImports(lines[j])
  {
    var r := FlatMap(LineImports, lines);
    assert forall x :: x in r <==> exists j :: 0 <= j < |lines| && x in LineImports(lines[j]) by {
      forall x {
        FlatMapMember(LineImports, lines, x);
      }
    }
    r
  }

  /** `parse_file` over the lines of a file: strips each line and appends
      what the import lines yield. */
  method ParseFile(lines: seq<string>) returns (imports: seq<string>)
    ensures imports == FileImports(lines)
  {
    imports := [];
    for i := 0 to |lines|
      invariant imports == FileImports(lines[..i])
    {
      var strippedLine := Strip(lines[i]);
      if CheckLineImport(strippedLine) {
        imports := imports + ParseImportLine(strippedLine);
      }
      assert lines[..i + 1][..i] == lines[..i];
      assert FileImports(lines[..i + 1]) == FileImports(lines[..i]) + LineImports(lines[i]);
    }
    assert lines[..|lines|] == lines;
  }

  /** What one file of the tree contributes: its imports when it is a
      `.py` file, nothing otherwise. */
  function SourceFileImports(f: SourceFile): (r: seq<string>)
    ensures !EndsWith(f.name, ".py") ==> r == []
    ensures forall x :: x in r <==>
      EndsWith(f.name, ".py") && exists j :: 0 <= j < |f.lines| && x in LineImports(f.lines[j])
  {
    if EndsWith(f.name, ".py") then FileImports(f.lines) else []
  }

  /** The names the `.py` files of a tree contribute, file after file,
      duplicates included: every one of them is a top-level name found on
      some line of some `.py` file, and every such name is there. */
  function TreeImports(tree: seq<SourceFile>): (r: seq<string>)
    ensures forall x :: x in r ==> IsTopLevelName(x)
    ensures forall x :: x in r <==>
      exists i, j :: 0 <= i < |tree| && EndsWith(tree[i].name, ".py") && 0 <= j < |tree[i].lines| && x in LineImports(tree[i].lines[j])
  {
    var r := FlatMap(SourceFileImports, tree);
    forall x
      ensures x in r <==> exists i :: 0 <= i < |tree| && x in SourceFileImports(tree[i])
    {
      FlatMapMember(SourceFileImports, tree, x);
    }
    r
  }

  /** `get_imports` over a tree given as its sequence of files: parses every
      `.py` file and returns the distinct names found. */
  method GetImports(tree: seq<SourceFile>) returns (r: seq<string>)
    ensures NoDuplicates(r)
    ensures forall x :: x in r <==> x in TreeImports(tree)
  {
    var imports: seq<string> := [];
    for i := 0 to |tree|
      invariant imports == TreeImports(tree[..i])
    {
      if EndsWith(tree[i].name, ".py") {
        var fileImports := ParseFile(tree[i].lines);
        imports := imports + fileImports;
      }
      assert tree[..i + 1][..i] == tree[..i];
      assert TreeImports(tree[..i + 1]) == TreeImports(tree[..i]) + SourceFileImports(tree[i]);
    }
    assert tree[..|tree|] == tree;
    r := Dedupe(imports);
  }

  // Worked examples of the parser, from the docstrings and the comments at
  // parse_import_line.

  /** `django.db => django`. */
  lemma DottedCandidateExample()
    ensures ParseImports(["django.db"]) == ["django"]
  {
    BeforeUnique("django.db", '.', "django");
    ParseImportsSingle("django.db");
  }

  /** `from django.db import Foo => django`. */
  lemma FromLineExample()
    ensures ParseImportLine("from django.db import Foo") == ["django"]
  {
    var tokens := ["from", "django.db", "import", "Foo"];
    assert Join(tokens, ' ') == "from django.db import Foo";
    assert forall i :: 0 <= i < |tokens| ==> ' ' !in tokens[i];
    FromLineTokens(tokens);
    DottedCandidateExample();
  }

  /** `import a.b.c` yields the root `a` alone. */
  lemma DeepImportExample()
    ensures ParseImportLine("import a.b.c") == ["a"]
  {
    var tokens := ["import", "a.b.c"];
    assert Join(tokens, ' ') == "import a.b.c";
    assert Join(["a.b.c"], ',') == "a.b.c";
    assert forall i :: 0 <= i < |tokens| ==> ' ' !in tokens[i];
    ImportLineTokens(tokens, ["a.b.c"]);
    BeforeUnique("a.b.c", '.', "a");
    StartsWithChar("a.b.c", '.');
    StartsWithChar("a.b.c", '_');
    ParseImportsSingle("a.b.c");
  }

  /** `import a,b` yields both names. */
  lemma CommaListExample()
    ensures ParseImportLine("import a,b") == ["a", "b"]
  {
    var tokens := ["import", "a,b"];
    assert Join(tokens, ' ') == "import a,b";
    assert Join(["a", "b"], ',') == "a,b";
    assert forall i :: 0 <= i < |tokens| ==> ' ' !in tokens[i];
    StartsWithChar("a", '.');
    StartsWithChar("a", '_');
    StartsWithChar("b", '.');
    StartsWithChar("b", '_');
    ImportLineTokens(tokens, ["a", "b"]);
    ParseImportsOfTopLevelNames(["a", "b"]);
  }

  /** `import a, b` yields `a` and an empty name, and loses `b`: only the
      second space-separated token is split on commas. */
  lemma CommaSpaceListExample()
    ensures ParseImportLine("import a, b") == ["a", ""]
  {
    var tokens := ["import", "a,", "b"];
    assert Join(tokens, ' ') == "import a, b";
    assert Join(["a", ""], ',') == "a,";
    assert forall i :: 0 <= i < |tokens| ==> ' ' !in tokens[i];
    StartsWithChar("a", '.');
    StartsWithChar("a", '_');
    ImportLineTokens(tokens, ["a", ""]);
    ParseImportsOfTopLevelNames(["a", ""]);
  }

  /** A relative import contributes nothing. */
  lemma RelativeImportExample()
    ensures ParseImportLine("from .models import User") == []
  {
    var tokens := ["from", ".models", "import", "User"];
    assert Join(tokens, ' ') == "from .models import User";
    assert forall i :: 0 <= i < |tokens| ==> ' ' !in tokens[i];
    FromLineTokens(tokens);
    StartsWithChar(".models", '.');
    ParseImportsSingle(".models");
  }
}
