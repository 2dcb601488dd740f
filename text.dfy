/** String operations the import checker relies on: Python's `startswith`,
    `endswith`, `strip()` and single-character `split`, with `join` as the
    inverse of `split`. */
module Text {

  /** Python's `s.startswith(p)`. */
  predicate StartsWith(s: string, p: string)
  {
    |p| <= |s| && s[..|p|] == p
  }

  /** Starting with a one-character string means having that character first. */
  lemma StartsWithChar(s: string, c: char)
    ensures StartsWith(s, [c]) <==> |s| > 0 && s[0] == c
  {
    if |s| > 0 && s[0] != c {
      assert s[..1][0] != [c][0];
    }
  }

  /** Python's `s.endswith(p)`. */
  predicate EndsWith(s: string, p: string)
  {
    |p| <= |s| && s[|s| - |p|..] == p
  }

  /** The characters `str.strip()` removes in this model: space, tab, line
      feed, carriage return, vertical tab and form feed. */
  predicate IsSpace(c: char)
  {
    c == ' ' || c == '\t' || c == '\n' || c == '\r' || c == '\U{B}' || c == '\U{C}'
  }

  /** Drops the leading whitespace of `s`. */
  function TrimStart(s: string): (r: string)
    ensures |r| <= |s| && r == s[|s| - |r|..]
    ensures forall i :: 0 <= i < |s| - |r| ==> IsSpace(s[i])
    ensures r == [] || !IsSpace(r[0])
  {
    if s != [] && IsSpace(s[0]) then TrimStart(s[1..]) else s
  }

  /** Drops the trailing whitespace of `s`. */
  function TrimEnd(s: string): (r: string)
    ensures |r| <= |s| && r == s[..|r|]
    ensures forall i :: |r| <= i < |s| ==> IsSpace(s[i])
    ensures r == [] || !IsSpace(r[|r| - 1])
  {
    if s != [] && IsSpace(s[|s| - 1]) then TrimEnd(s[..|s| - 1]) else s
  }

  /** Python's `s.strip()`: the slice of `s` left once whitespace is removed
      from both ends. */
  function Strip(s: string): (r: string)
    ensures var a := |s| - |TrimStart(s)|;
      && a + |r| <= |s| && r == s[a..a + |r|]
      && (forall i :: 0 <= i < a ==> IsSpace(s[i]))
      && (forall i :: a + |r| <= i < |s| ==> IsSpace(s[i]))
    ensures r == [] || (!IsSpace(r[0]) && !IsSpace(r[|r| - 1]))
  {
    var t := TrimStart(s);
    var r := TrimEnd(t);
    assert r == s[|s| - |t|..|s| - |t| + |r|];
    r
  }

  /** Glues `parts` back together with `c` between neighbours: Python's
      `c.join(parts)`. */
  function Join(parts: seq<string>, c: char): string
    requires |parts| >= 1
  {
    if |parts| == 1 then parts[0] else parts[0] + [c] + Join(parts[1..], c)
  }

  /** Python's `s.split(c)` for a one-character separator: the pieces
      between consecutive occurrences of `c`, empty pieces included. */
  function Split(s: string, c: char): (r: seq<string>)
    ensures |r| >= 1
    ensures forall i :: 0 <= i < |r| ==> c !in r[i]
    ensures Join(r, c) == s
  {
    if s == [] then [[]]
    else
      var rest := Split(s[1..], c);
      if s[0] == c then [[]] + rest
      else [[s[0]] + rest[0]] + rest[1..]
  }

  /** The text before the first `c`: Python's `s.split(c)[0]`. */
  function Before(s: string, c: char): (r: string)
    ensures StartsWith(s, r) && c !in r
    ensures |r| < |s| ==> s[|r|] == c
  {
    var parts := Split(s, c);
    JoinHead(parts, c);
    parts[0]
  }

  /** The text before the first `c` is the one prefix free of `c` that ends
      at the end of `s` or at a `c`. */
  lemma BeforeUnique(s: string, c: char, p: string)
    requires StartsWith(s, p) && c !in p
    requires |p| == |s| || s[|p|] == c
    ensures Before(s, c) == p
  {
    var r := Before(s, c);
    assert |r| == |p|;
  }

  /** Joining starts with the first part, followed by the separator when
      there is more than one part. */
  lemma {:induction false} JoinHead(parts: seq<string>, c: char)
    requires |parts| >= 1
    ensures StartsWith(Join(parts, c), parts[0])
    ensures |parts| > 1 ==> |Join(parts, c)| > |parts[0]| && Join(parts, c)[|parts[0]|] == c
    ensures |parts| == 1 ==> Join(parts, c) == parts[0]
  {
    if |parts| > 1 {
      var j := Join(parts, c);
      assert j == parts[0] + [c] + Join(parts[1..], c);
      assert j[..|parts[0]|] == parts[0];
    }
  }

  /** A character that is neither the separator nor in any part does not
      occur in the join. */
  lemma {:induction false} JoinAvoids(parts: seq<string>, c: char, d: char)
    requires |parts| >= 1 && d != c
    requires forall i :: 0 <= i < |parts| ==> d !in parts[i]
    ensures d !in Join(parts, c)
    decreases |parts|
  {
    if |parts| > 1 {
      assert forall i :: 0 <= i < |parts[1..]| ==> parts[1..][i] == parts[i + 1];
      JoinAvoids(parts[1..], c, d);
    }
  }

  /** `split` yields at least two pieces exactly when the separator occurs. */
  lemma SplitHasTwoParts(s: string, c: char)
    ensures |Split(s, c)| >= 2 <==> c in s
  {
    var parts := Split(s, c);
    JoinHead(parts, c);
    if |parts| >= 2 {
      assert s[|parts[0]|] == c;
    }
  }

  /** The other round trip: pieces free of `c` come back unchanged from
      splitting their join. */
  lemma {:induction false} SplitJoin(parts: seq<string>, c: char)
    requires |parts| >= 1
    requires forall i :: 0 <= i < |parts| ==> c !in parts[i]
    ensures Split(Join(parts, c), c) == parts
    decreases |parts|, |parts[0]|
  {
    var s := Join(parts, c);
    if parts[0] == [] {
      if |parts| == 1 {
      } else {
        assert s == [c] + Join(parts[1..], c);
        assert s[1..] == Join(parts[1..], c);
        SplitJoin(parts[1..], c);
      }
    } else {
      var tail := [parts[0][1..]] + parts[1..];
      assert tail[1..] == parts[1..];
      if |parts| == 1 {
        assert s[1..] == Join(tail, c);
      } else {
        assert s[1..] == Join(tail, c) by {
          assert s == parts[0] + [c] + Join(parts[1..], c);
        }
      }
      SplitJoin(tail, c);
      assert s[0] == parts[0][0] != c by { JoinHead(parts, c); }
      assert parts[0] == [s[0]] + tail[0];
    }
  }
}
