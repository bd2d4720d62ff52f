/** The part of `pathlib.PurePosixPath` the document processor relies on:
    the final component `name` and its `suffix`. A path string is split at
    '/', empty components and "." components are dropped (so trailing
    slashes and "./" segments do not count), and the name is the last
    remaining component, or "" when there is none. The remaining
    components, with whether the path starts at the root, are the
    location the path names; the vector store keys its directories by
    location. */
module Paths {
  import opened Text

  /** The components of `s` between occurrences of `c`, in order; there is
      always at least one, possibly empty. */
  function Split(s: string, c: char): (r: seq<string>)
    ensures |r| >= 1
    ensures forall k :: 0 <= k < |r| ==> c !in r[k]
    ensures c !in s ==> r == [s]
    decreases |s|
  {
    var i := FindChar(s, c);
    if i == |s| then [s] else [s[..i]] + Split(s[i + 1..], c)
  }

  /** Splitting undoes joining: the components, rejoined with `c`, give
      back the original string. */
  lemma {:induction false} SplitJoin(s: string, c: char)
    ensures Join([c], Split(s, c)) == s
    decreases |s|
  {
    var i := FindChar(s, c);
    if i < |s| {
      var rest := s[i + 1..];
      var parts := Split(rest, c);
      SplitJoin(rest, c);
      JoinCons([c], s[..i], parts);
      CutAt(s, i, i + 1);
      assert s[i..i + 1] == [c];
      calc {
        Join([c], Split(s, c));
        Join([c], [s[..i]] + parts);
        s[..i] + [c] + Join([c], parts);
        s[..i] + [c] + rest;
        s;
      }
    }
  }

  /** Position of the first `c` in `s`, or `|s|` when there is none. */
  function FindChar(s: string, c: char): (i: nat)
    ensures i <= |s|
    ensures forall j :: 0 <= j < i ==> s[j] != c
    ensures i < |s| ==> s[i] == c
  {
    if s == [] || s[0] == c then 0 else 1 + FindChar(s[1..], c)
  }

  /** A component that survives path normalisation. */
  predicate Meaningful(part: string) {
    part != "" && part != "."
  }

  /** No component after position `k` is meaningful. */
  predicate NoneMeaningfulAfter(parts: seq<string>, k: int) {
    forall j :: 0 <= j < |parts| && k < j ==> !Meaningful(parts[j])
  }

  /** The last meaningful component, or "" when there is none. */
  function LastMeaningful(parts: seq<string>): (r: string)
    ensures r == "" || Meaningful(r)
    ensures r == "" <==> NoneMeaningfulAfter(parts, -1)
    ensures r != "" ==> exists k :: 0 <= k < |parts| && parts[k] == r && NoneMeaningfulAfter(parts, k)
  {
    if parts == [] then ""
    else
      var n := |parts| - 1;
      if Meaningful(parts[n]) then
        assert NoneMeaningfulAfter(parts, n);
        parts[n]
      else
        var init := parts[..n];
        var r := LastMeaningful(init);
        assert forall j :: 0 <= j < n ==> init[j] == parts[j];
        if r == "" then r
        else
          var k :| 0 <= k < |init| && init[k] == r && NoneMeaningfulAfter(init, k);
          assert parts[k] == r && NoneMeaningfulAfter(parts, k);
          r
  }

  /** `PurePosixPath(p).name`: the last component of `p` that is neither
      empty nor ".", or "" when every component is empty or ".". */
  function Name(p: string): (r: string)
    ensures '/' !in r
    ensures r != "."
    ensures var parts := Split(p, '/');
      && (r == "" <==> NoneMeaningfulAfter(parts, -1))
      && (r != "" ==> exists k :: 0 <= k < |parts| && parts[k] == r && NoneMeaningfulAfter(parts, k))
  {
    LastMeaningful(Split(p, '/'))
  }

  /** `str.rfind('.')`: the position of the last dot, or -1. */
  function LastDot(s: string): (i: int)
    ensures -1 <= i < |s|
    ensures i >= 0 ==> s[i] == '.'
    ensures forall j :: i < j < |s| ==> s[j] != '.'
  {
    if s == [] then -1
    else if s[|s| - 1] == '.' then |s| - 1
    else LastDot(s[..|s| - 1])
  }

  /** `PurePosixPath(p).suffix`, with the rule of Python up to 3.13: the
      name from its last dot on, provided that dot is neither the first
      nor the last character of the name; otherwise "". So a suffix is
      empty, or a dot followed by at least one character and no further
      dot or slash, ending the name and leaving a non-empty part before
      it. */
  function Suffix(p: string): (r: string)
    ensures r == ""
      || (r[0] == '.' && |r| >= 2
          && (forall j :: 1 <= j < |r| ==> r[j] != '.')
          && '/' !in r
          && |r| < |Name(p)|
          && r == Name(p)[|Name(p)| - |r|..])
  {
    var n := Name(p);
    var i := LastDot(n);
    if 0 < i < |n| - 1 then
      var r := n[i..];
      assert forall j :: 1 <= j < |r| ==> r[j] == n[i + j];
      r
    else ""
  }

  /** The suffix is non-empty exactly when the name has a dot that is
      neither its first nor its last character and no dot after it. */
  lemma SuffixNonEmptyIff(p: string)
    ensures var n := Name(p);
      Suffix(p) != "" <==>
        exists i :: 0 < i < |n| - 1 && n[i] == '.' && forall j :: i < j < |n| ==> n[j] != '.'
  {
    var n := Name(p);
    var d := LastDot(n);
    if exists i :: 0 < i < |n| - 1 && n[i] == '.' && forall j :: i < j < |n| ==> n[j] != '.' {
      var i :| 0 < i < |n| - 1 && n[i] == '.' && forall j :: i < j < |n| ==> n[j] != '.';
      assert d == i;
    }
  }

  /** A file name `stem.ext` in any directory has suffix `.ext`, whatever
      the case of `ext`, provided the stem is not empty and the extension
      has no dot. */
  lemma SuffixOfDottedName(dir: string, stem: string, ext: string)
    requires stem != [] && '/' !in stem
    requires ext != [] && '/' !in ext && '.' !in ext
    ensures Suffix(dir + "/" + (stem + "." + ext)) == "." + ext
  {
    var n := stem + "." + ext;
    var p := dir + "/" + n;
    assert '/' !in n;
    LastMeaningfulOfSlashed(dir, n);
    assert Name(p) == n;
    assert n[|stem|] == '.';
    assert forall j :: |stem| < j < |n| ==> n[j] == ext[j - |stem| - 1];
    LastDotIs(n, |stem|);
    assert n[|stem|..] == "." + ext;
  }

  /** The same for a bare file name with no directory part. */
  lemma SuffixOfBareName(stem: string, ext: string)
    requires stem != [] && '/' !in stem
    requires ext != [] && '/' !in ext && '.' !in ext
    ensures Suffix(stem + "." + ext) == "." + ext
  {
    var n := stem + "." + ext;
    assert '/' !in n;
    assert Split(n, '/') == [n];
    assert Name(n) == n;
    assert n[|stem|] == '.';
    assert forall j :: |stem| < j < |n| ==> n[j] == ext[j - |stem| - 1];
    LastDotIs(n, |stem|);
    assert n[|stem|..] == "." + ext;
  }

  /** The last dot is at `i` when `n[i]` is a dot and none follows it. */
  lemma LastDotIs(n: string, i: int)
    requires 0 <= i < |n| && n[i] == '.'
    requires forall j :: i < j < |n| ==> n[j] != '.'
    ensures LastDot(n) == i
  {
    if i < |n| - 1 {
      LastDotIs(n[..|n| - 1], i);
    }
  }

  /** The name of `dir/n` is `n`, for a meaningful component `n`. */
  lemma LastMeaningfulOfSlashed(dir: string, n: string)
    requires '/' !in n && Meaningful(n)
    ensures Name(dir + "/" + n) == n
  {
    SplitSlashed(dir, n);
  }

  /** Splitting `dir/n` ends with the component `n`. */
  lemma SplitSlashed(dir: string, n: string)
    requires '/' !in n
    ensures var r := Split(dir + "/" + n, '/'); r[|r| - 1] == n
  {
    SplitAppend(dir, '/', n);
  }

  /** Appending a separator and a piece without separators appends that
      piece as one more component. */
  lemma {:induction false} SplitAppend(s: string, c: char, x: string)
    requires c !in x
    ensures Split(s + [c] + x, c) == Split(s, c) + [x]
    decreases |s|
  {
    var t := s + [c] + x;
    var j := FindChar(s, c);
    if j < |s| {
      assert t[j] == c;
      assert FindChar(t, c) == j;
      var rest := s[j + 1..];
      assert t[j + 1..] == rest + [c] + x;
      assert t[..j] == s[..j];
      SplitAppend(rest, c, x);
    } else {
      assert t[|s|] == c;
      assert FindChar(t, c) == |s|;
      assert t[..|s|] == s;
      assert t[|s| + 1..] == x;
    }
  }

  // ---------------------------------------------------------------------
  // Locations: what a path names once its spelling is set aside.
  // ---------------------------------------------------------------------

  /** A place in the file system: whether the path starts at the root, and
      its meaningful components in order. Spellings that differ only in
      repeated or trailing slashes and "." segments name the same place. */
  datatype Location = Location(absolute: bool, parts: seq<string>)

  /** The meaningful components of `parts`, in order. */
  function Components(parts: seq<string>): (r: seq<string>)
    ensures forall x :: x in r <==> x in parts && Meaningful(x)
    ensures |r| <= |parts|
  {
    if parts == [] then []
    else
      var n := |parts| - 1;
      assert parts == parts[..n] + [parts[n]];
      Components(parts[..n]) + (if Meaningful(parts[n]) then [parts[n]] else [])
  }

  /** A single piece gives itself as a component when it is meaningful,
      and nothing otherwise. */
  lemma ComponentsOne(x: string)
    ensures Components([x]) == if Meaningful(x) then [x] else []
  {
    assert [x][..0] == [];
  }

  /** Components are taken in order: those of two runs of pieces are the
      first run's followed by the second's. With `ComponentsOne`, this
      fixes `Components` completely, order and repetitions included. */
  lemma {:induction false} ComponentsAppend(a: seq<string>, b: seq<string>)
    ensures Components(a + b) == Components(a) + Components(b)
    decreases |b|
  {
    if b != [] {
      var n := |b| - 1;
      assert (a + b)[..|a + b| - 1] == a + b[..n];
      assert (a + b)[|a + b| - 1] == b[n];
      ComponentsAppend(a, b[..n]);
      var tail := if Meaningful(b[n]) then [b[n]] else [];
      AppendAssoc(Components(a), Components(b[..n]), tail);
    } else {
      assert a + b == a;
    }
  }

  /** The place the path `p` names. */
  function Locate(p: string): (l: Location)
    ensures l.absolute <==> p != "" && p[0] == '/'
    ensures forall x :: x in l.parts ==> Meaningful(x) && '/' !in x
  {
    Location(p != "" && p[0] == '/', Components(Split(p, '/')))
  }

  /** The place itself and every directory above it, up to the root (or
      the working directory for a relative place). */
  function Ancestors(l: Location): (r: set<Location>)
    ensures forall a :: a in r <==> a.absolute == l.absolute && a.parts <= l.parts
  {
    assert forall a: Location :: a.parts <= l.parts ==> a.parts == l.parts[..|a.parts|];
    set i | 0 <= i <= |l.parts| :: Location(l.absolute, l.parts[..i])
  }

  /** The name of a path is the last component of its location. */
  lemma {:induction false} NameIsLastComponent(parts: seq<string>)
    ensures var c := Components(parts);
      LastMeaningful(parts) == if c == [] then "" else c[|c| - 1]
  {
    if parts != [] {
      var n := |parts| - 1;
      NameIsLastComponent(parts[..n]);
    }
  }

  /** A trailing slash does not change the place a path names. */
  lemma LocateTrailingSlash(p: string)
    requires p != ""
    ensures Locate(p + "/") == Locate(p)
  {
    assert p + "/" == p + ['/'] + "";
    SplitAppend(p, '/', "");
    var parts := Split(p + "/", '/');
    assert parts[..|parts| - 1] == Split(p, '/');
  }

  /** `dir/name` names the place `name` inside the place `dir` names. */
  lemma LocateChild(dir: string, name: string)
    requires dir != ""
    requires '/' !in name && Meaningful(name)
    ensures Locate(dir + "/" + name) == Location(Locate(dir).absolute, Locate(dir).parts + [name])
  {
    SplitAppend(dir, '/', name);
    var parts := Split(dir + "/" + name, '/');
    assert parts[..|parts| - 1] == Split(dir, '/');
    assert (dir + "/" + name)[0] == dir[0];
  }
}
