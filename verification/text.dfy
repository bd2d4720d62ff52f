/** The Python string primitives the section parser relies on, over ASCII:
    `str.isspace`, `str.isdigit`, `str.lower`, `str.strip`,
    `str.splitlines` and `str.join`. Characters outside ASCII are carried
    through unchanged and are never whitespace, digits or line breaks. */
module Text {

  /** `str.isspace` on one ASCII character: tab, line feed, vertical tab,
      form feed, carriage return, the separators 0x1C-0x1F and space. */
  predicate IsSpace(c: char) {
    (9 <= c as int <= 13) || (28 <= c as int <= 32)
  }

  /** A character at which `str.splitlines` ends a line (ASCII subset):
      line feed, vertical tab, form feed, carriage return and the
      separators 0x1C-0x1E. */
  predicate IsLineBreak(c: char) {
    (10 <= c as int <= 13) || (28 <= c as int <= 30)
  }

  /** `str.isdigit` on one ASCII character. */
  predicate IsDigit(c: char) {
    '0' <= c <= '9'
  }

  predicate IsUpper(c: char) {
    'A' <= c <= 'Z'
  }

  /** `str.lower` on one ASCII character. */
  function LowerChar(c: char): (r: char)
    ensures !IsUpper(r)
    ensures IsUpper(c) ==> r as int == c as int + 32
    ensures !IsUpper(c) ==> r == c
  {
    if IsUpper(c) then (c as int + 32) as char else c
  }

  /** No character of `s` is an upper-case letter. */
  predicate IsLowerCase(s: string) {
    forall i :: 0 <= i < |s| ==> !IsUpper(s[i])
  }

  /** No character of `s` is a line break. */
  predicate HasNoBreak(s: string) {
    forall i :: 0 <= i < |s| ==> !IsLineBreak(s[i])
  }

  /** `s` occurs in `t` as a contiguous run of characters. */
  predicate IsSubstring(s: string, t: string) {
    exists i :: 0 <= i <= |t| && s <= t[i..]
  }

  /** `s` has no whitespace at either end. */
  predicate IsTrimmed(s: string) {
    s == [] || (!IsSpace(s[0]) && !IsSpace(s[|s| - 1]))
  }

  /** `str.lower`: every ASCII capital is replaced by its small letter. */
  function Lower(s: string): (r: string)
    ensures |r| == |s|
    ensures IsLowerCase(r)
    ensures forall i :: 0 <= i < |s| ==> r[i] == LowerChar(s[i])
  {
    seq(|s|, i requires 0 <= i < |s| => LowerChar(s[i]))
  }

  /** Removes the maximal prefix of `s` whose characters satisfy `p`. */
  function DropWhile(s: string, p: char -> bool): (r: string)
    ensures |r| <= |s| && r == s[|s| - |r|..]
    ensures forall i :: 0 <= i < |s| - |r| ==> p(s[i])
    ensures r == [] || !p(r[0])
  {
    if s != [] && p(s[0]) then DropWhile(s[1..], p) else s
  }

  /** Removes the maximal suffix of `s` whose characters satisfy `p`. */
  function DropWhileEnd(s: string, p: char -> bool): (r: string)
    ensures |r| <= |s| && r == s[..|r|]
    ensures forall i :: |r| <= i < |s| ==> p(s[i])
    ensures r == [] || !p(r[|r| - 1])
  {
    if s != [] && p(s[|s| - 1]) then DropWhileEnd(s[..|s| - 1], p) else s
  }

  /** How many whitespace characters `str.strip()` removes at the front. */
  function LeadingSpaces(s: string): (n: nat)
    ensures n <= |s|
    ensures forall j :: 0 <= j < n ==> IsSpace(s[j])
    ensures n < |s| ==> !IsSpace(s[n])
  {
    |s| - |DropWhile(s, IsSpace)|
  }

  /** `str.strip()` with no argument: removes leading and trailing
      whitespace, and nothing else. */
  function Strip(s: string): (r: string)
    ensures IsTrimmed(r)
    ensures LeadingSpaces(s) + |r| <= |s|
    ensures r == s[LeadingSpaces(s)..LeadingSpaces(s) + |r|]
    ensures forall j :: LeadingSpaces(s) + |r| <= j < |s| ==> IsSpace(s[j])
  {
    DropWhileEnd(DropWhile(s, IsSpace), IsSpace)
  }

  /** A slice of a string is a substring of it. */
  lemma SliceIsSubstring(t: string, i: int, j: int)
    requires 0 <= i <= j <= |t|
    ensures IsSubstring(t[i..j], t)
  {
    assert t[i..j] <= t[i..];
  }

  /** Being a substring is transitive. */
  lemma SubstringTransitive(a: string, b: string, c: string)
    requires IsSubstring(a, b) && IsSubstring(b, c)
    ensures IsSubstring(a, c)
  {
    var i :| 0 <= i <= |b| && a <= b[i..];
    var j :| 0 <= j <= |c| && b <= c[j..];
    assert a == c[j + i..j + i + |a|];
    assert a <= c[j + i..];
  }

  /** Line-break-free strings keep that property in every substring. */
  lemma SubstringHasNoBreak(a: string, b: string)
    requires IsSubstring(a, b) && HasNoBreak(b)
    ensures HasNoBreak(a)
  {
    var i :| 0 <= i <= |b| && a <= b[i..];
    forall k | 0 <= k < |a|
      ensures !IsLineBreak(a[k])
    {
      assert a[k] == b[i + k];
    }
  }

  /** Lower-case strings stay lower-case in every substring. */
  lemma SubstringIsLowerCase(a: string, b: string)
    requires IsSubstring(a, b) && IsLowerCase(b)
    ensures IsLowerCase(a)
  {
    var i :| 0 <= i <= |b| && a <= b[i..];
    forall k | 0 <= k < |a|
      ensures !IsUpper(a[k])
    {
      assert a[k] == b[i + k];
    }
  }

  /** `Strip` returns a substring of its argument. */
  lemma StripIsSubstring(s: string)
    ensures IsSubstring(Strip(s), s)
  {
    var r := Strip(s);
    var i := LeadingSpaces(s);
    SliceIsSubstring(s, i, i + |r|);
  }

  /** Index of the first line break in `s`, or `|s|` when there is none. */
  function FirstBreak(s: string): (r: nat)
    ensures r <= |s|
    ensures forall j :: 0 <= j < r ==> !IsLineBreak(s[j])
    ensures r < |s| ==> IsLineBreak(s[r])
  {
    if s == [] || IsLineBreak(s[0]) then 0 else 1 + FirstBreak(s[1..])
  }

  /** `str.splitlines()` without `keepends`: the text is cut at every line
      break, a carriage return followed by a line feed counting as one
      break; the break characters are dropped and a final break does not
      start an extra empty line. */
  function SplitLines(s: string): (r: seq<string>)
    ensures forall k :: 0 <= k < |r| ==> HasNoBreak(r[k])
    ensures s == [] <==> r == []
    ensures s != [] ==> r[0] == s[..FirstBreak(s)]
    decreases |s|
  {
    if s == [] then []
    else
      var i := FirstBreak(s);
      if i == |s| then [s]
      else [s[..i]] + SplitLines(s[BreakEnd(s, i)..])
  }

  /** Where the line break at `i` ends: after the line feed of a carriage
      return and line feed pair, otherwise after the one character. */
  function BreakEnd(s: string, i: nat): (next: nat)
    requires i < |s| && IsLineBreak(s[i])
    ensures i < next <= |s|
    ensures forall j :: i <= j < next ==> IsLineBreak(s[j])
  {
    if s[i] == '\r' && i + 1 < |s| && s[i + 1] == '\n' then i + 2 else i + 1
  }

  /** `sep.join(parts)`. */
  function Join(sep: string, parts: seq<string>): (r: string)
    ensures parts == [] ==> r == []
    ensures |parts| == 1 ==> r == parts[0]
  {
    if parts == [] then []
    else if |parts| == 1 then parts[0]
    else Join(sep, parts[..|parts| - 1]) + sep + parts[|parts| - 1]
  }

  /** `Join` with a first part split off. */
  lemma {:induction false} JoinCons(sep: string, x: string, rest: seq<string>)
    requires rest != []
    ensures Join(sep, [x] + rest) == x + sep + Join(sep, rest)
    decreases |rest|
  {
    var y := [x] + rest;
    var last := rest[|rest| - 1];
    if |rest| == 1 {
      assert y[..|y| - 1] == [x];
    } else {
      var init := rest[..|rest| - 1];
      assert y[..|y| - 1] == [x] + init;
      JoinCons(sep, x, init);
      AppendAssoc(x + sep, Join(sep, init), sep + last);
    }
  }

  lemma AppendAssoc<T>(a: seq<T>, b: seq<T>, c: seq<T>)
    ensures (a + b) + c == a + (b + c)
  {
  }

  /** A string is its part before `i`, its part from `i` to `j`, and its
      part from `j` on. */
  lemma CutAt(s: string, i: nat, j: nat)
    requires i <= j <= |s|
    ensures s[..i] + s[i..j] + s[j..] == s
  {
  }

  /** `s` with every line-break character removed. */
  function DropBreaks(s: string): (r: string)
    ensures HasNoBreak(r)
  {
    if s == [] then []
    else (if IsLineBreak(s[0]) then [] else [s[0]]) + DropBreaks(s[1..])
  }

  lemma {:induction false} DropBreaksAppend(a: string, b: string)
    ensures DropBreaks(a + b) == DropBreaks(a) + DropBreaks(b)
    decreases |a|
  {
    if a != [] {
      var h := if IsLineBreak(a[0]) then [] else [a[0]];
      assert (a + b)[0] == a[0];
      assert (a + b)[1..] == a[1..] + b;
      assert DropBreaks(a + b) == h + DropBreaks(a[1..] + b);
      assert DropBreaks(a) == h + DropBreaks(a[1..]);
      DropBreaksAppend(a[1..], b);
      AppendAssoc(h, DropBreaks(a[1..]), DropBreaks(b));
    } else {
      assert a + b == b;
    }
  }

  lemma {:induction false} DropBreaksKeeps(s: string)
    requires HasNoBreak(s)
    ensures DropBreaks(s) == s
    decreases |s|
  {
    if s != [] {
      DropBreaksKeeps(s[1..]);
    }
  }

  lemma {:induction false} DropBreaksOfBreaks(s: string)
    requires forall i :: 0 <= i < |s| ==> IsLineBreak(s[i])
    ensures DropBreaks(s) == []
    decreases |s|
  {
    if s != [] {
      DropBreaksOfBreaks(s[1..]);
    }
  }

  /** The lines of a text, put back together, are the text without its
      line breaks: `splitlines` drops the break characters and nothing
      else, and keeps the order. */
  lemma {:induction false} SplitLinesJoin(s: string)
    ensures Join("", SplitLines(s)) == DropBreaks(s)
    decreases |s|
  {
    if s != [] {
      var i := FirstBreak(s);
      if i == |s| {
        DropBreaksKeeps(s);
      } else {
        var rest := s[BreakEnd(s, i)..];
        SplitLinesJoin(rest);
        DropBreaksLine(s, i);
        if rest == [] {
          assert SplitLines(s) == [s[..i]] + [];
        } else {
          JoinCons("", s[..i], SplitLines(rest));
        }
      }
    }
  }

  /** Every line-break character of `s` is a line feed. */
  predicate OnlyLineFeeds(s: string) {
    forall j :: 0 <= j < |s| && IsLineBreak(s[j]) ==> s[j] == '\n'
  }

  /** The line feed `splitlines` drops at the end of `s`, if any. */
  function FinalLineFeed(s: string): string {
    if s != [] && s[|s| - 1] == '\n' then "\n" else ""
  }

  /** For a text whose only breaks are line feeds, the lines rejoined with
      "\n" give back the text, up to a final line feed, which `splitlines`
      drops. With "no line holds a break", this fixes every line: they are
      exactly the pieces between consecutive line feeds. */
  lemma {:induction false} SplitLinesRejoin(s: string)
    requires OnlyLineFeeds(s)
    ensures Join("\n", SplitLines(s)) + FinalLineFeed(s) == s
    decreases |s|
  {
    if s != [] {
      var i := FirstBreak(s);
      if i < |s| {
        var line, rest := s[..i], s[i + 1..];
        assert s[i] == '\n';
        SplitAtLineFeed(s, i);
        if rest == [] {
          assert SplitLines(s) == [line];
          assert FinalLineFeed(s) == "\n";
        } else {
          OnlyLineFeedsSuffix(s, i + 1);
          FinalLineFeedSuffix(s, i + 1);
          SplitLinesRejoin(rest);
          RejoinCons(line, rest, SplitLines(rest), FinalLineFeed(s));
        }
      }
    }
  }

  /** Cutting at the first break when it is a line feed: the first line,
      then the lines of the rest. */
  lemma SplitAtLineFeed(s: string, i: nat)
    requires i == FirstBreak(s) && i < |s| && s[i] == '\n'
    ensures s == s[..i] + "\n" + s[i + 1..]
    ensures SplitLines(s) == [s[..i]] + SplitLines(s[i + 1..])
  {
    assert BreakEnd(s, i) == i + 1;
    CutAt(s, i, i + 1);
    assert s[i..i + 1] == "\n";
  }

  /** A non-empty suffix ends as the text does. */
  lemma FinalLineFeedSuffix(s: string, k: nat)
    requires k < |s|
    ensures FinalLineFeed(s[k..]) == FinalLineFeed(s)
  {
    assert s[k..][|s| - k - 1] == s[|s| - 1];
  }

  /** A suffix of a text whose breaks are line feeds has only line feeds
      as breaks too. */
  lemma OnlyLineFeedsSuffix(s: string, k: nat)
    requires OnlyLineFeeds(s) && k <= |s|
    ensures OnlyLineFeeds(s[k..])
  {
    var rest := s[k..];
    assert forall j :: 0 <= j < |rest| ==> rest[j] == s[k + j];
  }

  /** One more line in front of a rejoined text. */
  lemma RejoinCons(line: string, rest: string, parts: seq<string>, tail: string)
    requires parts != [] && Join("\n", parts) + tail == rest
    ensures Join("\n", [line] + parts) + tail == line + "\n" + rest
  {
    JoinCons("\n", line, parts);
    AppendAssoc(line + "\n", Join("\n", parts), tail);
  }

  /** Removing the breaks from a text whose first break is at `i` keeps
      the first line and continues after that break. */
  lemma DropBreaksLine(s: string, i: nat)
    requires i == FirstBreak(s) && i < |s|
    ensures DropBreaks(s) == s[..i] + DropBreaks(s[BreakEnd(s, i)..])
  {
    var next := BreakEnd(s, i);
    var gap := s[i..next];
    assert forall j :: 0 <= j < |gap| ==> gap[j] == s[i + j];
    CutAt(s, i, next);
    DropBreaksThree(s[..i], gap, s[next..]);
  }

  lemma DropBreaksThree(line: string, gap: string, rest: string)
    requires HasNoBreak(line)
    requires forall j :: 0 <= j < |gap| ==> IsLineBreak(gap[j])
    ensures DropBreaks(line + gap + rest) == line + DropBreaks(rest)
  {
    DropBreaksAppend(line + gap, rest);
    DropBreaksAppend(line, gap);
    DropBreaksKeeps(line);
    DropBreaksOfBreaks(gap);
    assert DropBreaks(line + gap) == line + [];
    assert line + [] == line;
  }

  /** The number of line-break characters in `s`. */
  function BreakCount(s: string): (n: nat)
    ensures n == 0 <==> HasNoBreak(s)
    ensures n <= |s|
  {
    if s == [] then 0
    else BreakCount(s[..|s| - 1]) + (if IsLineBreak(s[|s| - 1]) then 1 else 0)
  }

  lemma {:induction false} BreakCountAppend(a: string, b: string)
    ensures BreakCount(a + b) == BreakCount(a) + BreakCount(b)
    decreases |b|
  {
    if b == [] {
      assert a + b == a;
    } else {
      var b' := b[..|b| - 1];
      assert (a + b)[..|a + b| - 1] == a + b';
      BreakCountAppend(a, b');
    }
  }

  /** `s` with every occurrence of `c` deleted. */
  function Delete(s: string, c: char): (r: string)
    ensures c !in r
    ensures |r| <= |s|
  {
    if s == [] then []
    else Delete(s[..|s| - 1], c) + (if s[|s| - 1] == c then [] else [s[|s| - 1]])
  }

  lemma {:induction false} DeleteAppend(a: string, b: string, c: char)
    ensures Delete(a + b, c) == Delete(a, c) + Delete(b, c)
    decreases |b|
  {
    if b == [] {
      assert a + b == a;
    } else {
      var b' := b[..|b| - 1];
      assert (a + b)[..|a + b| - 1] == a + b';
      DeleteAppend(a, b', c);
    }
  }

  lemma {:induction false} DeleteAbsent(s: string, c: char)
    requires c !in s
    ensures Delete(s, c) == s
    decreases |s|
  {
    if s != [] {
      DeleteAbsent(s[..|s| - 1], c);
    }
  }

  /** Deleting the separator from a `sep`-joined text gives the plain
      concatenation, provided the parts do not contain the separator. */
  lemma {:induction false} JoinDeleteSeparator(c: char, parts: seq<string>)
    requires forall k :: 0 <= k < |parts| ==> c !in parts[k]
    ensures Delete(Join([c], parts), c) == Join("", parts)
    decreases |parts|
  {
    if parts == [] {
    } else if |parts| == 1 {
      DeleteAbsent(parts[0], c);
    } else {
      var init := parts[..|parts| - 1];
      var last := parts[|parts| - 1];
      var j := Join([c], init);
      assert Join([c], parts) == j + [c] + last;
      assert Join("", parts) == Join("", init) + [] + last;
      JoinDeleteSeparator(c, init);
      assert Delete(j, c) == Join("", init);
      DeleteAppend(j + [c], last, c);
      DeleteAppend(j, [c], c);
      DeleteAbsent(last, c);
      assert Delete([c], c) == [];
      assert Delete(j + [c] + last, c) == Join("", init) + [] + last;
    }
  }
}
