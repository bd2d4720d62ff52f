/** Heading-aware section segmentation (`core/pdf_parser.py`).

    The page texts are joined with one space and cut into lines. Each
    stripped, non-blank line is either a heading, when its normalised form
    is one of the recognised section titles, or content. A heading makes its
    section current (registering an empty bucket the first time it is
    seen); content is appended to the current section's bucket, which is
    "unknown" until the first heading. The buckets are an insertion-ordered
    association list, as Python's `dict` is. */
module PdfParser {
  import opened Text
  import opened Documents

  /** The recognised section vocabulary, in the source's order. */
  const SectionTitles: seq<string> := [
    "abstract",
    "introduction",
    "methods",
    "methodology",
    "experiments",
    "results",
    "discussion",
    "conclusion",
    "references"
  ]

  /** The section that receives content seen before any heading. */
  const Unknown: string := "unknown"

  /** Characters the numbering prefix of a heading may consist of. */
  predicate IsNumberingChar(c: char) {
    IsDigit(c) || c == '.' || c == ' '
  }

  /** The `while` loop of `normalize_heading`: drops the maximal leading
      run of digits, dots and spaces, and nothing else. */
  function StripNumbering(s: string): (r: string)
    ensures |r| <= |s| && r == s[|s| - |r|..]
    ensures forall i :: 0 <= i < |s| - |r| ==> IsNumberingChar(s[i])
    ensures r == [] || !IsNumberingChar(r[0])
  {
    DropWhile(s, IsNumberingChar)
  }

  /** `normalize_heading`: strip, lower-case, drop the numbering prefix,
      strip again. The result is lower-case, trimmed, and a piece of the
      stripped, lower-cased line. */
  function NormalizeHeading(line: string): (r: string)
    ensures IsLowerCase(r)
    ensures IsTrimmed(r)
    ensures IsSubstring(r, Lower(Strip(line)))
  {
    var lowered := Lower(Strip(line));
    var unnumbered := StripNumbering(lowered);
    var r := Strip(unnumbered);
    StripIsSubstring(unnumbered);
    SliceIsSubstring(lowered, |lowered| - |unnumbered|, |lowered|);
    SubstringTransitive(r, unnumbered, lowered);
    SubstringIsLowerCase(r, lowered);
    r
  }

  /** A non-empty run of ASCII letters, in either case. */
  predicate IsWord(w: string) {
    w != [] && forall i :: 0 <= i < |w| ==> ('a' <= w[i] <= 'z' || 'A' <= w[i] <= 'Z')
  }

  /** A heading written as a numbering prefix ("4. ", "2.1 ", "3 ") and a
      word normalises to the lower-cased word: the whole prefix goes, and
      nothing of the word. */
  lemma NormalizeNumberedWord(prefix: string, w: string)
    requires forall i :: 0 <= i < |prefix| ==> IsNumberingChar(prefix[i])
    requires IsWord(w)
    ensures NormalizeHeading(prefix + w) == Lower(w)
  {
    var s := prefix + w;
    StripBeforeWord(s, |prefix|);
    var n := LeadingSpaces(s);
    var q := prefix[n..];
    assert s[n..] == q + w;
    LowerNumberedWord(q, w);
    LowerWord(w);
    DropNumberingPrefix(q, Lower(w));
    StripWord(Lower(w));
  }

  /** Lower-casing a numbering prefix followed by a word lower-cases only
      the word. */
  lemma LowerNumberedWord(q: string, w: string)
    requires forall i :: 0 <= i < |q| ==> IsNumberingChar(q[i])
    ensures Lower(q + w) == q + Lower(w)
  {
    assert forall i :: 0 <= i < |q| ==> Lower(q + w)[i] == q[i];
    assert forall i :: |q| <= i < |q| + |w| ==> Lower(q + w)[i] == Lower(w)[i - |q|];
  }

  /** A lower-cased word is still a word, and its first letter is not a
      numbering character. */
  lemma LowerWord(w: string)
    requires IsWord(w)
    ensures IsWord(Lower(w))
    ensures !IsNumberingChar(Lower(w)[0])
  {
  }

  /** `Strip` of a text that ends in a word removes only leading spaces,
      and those lie before the word. */
  lemma StripBeforeWord(s: string, k: nat)
    requires k < |s| && IsWord(s[k..])
    ensures LeadingSpaces(s) <= k
    ensures Strip(s) == s[LeadingSpaces(s)..]
  {
    assert s[k..][0] == s[k];
    assert s[k..][|s| - 1 - k] == s[|s| - 1];
  }

  /** `StripNumbering` removes a numbering prefix and stops at the first
      character that is not a digit, dot or space. */
  lemma DropNumberingPrefix(q: string, w: string)
    requires forall i :: 0 <= i < |q| ==> IsNumberingChar(q[i])
    requires w != [] && !IsNumberingChar(w[0])
    ensures StripNumbering(q + w) == w
  {
    var s := q + w;
    var r := StripNumbering(s);
    assert s[|q|] == w[0];
    assert |s| - |r| == |q|;
    assert s[|q|..] == w;
  }

  /** A word has nothing to strip. */
  lemma StripWord(w: string)
    requires IsWord(w)
    ensures Strip(w) == w
  {
    StripBeforeWord(w, 0);
    assert w[0..] == w;
  }

  /** A numbered title line, in any letter case, is a heading for that
      title: "4. Introduction" opens the introduction, "2.1 Methods" the
      methods. */
  lemma NumberedTitleIsHeading(prefix: string, w: string)
    requires forall i :: 0 <= i < |prefix| ==> IsNumberingChar(prefix[i])
    requires IsWord(w) && Lower(w) in SectionTitles
    ensures Classify(prefix + w) == Heading(Lower(w))
  {
    var s := prefix + w;
    StripBeforeWord(s, |prefix|);
    var q' := prefix[LeadingSpaces(s)..];
    assert Strip(s) == q' + w;
    NormalizeNumberedWord(q', w);
  }

  // ---------------------------------------------------------------------
  // Classifying one line of the text.
  // ---------------------------------------------------------------------

  /** What one line of the text is to the parser. */
  datatype Line = Blank | Heading(name: string) | Content(text: string)

  /** The body of the `for` loop up to its dispatch: the line is stripped;
      an empty line is skipped; a line whose normalised form is a
      recognised title is a heading for that title; any other line is
      content, kept in its stripped form. */
  function Classify(raw: string): (k: Line)
    ensures k.Blank? <==> Strip(raw) == []
    ensures k.Heading? ==> k.name in SectionTitles && k.name == NormalizeHeading(Strip(raw))
    ensures k.Content? ==> k.text == Strip(raw) && k.text != [] && NormalizeHeading(k.text) !in SectionTitles
  {
    var line := Strip(raw);
    if line == [] then Blank
    else
      var normalized := NormalizeHeading(line);
      if normalized in SectionTitles then Heading(normalized) else Content(line)
  }

  /** Every line of the input, classified. */
  function ClassifyAll(lines: seq<string>): (r: seq<Line>)
    ensures |r| == |lines|
    ensures forall i :: 0 <= i < |lines| ==> r[i] == Classify(lines[i])
  {
    seq(|lines|, i requires 0 <= i < |lines| => Classify(lines[i]))
  }

  /** Headings only ever name recognised titles, as `Classify` guarantees. */
  predicate HeadingsRecognised(ks: seq<Line>) {
    forall i :: 0 <= i < |ks| && ks[i].Heading? ==> ks[i].name in SectionTitles
  }

  // ---------------------------------------------------------------------
  // The parser's state: the current section and the ordered buckets.
  // ---------------------------------------------------------------------

  datatype Bucket = Bucket(name: string, lines: seq<string>)

  datatype ParseState = ParseState(current: string, buckets: seq<Bucket>)

  /** The keys of the bucket list, in insertion order. */
  function Names(bs: seq<Bucket>): (r: seq<string>)
    ensures |r| == |bs|
    ensures forall i :: 0 <= i < |bs| ==> r[i] == bs[i].name
  {
    seq(|bs|, i requires 0 <= i < |bs| => bs[i].name)
  }

  predicate Distinct(s: seq<string>) {
    forall i, j :: 0 <= i < j < |s| ==> s[i] != s[j]
  }

  /** The position of the first occurrence of `x` in `s`. */
  function IndexOf(s: seq<string>, x: string): (r: nat)
    requires x in s
    ensures r < |s| && s[r] == x
    ensures forall j :: 0 <= j < r ==> s[j] != x
  {
    if s[0] == x then 0 else 1 + IndexOf(s[1..], x)
  }

  /** The lines stored under `name`, or none when it has no bucket: the
      bucket list read as a dictionary. */
  function Lookup(bs: seq<Bucket>, name: string): seq<string> {
    if name in Names(bs) then bs[IndexOf(Names(bs), name)].lines else []
  }

  /** With distinct keys, each bucket is what its key looks up. */
  lemma LookupBucket(bs: seq<Bucket>, i: int)
    requires Distinct(Names(bs)) && 0 <= i < |bs|
    ensures Lookup(bs, bs[i].name) == bs[i].lines
  {
    var k := IndexOf(Names(bs), bs[i].name);
    assert Names(bs)[k] == Names(bs)[i];
  }

  /** `sections.setdefault(name, [])`: adds an empty bucket at the end for
      a name that has none; an existing bucket is left as it is. */
  function Register(bs: seq<Bucket>, name: string): (r: seq<Bucket>)
    ensures name in Names(r)
    ensures Names(r) == if name in Names(bs) then Names(bs) else Names(bs) + [name]
    ensures Flatten(r) == Flatten(bs)
  {
    if name in Names(bs) then bs
    else
      var r := bs + [Bucket(name, [])];
      assert Names(r) == Names(bs) + [name];
      FlattenAppend(bs, Bucket(name, []));
      r
  }

  /** `setdefault` changes no stored line. */
  lemma RegisterLookup(bs: seq<Bucket>, name: string, n: string)
    ensures Lookup(Register(bs, name), n) == Lookup(bs, n)
  {
    if name !in Names(bs) && n in Names(bs) {
      IndexOfPrefix(Names(bs), [name], n);
    }
  }

  lemma IndexOfPrefix(s: seq<string>, t: seq<string>, x: string)
    requires x in s
    ensures IndexOf(s + t, x) == IndexOf(s, x)
  {
    if s[0] != x {
      assert (s + t)[1..] == s[1..] + t;
      IndexOfPrefix(s[1..], t, x);
    }
  }

  /** `sections.setdefault(name, []).append(line)`: the keys are those of
      `setdefault`. */
  function AppendLine(bs: seq<Bucket>, name: string, line: string): (r: seq<Bucket>)
    ensures Names(r) == Names(Register(bs, name))
  {
    var reg := Register(bs, name);
    var k := IndexOf(Names(reg), name);
    var r := reg[k := Bucket(name, reg[k].lines + [line])];
    assert Names(r) == Names(reg);
    r
  }

  /** The append adds exactly `line` to the flattened contents. */
  lemma AppendLineFlatten(bs: seq<Bucket>, name: string, line: string)
    ensures multiset(Flatten(AppendLine(bs, name, line))) == multiset(Flatten(bs)) + multiset{line}
  {
    var reg := Register(bs, name);
    var k := IndexOf(Names(reg), name);
    FlattenUpdate(reg, k, Bucket(name, reg[k].lines + [line]), line);
  }

  /** After the append, `line` is stored last under `name`, and what is
      stored under every other name is unchanged. */
  lemma AppendLineLookup(bs: seq<Bucket>, name: string, line: string, n: string)
    ensures Lookup(AppendLine(bs, name, line), n) == Lookup(bs, n) + (if n == name then [line] else [])
  {
    var reg := Register(bs, name);
    var k := IndexOf(Names(reg), name);
    var r := AppendLine(bs, name, line);
    RegisterLookup(bs, name, n);
    if n != name && n in Names(reg) {
      var j := IndexOf(Names(reg), n);
      assert j != k;
      assert r[j] == reg[j];
    }
  }

  /** The dispatch of the `for` loop: a heading becomes the current section
      and gets a bucket; content goes to the current section's bucket. */
  function Step(st: ParseState, k: Line): ParseState {
    match k
    case Blank => st
    case Heading(h) => ParseState(h, Register(st.buckets, h))
    case Content(t) => ParseState(st.current, AppendLine(st.buckets, st.current, t))
  }

  /** The parser's state after the given lines, starting in "unknown"
      with no buckets. */
  function Run(ks: seq<Line>): (r: ParseState)
    ensures |r.buckets| <= |ks|
    ensures r.current == Unknown || r.current in Names(r.buckets)
  {
    if ks == [] then ParseState(Unknown, [])
    else Step(Run(ks[..|ks| - 1]), ks[|ks| - 1])
  }

  /** Concatenation of the buckets' lines in key order. */
  function Flatten(bs: seq<Bucket>): seq<string> {
    if bs == [] then [] else Flatten(bs[..|bs| - 1]) + bs[|bs| - 1].lines
  }

  // ---------------------------------------------------------------------
  // Reference definitions, stated over the classified lines alone.
  // ---------------------------------------------------------------------

  /** The content lines of the input, in input order. */
  function ContentLines(ks: seq<Line>): seq<string> {
    if ks == [] then [] else ContentLines(ks[..|ks| - 1]) + LineContent(ks[|ks| - 1])
  }

  /** The text a single line contributes, if it is content. */
  function LineContent(k: Line): seq<string> {
    if k.Content? then [k.text] else []
  }

  /** The section in force after the given lines: the last heading's name,
      or "unknown" when there is none. */
  function CurrentSection(ks: seq<Line>): string {
    if ks == [] then Unknown
    else if ks[|ks| - 1].Heading? then ks[|ks| - 1].name
    else CurrentSection(ks[..|ks| - 1])
  }

  /** The content lines that fall under section `name`, in input order. */
  function SectionLines(ks: seq<Line>, name: string): seq<string> {
    if ks == [] then []
    else
      var init := ks[..|ks| - 1];
      var last := ks[|ks| - 1];
      SectionLines(init, name)
        + (if last.Content? && CurrentSection(init) == name then [last.text] else [])
  }

  /** For each non-blank line, the section it touches: a heading the
      section it names, a content line the section in force. */
  function Touched(ks: seq<Line>): seq<string> {
    if ks == [] then []
    else
      var init := ks[..|ks| - 1];
      var last := ks[|ks| - 1];
      Touched(init)
        + (match last
           case Blank => []
           case Heading(h) => [h]
           case Content(_) => [CurrentSection(init)])
  }

  /** The first occurrence of each element, in order of first appearance. */
  function Dedup(s: seq<string>): (r: seq<string>)
    ensures Distinct(r)
    ensures forall x :: x in r <==> x in s
  {
    if s == [] then []
    else
      var d := Dedup(s[..|s| - 1]);
      if s[|s| - 1] in d then d else d + [s[|s| - 1]]
  }

  /** Once a section is left it is never entered again: two equal entries
      of `s` are separated only by that same entry. */
  predicate NoReentry(s: seq<string>) {
    forall i, k, j :: 0 <= i < k < j < |s| && s[i] == s[j] ==> s[k] == s[i]
  }

  /** Some content line precedes every heading. */
  predicate HasLeadingContent(ks: seq<Line>) {
    exists i :: 0 <= i < |ks| && ks[i].Content? && forall j :: 0 <= j < i ==> !ks[j].Heading?
  }

  // ---------------------------------------------------------------------
  // Properties of the parsing loop.
  // ---------------------------------------------------------------------

  /** The invariant of the parsing loop: the current section is the last
      heading's, the keys are the touched sections in order of first
      appearance, and each section's bucket holds exactly its content lines
      in input order. */
  lemma {:induction false} RunInvariant(ks: seq<Line>)
    ensures Run(ks).current == CurrentSection(ks)
    ensures Names(Run(ks).buckets) == Dedup(Touched(ks))
    ensures forall n :: Lookup(Run(ks).buckets, n) == SectionLines(ks, n)
  {
    if ks != [] {
      var init := ks[..|ks| - 1];
      RunInvariant(init);
      var st := Run(init);
      match ks[|ks| - 1]
      case Blank =>
        assert Touched(ks) == Touched(init);
        assert forall n :: SectionLines(ks, n) == SectionLines(init, n);
      case Heading(h) =>
        assert Touched(ks) == Touched(init) + [h];
        forall n
          ensures Lookup(Run(ks).buckets, n) == SectionLines(ks, n)
        {
          RegisterLookup(st.buckets, h, n);
        }
      case Content(t) =>
        assert Touched(ks) == Touched(init) + [st.current];
        forall n
          ensures Lookup(Run(ks).buckets, n) == SectionLines(ks, n)
        {
          AppendLineLookup(st.buckets, st.current, t, n);
        }
    }
  }

  /** The loop's current section and keys, without the bucket contents. */
  lemma RunShape(ks: seq<Line>)
    ensures Run(ks).current == CurrentSection(ks)
    ensures Names(Run(ks).buckets) == Dedup(Touched(ks))
  {
    RunInvariant(ks);
  }

  /** Each bucket holds exactly its section's content lines. */
  lemma BucketHoldsSectionLines(ks: seq<Line>)
    ensures Distinct(Names(Run(ks).buckets))
    ensures forall i :: 0 <= i < |Run(ks).buckets| ==>
      Run(ks).buckets[i].lines == SectionLines(ks, Run(ks).buckets[i].name)
  {
    RunInvariant(ks);
    var bs := Run(ks).buckets;
    forall i | 0 <= i < |bs|
      ensures bs[i].lines == SectionLines(ks, bs[i].name)
    {
      LookupBucket(bs, i);
    }
  }

  /** One entry per distinct section, in order of first appearance; a
      heading that is never followed by content still has its entry. */
  lemma KeysInFirstAppearanceOrder(ks: seq<Line>)
    ensures Names(Run(ks).buckets) == Dedup(Touched(ks))
    ensures Distinct(Names(Run(ks).buckets))
    ensures forall i :: 0 <= i < |ks| && ks[i].Heading? ==> ks[i].name in Names(Run(ks).buckets)
  {
    RunInvariant(ks);
    forall i | 0 <= i < |ks| && ks[i].Heading?
      ensures ks[i].name in Touched(ks)
    {
      HeadingIsTouched(ks, i);
    }
  }

  lemma {:induction false} HeadingIsTouched(ks: seq<Line>, i: int)
    requires 0 <= i < |ks| && ks[i].Heading?
    ensures ks[i].name in Touched(ks)
  {
    var init := ks[..|ks| - 1];
    if i < |ks| - 1 {
      HeadingIsTouched(init, i);
    }
  }

  lemma {:induction false} TouchedInVocabulary(ks: seq<Line>)
    requires HeadingsRecognised(ks)
    ensures CurrentSection(ks) == Unknown || CurrentSection(ks) in SectionTitles
    ensures forall x :: x in Touched(ks) ==> x == Unknown || x in SectionTitles
  {
    if ks != [] {
      TouchedInVocabulary(ks[..|ks| - 1]);
    }
  }

  /** Every key of the section map is "unknown" or a recognised title. */
  lemma KeysInVocabulary(ks: seq<Line>)
    requires HeadingsRecognised(ks)
    ensures forall i :: 0 <= i < |Run(ks).buckets| ==>
      Run(ks).buckets[i].name == Unknown || Run(ks).buckets[i].name in SectionTitles
  {
    TouchedInVocabulary(ks);
    RunInvariant(ks);
    var bs := Run(ks).buckets;
    forall i | 0 <= i < |bs|
      ensures bs[i].name == Unknown || bs[i].name in SectionTitles
    {
      assert bs[i].name in Names(bs);
    }
  }

  /** The section in force is "unknown" exactly while no heading was seen. */
  lemma {:induction false} CurrentUnknownIffNoHeading(ks: seq<Line>)
    requires HeadingsRecognised(ks)
    ensures CurrentSection(ks) == Unknown <==> forall j :: 0 <= j < |ks| ==> !ks[j].Heading?
  {
    if ks != [] {
      var init := ks[..|ks| - 1];
      assert HeadingsRecognised(init);
      CurrentUnknownIffNoHeading(init);
      if ks[|ks| - 1].Heading? {
        assert ks[|ks| - 1].name in SectionTitles;
      } else {
        assert forall j :: 0 <= j < |init| ==> init[j] == ks[j];
      }
    }
  }

  /** Leading content of a longer input: leading content of the shorter
      one, or a content line after no heading at all. */
  lemma LeadingContentSnoc(ks: seq<Line>)
    requires ks != []
    ensures HasLeadingContent(ks) <==>
      HasLeadingContent(ks[..|ks| - 1])
      || (ks[|ks| - 1].Content? && forall j :: 0 <= j < |ks| - 1 ==> !ks[j].Heading?)
  {
    var init := ks[..|ks| - 1];
    if HasLeadingContent(init) {
      var i :| 0 <= i < |init| && init[i].Content? && forall j :: 0 <= j < i ==> !init[j].Heading?;
      assert ks[i] == init[i];
    }
    if HasLeadingContent(ks) {
      var i :| 0 <= i < |ks| && ks[i].Content? && forall j :: 0 <= j < i ==> !ks[j].Heading?;
      if i < |init| {
        assert init[i] == ks[i];
      }
    }
  }

  lemma {:induction false} UnknownTouchedIffLeadingContent(ks: seq<Line>)
    requires HeadingsRecognised(ks)
    ensures Unknown in Touched(ks) <==> HasLeadingContent(ks)
  {
    if ks != [] {
      var init := ks[..|ks| - 1];
      var last := ks[|ks| - 1];
      assert HeadingsRecognised(init);
      UnknownTouchedIffLeadingContent(init);
      CurrentUnknownIffNoHeading(init);
      LeadingContentSnoc(ks);
      assert forall j :: 0 <= j < |ks| - 1 ==> ks[j] == init[j];
      if last.Heading? {
        assert last.name in SectionTitles;
        assert Touched(ks) == Touched(init) + [last.name];
      } else if last.Blank? {
        assert Touched(ks) == Touched(init);
      } else {
        assert Touched(ks) == Touched(init) + [CurrentSection(init)];
      }
    }
  }

  /** "unknown" is a key exactly when some content line precedes the first
      recognised heading. */
  lemma UnknownKeyIffLeadingContent(ks: seq<Line>)
    requires HeadingsRecognised(ks)
    ensures Unknown in Names(Run(ks).buckets) <==> HasLeadingContent(ks)
  {
    RunInvariant(ks);
    UnknownTouchedIffLeadingContent(ks);
  }

  lemma {:induction false} FlattenAppend(bs: seq<Bucket>, b: Bucket)
    ensures Flatten(bs + [b]) == Flatten(bs) + b.lines
  {
    assert (bs + [b])[..|bs|] == bs;
  }

  /** Appending one line to one bucket adds exactly that line to the
      flattened contents. */
  lemma {:induction false} FlattenUpdate(bs: seq<Bucket>, k: int, b: Bucket, line: string)
    requires 0 <= k < |bs| && b.lines == bs[k].lines + [line]
    ensures multiset(Flatten(bs[k := b])) == multiset(Flatten(bs)) + multiset{line}
  {
    var init := bs[..|bs| - 1];
    SplitLast(bs);
    if k == |bs| - 1 {
      UpdateLast(bs, b);
      FlattenAppend(init, b);
      FlattenAppend(init, bs[k]);
      var f := Flatten(init);
      assert Flatten(bs[k := b]) == f + (bs[k].lines + [line]);
      assert Flatten(bs) == f + bs[k].lines;
      AppendAssoc(f, bs[k].lines, [line]);
    } else {
      var last := bs[|bs| - 1];
      FlattenUpdate(init, k, b, line);
      UpdateBeforeLast(bs, k, b);
      FlattenAppend(init[k := b], last);
      FlattenAppend(init, last);
      var m := multiset(Flatten(init[k := b]));
      assert multiset(Flatten(bs[k := b])) == m + multiset(last.lines);
      assert multiset(Flatten(bs)) == multiset(Flatten(init)) + multiset(last.lines);
    }
  }

  lemma PairConcat<T>(x: T, y: T)
    ensures [x] + [y] == [x, y]
  {
  }

  lemma SplitLast<T>(s: seq<T>)
    requires s != []
    ensures s == s[..|s| - 1] + [s[|s| - 1]]
  {
  }

  lemma UpdateLast<T>(s: seq<T>, x: T)
    requires s != []
    ensures s[|s| - 1 := x] == s[..|s| - 1] + [x]
  {
  }

  lemma UpdateBeforeLast<T>(s: seq<T>, k: int, x: T)
    requires 0 <= k < |s| - 1
    ensures s[k := x] == s[..|s| - 1][k := x] + [s[|s| - 1]]
  {
  }

  /** Partition: the buckets together hold the content lines of the input,
      each exactly once; headings and blank lines are never content. */
  lemma {:induction false} Partition(ks: seq<Line>)
    ensures multiset(Flatten(Run(ks).buckets)) == multiset(ContentLines(ks))
  {
    if ks != [] {
      var init := ks[..|ks| - 1];
      Partition(init);
      var st := Run(init);
      if ks[|ks| - 1].Content? {
        AppendLineFlatten(st.buckets, st.current, ks[|ks| - 1].text);
      }
    }
  }

  /** The shape `PartitionInOrder` keeps: the last bucket belongs to the
      last touched section, and there are no buckets before any section
      is touched. */
  predicate TailMatches(ks: seq<Line>) {
    var bs := Run(ks).buckets;
    var t := Touched(ks);
    (t == [] ==> bs == [])
    && (t != [] ==> |bs| > 0 && bs[|bs| - 1].name == t[|t| - 1])
  }

  /** When no section is re-entered after being left, the buckets
      concatenated in key order are exactly the content lines in input
      order. */
  lemma {:induction false} PartitionInOrder(ks: seq<Line>)
    requires NoReentry(Touched(ks))
    ensures Flatten(Run(ks).buckets) == ContentLines(ks)
    ensures TailMatches(ks)
  {
    if ks != [] {
      var init := ks[..|ks| - 1];
      var t0 := Touched(init);
      var t := Touched(ks);
      assert t[..|t0|] == t0;
      assert NoReentry(t0);
      PartitionInOrder(init);
      SplitLast(ks);
      match ks[|ks| - 1]
      case Blank =>
        assert t == t0;
        RunSnoc(init, Blank);
      case Heading(h) =>
        assert t == t0 + [h];
        if h in t0 {
          var i :| 0 <= i < |t0| && t0[i] == h;
          if i < |t0| - 1 {
            assert t[i] == t[|t0|];
          }
        }
        InOrderHeadingStep(init, h);
      case Content(c) =>
        InOrderContentStep(init, c);
    }
  }

  lemma InOrderHeadingStep(init: seq<Line>, h: string)
    requires var t0 := Touched(init); h in t0 ==> t0[|t0| - 1] == h
    requires Flatten(Run(init).buckets) == ContentLines(init)
    requires TailMatches(init)
    ensures Flatten(Run(init + [Heading(h)]).buckets) == ContentLines(init + [Heading(h)])
    ensures TailMatches(init + [Heading(h)])
  {
    var st := Run(init);
    var bs := st.buckets;
    var t0 := Touched(init);
    RunSnoc(init, Heading(h));
    TouchedHeading(init, h);
    RunShape(init);
    if h in Names(bs) {
      assert h in Dedup(t0);
      assert Register(bs, h) == bs;
    } else {
      RegisterNew(bs, h);
    }
  }

  lemma InOrderContentStep(init: seq<Line>, c: string)
    requires Flatten(Run(init).buckets) == ContentLines(init)
    requires TailMatches(init)
    ensures Flatten(Run(init + [Content(c)]).buckets) == ContentLines(init + [Content(c)])
    ensures TailMatches(init + [Content(c)])
  {
    var st := Run(init);
    var bs := st.buckets;
    var cur := st.current;
    var t0 := Touched(init);
    RunSnoc(init, Content(c));
    TouchedContent(init, c);
    RunShape(init);
    if t0 == [] {
      assert bs == [];
      AppendLineEmpty(cur, c);
      FlattenAppend([], Bucket(cur, [c]));
    } else {
      CurrentIsLastTouched(init);
      AppendToLastBucket(bs, cur, c);
    }
  }

  /** A heading not yet seen gets a new, empty bucket at the end. */
  lemma RegisterNew(bs: seq<Bucket>, h: string)
    requires h !in Names(bs)
    ensures Register(bs, h) == bs + [Bucket(h, [])]
    ensures Flatten(Register(bs, h)) == Flatten(bs)
  {
    FlattenAppend(bs, Bucket(h, []));
    assert Flatten(bs) + [] == Flatten(bs);
  }

  lemma TouchedHeading(ks: seq<Line>, h: string)
    ensures Touched(ks + [Heading(h)]) == Touched(ks) + [h]
  {
    assert (ks + [Heading(h)])[..|ks|] == ks;
  }

  lemma TouchedContent(ks: seq<Line>, c: string)
    ensures Touched(ks + [Content(c)]) == Touched(ks) + [CurrentSection(ks)]
  {
    assert (ks + [Content(c)])[..|ks|] == ks;
  }

  /** Appending to the section of the last bucket extends the flattened
      contents at the end. */
  lemma AppendToLastBucket(bs: seq<Bucket>, name: string, line: string)
    requires bs != [] && Distinct(Names(bs)) && bs[|bs| - 1].name == name
    ensures |AppendLine(bs, name, line)| == |bs|
    ensures AppendLine(bs, name, line)[|bs| - 1].name == name
    ensures Flatten(AppendLine(bs, name, line)) == Flatten(bs) + [line]
  {
    var k := |bs| - 1;
    var init := bs[..k];
    var b := Bucket(name, bs[k].lines + [line]);
    var r := AppendLine(bs, name, line);
    assert Names(bs)[k] == name;
    IndexOfLast(Names(bs), name);
    AppendLineExisting(bs, name, line);
    assert r == bs[k := b];
    UpdateLast(bs, b);
    SplitLast(bs);
    FlattenAppend(init, b);
    FlattenAppend(init, bs[k]);
    var f := Flatten(init);
    assert Flatten(r) == f + (bs[k].lines + [line]);
    AppendAssoc(f, bs[k].lines, [line]);
    assert Flatten(bs) == f + bs[k].lines;
    assert Flatten(r) == Flatten(bs) + [line];
    assert |r| == |bs|;
    assert r[k].name == name;
  }

  lemma AppendLineEmpty(name: string, line: string)
    ensures AppendLine([], name, line) == [Bucket(name, [line])]
  {
    var reg := [Bucket(name, [])];
    assert Names([]) == [];
    assert Register([], name) == reg;
    assert Names(reg) == [name];
    assert IndexOf(Names(reg), name) == 0;
    assert reg[0].lines + [line] == [line];
    assert reg[0 := Bucket(name, [line])] == [Bucket(name, [line])];
  }

  lemma IndexOfLast(s: seq<string>, x: string)
    requires Distinct(s) && s != [] && s[|s| - 1] == x
    ensures IndexOf(s, x) == |s| - 1
  {
  }

  /** Appending to a section that already has a bucket updates that bucket
      in place. */
  lemma AppendLineExisting(bs: seq<Bucket>, name: string, line: string)
    requires name in Names(bs)
    ensures var k := IndexOf(Names(bs), name);
      AppendLine(bs, name, line) == bs[k := Bucket(name, bs[k].lines + [line])]
  {
  }

  lemma {:induction false} CurrentIsLastTouched(ks: seq<Line>)
    requires Touched(ks) != []
    ensures CurrentSection(ks) == Touched(ks)[|Touched(ks)| - 1]
  {
    var init := ks[..|ks| - 1];
    if ks[|ks| - 1].Blank? {
      CurrentIsLastTouched(init);
    }
  }

  /** The loop after one more line is one more step. */
  lemma RunSnoc(ks: seq<Line>, k: Line)
    ensures Run(ks + [k]) == Step(Run(ks), k)
    ensures ContentLines(ks + [k]) == ContentLines(ks) + LineContent(k)
  {
    assert (ks + [k])[..|ks|] == ks;
  }

  /** A heading met for the first time opens a new bucket at the end. */
  lemma RunNewHeading(ks: seq<Line>, h: string)
    requires h !in Names(Run(ks).buckets)
    ensures Run(ks + [Heading(h)]) == ParseState(h, Run(ks).buckets + [Bucket(h, [])])
    ensures ContentLines(ks + [Heading(h)]) == ContentLines(ks)
  {
    RunSnoc(ks, Heading(h));
  }

  /** A heading met again changes only the current section. */
  lemma RunOldHeading(ks: seq<Line>, h: string)
    requires h in Names(Run(ks).buckets)
    ensures Run(ks + [Heading(h)]) == ParseState(h, Run(ks).buckets)
    ensures ContentLines(ks + [Heading(h)]) == ContentLines(ks)
  {
    RunSnoc(ks, Heading(h));
  }

  /** Content joins the bucket of the current section, wherever it is. */
  lemma RunContentAt(ks: seq<Line>, t: string, k: nat)
    requires var st := Run(ks);
      k < |st.buckets| && st.buckets[k].name == st.current
      && forall j :: 0 <= j < k ==> st.buckets[j].name != st.current
    ensures var st := Run(ks);
      Run(ks + [Content(t)]) ==
        ParseState(st.current, st.buckets[k := Bucket(st.current, st.buckets[k].lines + [t])])
    ensures ContentLines(ks + [Content(t)]) == ContentLines(ks) + [t]
  {
    var st := Run(ks);
    RunSnoc(ks, Content(t));
    assert Names(st.buckets)[k] == st.current;
    assert IndexOf(Names(st.buckets), st.current) == k;
    AppendLineExisting(st.buckets, st.current, t);
  }

  /** Re-entering a section breaks the input order: content of the
      re-entered section joins its first bucket, ahead of the content of
      the section met in between. */
  lemma ReentryReorders(h1: string, h2: string, b: string, c: string)
    requires h1 != h2
    ensures ContentLines(Reentering(h1, h2, b, c)) == [b, c]
    ensures Flatten(Run(Reentering(h1, h2, b, c)).buckets) == [c, b]
  {
    var p2 := [Heading(h1)] + [Heading(h2)];
    var p3 := p2 + [Content(b)];
    var p4 := p3 + [Heading(h1)];
    var p5 := p4 + [Content(c)];
    var b3 := [Bucket(h1, []), Bucket(h2, [b])];
    var b5 := [Bucket(h1, [c]), Bucket(h2, [b])];
    ReentryOpen(h1, h2);
    ReentryFirstContent(p2, h1, h2, b);
    ReentryBack(p3, h1, h2, b);
    ReentrySecondContent(p4, h1, h2, b, c);
    FlattenTwo(Bucket(h1, [c]), Bucket(h2, [b]));
    PairConcat(c, b);
    PairConcat(b, c);
    assert ContentLines(p5) == [] + [b] + [c];
    assert [] + [b] + [c] == [b, c];
    assert Run(p5).buckets == b5;
    assert Flatten(b5) == [c] + [b];
    assert p5 == Reentering(h1, h2, b, c);
  }

  lemma FlattenTwo(x: Bucket, y: Bucket)
    ensures Flatten([x, y]) == x.lines + y.lines
  {
    assert [x][..0] == [];
    assert Flatten([x]) == [] + x.lines;
    assert [x, y][..1] == [x];
  }

  lemma ReentryOpen(h1: string, h2: string)
    requires h1 != h2
    ensures Run([Heading(h1)] + [Heading(h2)]) == ParseState(h2, [Bucket(h1, []), Bucket(h2, [])])
    ensures ContentLines([Heading(h1)] + [Heading(h2)]) == []
  {
    var p0: seq<Line> := [];
    var b1 := [Bucket(h1, [])];
    assert Run(p0) == ParseState(Unknown, []);
    assert Names([]) == [];
    RunNewHeading(p0, h1);
    assert p0 + [Heading(h1)] == [Heading(h1)];
    assert [] + [Bucket(h1, [])] == b1;
    assert Names(b1) == [h1];
    assert Run([Heading(h1)]) == ParseState(h1, b1);
    RunNewHeading([Heading(h1)], h2);
    assert Run([Heading(h1)] + [Heading(h2)]) == ParseState(h2, b1 + [Bucket(h2, [])]);
    PairConcat(Bucket(h1, []), Bucket(h2, []));
  }

  lemma ReentryFirstContent(p: seq<Line>, h1: string, h2: string, b: string)
    requires Run(p) == ParseState(h2, [Bucket(h1, []), Bucket(h2, [])])
    requires h1 != h2
    ensures Run(p + [Content(b)]) == ParseState(h2, [Bucket(h1, []), Bucket(h2, [b])])
    ensures ContentLines(p + [Content(b)]) == ContentLines(p) + [b]
  {
    var bs := Run(p).buckets;
    RunContentAt(p, b, 1);
    assert bs[1].lines + [b] == [b];
    assert bs[1 := Bucket(h2, [b])] == [Bucket(h1, []), Bucket(h2, [b])];
  }

  lemma ReentryBack(p: seq<Line>, h1: string, h2: string, b: string)
    requires Run(p) == ParseState(h2, [Bucket(h1, []), Bucket(h2, [b])])
    ensures Run(p + [Heading(h1)]) == ParseState(h1, [Bucket(h1, []), Bucket(h2, [b])])
    ensures ContentLines(p + [Heading(h1)]) == ContentLines(p)
  {
    assert Names(Run(p).buckets)[0] == h1;
    RunOldHeading(p, h1);
  }

  lemma ReentrySecondContent(p: seq<Line>, h1: string, h2: string, b: string, c: string)
    requires Run(p) == ParseState(h1, [Bucket(h1, []), Bucket(h2, [b])])
    ensures Run(p + [Content(c)]) == ParseState(h1, [Bucket(h1, [c]), Bucket(h2, [b])])
    ensures ContentLines(p + [Content(c)]) == ContentLines(p) + [c]
  {
    var bs := Run(p).buckets;
    RunContentAt(p, c, 0);
    assert bs[0].lines + [c] == [c];
    assert bs[0 := Bucket(h1, [c])] == [Bucket(h1, [c]), Bucket(h2, [b])];
  }

  /** Section `h1`, empty at first, then section `h2`, then section `h1`
      again. */
  function Reentering(h1: string, h2: string, b: string, c: string): seq<Line> {
    [Heading(h1)] + [Heading(h2)] + [Content(b)] + [Heading(h1)] + [Content(c)]
  }

  // ---------------------------------------------------------------------
  // The two views `parse` returns.
  // ---------------------------------------------------------------------

  /** What `parse` returns: one document per section, and the section map
      flattened to text, both in first-appearance order. */
  datatype ParseResult = ParseResult(documents: seq<Document>, sections: seq<(string, string)>)

  /** The full text `parse` segments: the pages joined with one space. */
  function FullText(pages: seq<string>): string {
    Join(" ", pages)
  }

  /** The classified lines of the full text. */
  function PageLines(pages: seq<string>): seq<Line> {
    ClassifyAll(SplitLines(FullText(pages)))
  }

  function SectionDocuments(bs: seq<Bucket>): (r: seq<Document>)
    ensures |r| == |bs|
    ensures forall i :: 0 <= i < |bs| ==>
      r[i] == Document(Join("\n", bs[i].lines), map["section" := bs[i].name])
  {
    seq(|bs|, i requires 0 <= i < |bs| => Document(Join("\n", bs[i].lines), map["section" := bs[i].name]))
  }

  function SectionTexts(bs: seq<Bucket>): (r: seq<(string, string)>)
    ensures |r| == |bs|
    ensures forall i :: 0 <= i < |bs| ==> r[i] == (bs[i].name, Join("", bs[i].lines))
  {
    seq(|bs|, i requires 0 <= i < |bs| => (bs[i].name, Join("", bs[i].lines)))
  }

  /** Content lines come from `splitlines` and so carry no line feed. */
  lemma ContentHasNoLineFeed(lines: seq<string>)
    requires forall k :: 0 <= k < |lines| ==> HasNoBreak(lines[k])
    ensures forall i :: 0 <= i < |lines| && Classify(lines[i]).Content? ==>
      '\n' !in Classify(lines[i]).text
  {
    forall i | 0 <= i < |lines| && Classify(lines[i]).Content?
      ensures '\n' !in Classify(lines[i]).text
    {
      StripIsSubstring(lines[i]);
      SubstringHasNoBreak(Strip(lines[i]), lines[i]);
      assert IsLineBreak('\n');
    }
  }

  lemma {:induction false} SectionLinesHaveNoLineFeed(ks: seq<Line>, name: string)
    requires forall i :: 0 <= i < |ks| && ks[i].Content? ==> '\n' !in ks[i].text
    ensures forall k :: 0 <= k < |SectionLines(ks, name)| ==> '\n' !in SectionLines(ks, name)[k]
  {
    if ks != [] {
      SectionLinesHaveNoLineFeed(ks[..|ks| - 1], name);
    }
  }

  /** Builds both views from the buckets: the documents carry the lines
      joined with line feeds, the map the lines joined with nothing. When no
      stored line contains a line feed, the map's text is the document's
      text with its line feeds deleted. */
  function Views(bs: seq<Bucket>): (r: ParseResult)
    ensures |r.documents| == |r.sections| == |bs|
    ensures forall i :: 0 <= i < |bs| ==> r.sections[i].0 == bs[i].name
    ensures forall i :: 0 <= i < |bs| ==> r.documents[i].metadata == map["section" := bs[i].name]
    ensures NoLineFeedLines(bs) ==>
      forall i :: 0 <= i < |bs| ==> r.sections[i].1 == Delete(r.documents[i].pageContent, '\n')
  {
    var docs := SectionDocuments(bs);
    var texts := SectionTexts(bs);
    assert NoLineFeedLines(bs) ==>
      forall i :: 0 <= i < |bs| ==> texts[i].1 == Delete(docs[i].pageContent, '\n') by {
      if NoLineFeedLines(bs) {
        forall i | 0 <= i < |bs|
          ensures texts[i].1 == Delete(docs[i].pageContent, '\n')
        {
          JoinDeleteSeparator('\n', bs[i].lines);
        }
      }
    }
    ParseResult(docs, texts)
  }

  /** No stored line contains a line feed. */
  predicate NoLineFeedLines(bs: seq<Bucket>) {
    forall i, k :: 0 <= i < |bs| && 0 <= k < |bs[i].lines| ==> '\n' !in bs[i].lines[k]
  }

  /** The facts `parse` relies on about the loop's final buckets, for any
      classified input whose headings are recognised and whose content
      carries no line feed. */
  lemma FinalBuckets(ks: seq<Line>)
    requires HeadingsRecognised(ks)
    requires forall i :: 0 <= i < |ks| && ks[i].Content? ==> '\n' !in ks[i].text
    ensures Distinct(Names(Run(ks).buckets))
    ensures forall i :: 0 <= i < |Run(ks).buckets| ==>
      Run(ks).buckets[i].name == Unknown || Run(ks).buckets[i].name in SectionTitles
    ensures NoLineFeedLines(Run(ks).buckets)
  {
    BucketHoldsSectionLines(ks);
    KeysInVocabulary(ks);
    var bs := Run(ks).buckets;
    forall i | 0 <= i < |bs|
      ensures forall k :: 0 <= k < |bs[i].lines| ==> '\n' !in bs[i].lines[k]
    {
      SectionLinesHaveNoLineFeed(ks, bs[i].name);
    }
  }

  /** The classified lines of any text have recognised headings and
      line-feed-free content. */
  lemma PageLinesWellFormed(pages: seq<string>)
    ensures HeadingsRecognised(PageLines(pages))
    ensures forall i :: 0 <= i < |PageLines(pages)| && PageLines(pages)[i].Content? ==>
      '\n' !in PageLines(pages)[i].text
  {
    ContentHasNoLineFeed(SplitLines(FullText(pages)));
  }

  /** `PDFSectionParser.parse`. Both views have the same keys in the same
      order, the keys are distinct and drawn from the vocabulary or
      "unknown", each document is tagged with its section, a section's
      flattened text is its document's text without the line feeds, and no
      pages give nothing. */
  function Parse(pages: seq<string>): (r: ParseResult)
    ensures |r.documents| == |r.sections|
    ensures forall i :: 0 <= i < |r.sections| ==>
      r.documents[i].metadata == map["section" := r.sections[i].0]
    ensures forall i :: 0 <= i < |r.sections| ==>
      r.sections[i].1 == Delete(r.documents[i].pageContent, '\n')
    ensures forall i, j :: 0 <= i < j < |r.sections| ==> r.sections[i].0 != r.sections[j].0
    ensures forall i :: 0 <= i < |r.sections| ==>
      r.sections[i].0 == Unknown || r.sections[i].0 in SectionTitles
    ensures pages == [] ==> r.documents == [] && r.sections == []
  {
    var ks := PageLines(pages);
    PageLinesWellFormed(pages);
    ViewsWellFormed(ks);
    assert pages == [] ==> ks == [] by {
      if pages == [] {
        assert FullText(pages) == [];
      }
    }
    Views(Run(ks).buckets)
  }

  /** The properties of `Parse`, for any classified input whose headings
      are recognised and whose content carries no line feed. */
  lemma ViewsWellFormed(ks: seq<Line>)
    requires HeadingsRecognised(ks)
    requires forall i :: 0 <= i < |ks| && ks[i].Content? ==> '\n' !in ks[i].text
    ensures var r := Views(Run(ks).buckets);
      && |r.documents| == |r.sections|
      && (forall i :: 0 <= i < |r.sections| ==>
        r.documents[i].metadata == map["section" := r.sections[i].0])
      && (forall i :: 0 <= i < |r.sections| ==>
        r.sections[i].1 == Delete(r.documents[i].pageContent, '\n'))
      && (forall i, j :: 0 <= i < j < |r.sections| ==> r.sections[i].0 != r.sections[j].0)
      && (forall i :: 0 <= i < |r.sections| ==>
        r.sections[i].0 == Unknown || r.sections[i].0 in SectionTitles)
      && (ks == [] ==> r.documents == [] && r.sections == [])
  {
    FinalBuckets(ks);
    var bs := Run(ks).buckets;
    var r := Views(bs);
    assert forall i :: 0 <= i < |bs| ==> r.sections[i].0 == Names(bs)[i];
  }

  /** The views hold, for each section in order of first appearance,
      exactly that section's content lines: joined with line feeds in the
      document, and with nothing in the map. */
  lemma ViewsMatchReference(ks: seq<Line>)
    ensures var r := Views(Run(ks).buckets);
      |r.sections| == |Dedup(Touched(ks))|
      && forall i :: 0 <= i < |r.sections| ==>
        r.sections[i].0 == Dedup(Touched(ks))[i]
        && r.documents[i].pageContent == Join("\n", SectionLines(ks, r.sections[i].0))
        && r.sections[i].1 == Join("", SectionLines(ks, r.sections[i].0))
  {
    BucketHoldsSectionLines(ks);
    RunShape(ks);
    var bs := Run(ks).buckets;
    assert forall i :: 0 <= i < |bs| ==> bs[i].name == Names(bs)[i];
  }

  /** What `parse` returns, section by section, in terms of the input's
      classified lines. */
  lemma ParseMatchesReference(pages: seq<string>)
    ensures var ks := PageLines(pages);
      var r := Parse(pages);
      |r.sections| == |Dedup(Touched(ks))|
      && forall i :: 0 <= i < |r.sections| ==>
        r.sections[i].0 == Dedup(Touched(ks))[i]
        && r.documents[i].pageContent == Join("\n", SectionLines(ks, r.sections[i].0))
        && r.sections[i].1 == Join("", SectionLines(ks, r.sections[i].0))
  {
    ViewsMatchReference(PageLines(pages));
  }

  /** The sum of the line-break counts of the pages. */
  function PageBreaks(pages: seq<string>): nat {
    if pages == [] then 0 else PageBreaks(pages[..|pages| - 1]) + BreakCount(pages[|pages| - 1])
  }

  /** Joining the pages with a space adds no line break: page boundaries
      do not end lines. */
  lemma {:induction false} JoinAddsNoBreak(pages: seq<string>)
    ensures BreakCount(FullText(pages)) == PageBreaks(pages)
  {
    if |pages| > 1 {
      var init := pages[..|pages| - 1];
      JoinAddsNoBreak(init);
      BreakCountAppend(FullText(init) + " ", pages[|pages| - 1]);
      BreakCountAppend(FullText(init), " ");
      assert BreakCount(" ") == 0 by {
        assert " "[..0] == [];
      }
    } else if |pages| == 1 {
      assert pages[..0] == [];
    }
  }
}
