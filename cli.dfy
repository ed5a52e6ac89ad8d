/**
 * The post-processing that turns the markdown rendered for the `oxlint`
 * command-line options into the website's CLI page. The rendered markdown
 * is the input; everything after it is a fixed chain of string steps.
 */
module CliPage {
  import opened Wrappers
  import opened Text

  /** The top header the renderer emits, dropped as often as it repeats. */
  const Header: string := "# oxlint\n"
  const UsageLabel: string := "**Usage**:"
  const UsageHeading: string := "## Usage\n"
  /** Lines holding this marker are broken into separate lines. */
  const Marker: string := "###"
  const Bold: string := "**"
  const Newline: string := "\n"
  const Prologue: string := "\n<!-- textlint-disable -->\n\n"
  const Epilogue: string := "\n\n<!-- textlint-enable -->\n"

  /**
   * `map(str::trim)`: piece `k` becomes piece `k` with its leading and
   * trailing whitespace dropped, and no whitespace left at either end.
   */
  function TrimAll(parts: seq<string>): (r: seq<string>)
    ensures |r| == |parts|
    ensures forall k :: 0 <= k < |parts| ==> TrimmedFrom(r[k], parts[k])
    ensures forall k :: 0 <= k < |parts| ==> r[k] == [] || (!IsWhitespace(r[k][0]) && !IsWhitespace(r[k][|r[k]| - 1]))
    ensures forall k :: 0 <= k < |parts| ==> r[k] == Trim(parts[k])
  {
    TrimEach(parts);
    seq(|parts|, k requires 0 <= k < |parts| => Trim(parts[k]))
  }

  lemma TrimEach(parts: seq<string>)
    ensures forall k :: 0 <= k < |parts| ==> TrimmedFrom(Trim(parts[k]), parts[k])
  {
    forall k | 0 <= k < |parts|
      ensures TrimmedFrom(Trim(parts[k]), parts[k])
    {
      TrimIsTrimmedFrom(parts[k]);
    }
  }

  /**
   * A line holding the marker becomes its marker-separated pieces, each
   * trimmed, followed by one extra newline element; any other line stays.
   */
  function ExpandLine(line: string): seq<string> {
    if Contains(line, Marker) then TrimAll(Split(line, Marker)) + [Newline] else [line]
  }

  /** The lines of `flat_map(ExpandLine)`, in order. */
  function ExpandLines(lines: seq<string>): seq<string> {
    if |lines| == 0 then [] else ExpandLine(lines[0]) + ExpandLines(lines[1..])
  }

  /** A line `**title**`: at least four characters, starting and ending with `**`. */
  predicate IsBoldTitle(line: string) {
    |line| >= 4 && StartsWith(line, Bold) && EndsWith(line, Bold)
  }

  /** `**title**` becomes `## title`; strips the prefix, then the suffix of what remains. */
  function Retitle(line: string): string {
    match StripPrefix(line, Bold)
    case None => line
    case Some(rest) =>
      match StripSuffix(rest, Bold)
      case None => line
      case Some(title) => "## " + title
  }

  /** Exactly the bold-title lines are rewritten, to their inner text after `## `. */
  lemma RetitleIsHeading(line: string)
    ensures IsBoldTitle(line) ==> Retitle(line) == "## " + line[2..|line| - 2]
    ensures !IsBoldTitle(line) ==> Retitle(line) == line
  {
    if StartsWith(line, Bold) {
      var rest := line[2..];
      assert StripPrefix(line, Bold) == Some(rest);
      if |line| >= 4 {
        assert rest[|rest| - 2..] == line[|line| - 2..];
        assert EndsWith(rest, Bold) <==> EndsWith(line, Bold);
        if EndsWith(line, Bold) {
          assert rest[..|rest| - 2] == line[2..|line| - 2];
        }
      } else {
        assert !EndsWith(rest, Bold);
      }
    }
  }

  /**
   * The `.map` over the lines: line `k` becomes a `## ` heading of its inner
   * text exactly when it is a bold title, and is kept otherwise.
   */
  function RetitleAll(lines: seq<string>): (r: seq<string>)
    ensures |r| == |lines|
    ensures forall k :: 0 <= k < |lines| && IsBoldTitle(lines[k]) ==> r[k] == "## " + lines[k][2..|lines[k]| - 2]
    ensures forall k :: 0 <= k < |lines| && !IsBoldTitle(lines[k]) ==> r[k] == lines[k]
    ensures forall k :: 0 <= k < |lines| ==> r[k] == Retitle(lines[k])
  {
    RetitleEach(lines);
    seq(|lines|, k requires 0 <= k < |lines| => Retitle(lines[k]))
  }

  /** The page body made from the rendered markdown. */
  function Body(markdown: string): string {
    var stripped := TrimStartMatches(markdown, Header);
    var usage := ReplaceFirst(stripped, UsageLabel, UsageHeading);
    var lines := ExpandLines(Split(usage, Newline));
    Join(RetitleAll(lines), Newline)
  }

  /** `generate_cli`, with the rendered markdown as its input. */
  function GenerateCli(markdown: string): (r: string)
    ensures StartsWith(r, Prologue) && EndsWith(r, Epilogue)
    ensures |r| == |Prologue| + |Body(markdown)| + |Epilogue|
    ensures r[|Prologue|..|r| - |Epilogue|] == Body(markdown)
  {
    Prologue + Body(markdown) + Epilogue
  }

  /**
   * The expansion of a marked line: it is the marker-join of pieces that
   * hold no marker; the expansion is those pieces trimmed, then a newline.
   */
  lemma ExpandMarkedLine(line: string)
    requires Contains(line, Marker)
    ensures var pieces := Split(line, Marker);
            && Join(pieces, Marker) == line
            && (forall k :: 0 <= k < |pieces| ==> !Contains(pieces[k], Marker))
            && |ExpandLine(line)| == |pieces| + 1
            && ExpandLine(line)[|pieces|] == Newline
            && forall k :: 0 <= k < |pieces| ==> ExpandLine(line)[k] == Trim(pieces[k])
  {
    SplitJoin(line, Marker);
    SplitPiecesLackPattern(line, Marker);
  }

  /** Lines without the marker pass the expansion unchanged. */
  lemma {:induction false} ExpandLinesUnmarked(lines: seq<string>)
    requires forall k :: 0 <= k < |lines| ==> !Contains(lines[k], Marker)
    ensures ExpandLines(lines) == lines
  {
    if |lines| > 0 {
      ExpandLinesUnmarked(lines[1..]);
    }
  }

  /** The expansion works line by line: it distributes over concatenation. */
  lemma {:induction false} ExpandLinesAppend(a: seq<string>, b: seq<string>)
    ensures ExpandLines(a + b) == ExpandLines(a) + ExpandLines(b)
  {
    if |a| == 0 {
      assert a + b == b;
    } else {
      assert (a + b)[1..] == a[1..] + b;
      ExpandLinesAppend(a[1..], b);
    }
  }

  /** `**` and `***` are no titles: they are kept. */
  lemma RetitleShortLines()
    ensures Retitle("**") == "**"
    ensures Retitle("***") == "***"
  {
    RetitleIsHeading("**");
    RetitleIsHeading("***");
  }

  /** `****` is an empty title. */
  lemma RetitleEmptyTitle()
    ensures Retitle("****") == "## "
  {
    RetitleIsHeading("****");
    assert "****"[2..2] == "";
  }

  lemma RetitleOptionsTitle()
    ensures Retitle("**Options**") == "## Options"
  {
    RetitleIsHeading("**Options**");
    assert "**Options**"[2..9] == "Options";
  }

  /** Lines that are no bold titles pass the rewrite unchanged. */
  lemma RetitleAllPlain(lines: seq<string>)
    requires forall k :: 0 <= k < |lines| ==> !IsBoldTitle(lines[k])
    ensures RetitleAll(lines) == lines
  {
  }

  /** Every leading copy of the header is dropped, and only those. */
  lemma HeaderStripped(markdown: string, n: nat, rest: string)
    requires markdown == Repeat(Header, n) + rest && !StartsWith(rest, Header)
    ensures TrimStartMatches(markdown, Header) == rest
  {
    TrimStartMatchesUnique(markdown, Header, n, rest);
  }

  /** Only the first usage label becomes a heading; the text after it is kept as is. */
  lemma UsageRewritten(s: string, i: nat)
    requires OccursAt(s, UsageLabel, i)
    requires forall j: nat :: j < i ==> !OccursAt(s, UsageLabel, j)
    ensures ReplaceFirst(s, UsageLabel, UsageHeading) == s[..i] + UsageHeading + s[i + |UsageLabel|..]
  {
    ReplaceFirstAt(s, UsageLabel, UsageHeading, i);
  }

  /**
   * Markdown with no header, no usage label, no marker and no bold-title
   * line comes out of the body steps unchanged: splitting at newlines and
   * joining again is the identity.
   */
  lemma BodyUnchanged(markdown: string)
    requires !StartsWith(markdown, Header)
    requires !Contains(markdown, UsageLabel)
    requires !Contains(markdown, Marker)
    requires forall k :: 0 <= k < |Split(markdown, Newline)| ==> !IsBoldTitle(Split(markdown, Newline)[k])
    ensures Body(markdown) == markdown
  {
    var lines := Split(markdown, Newline);
    ReplaceFirstAbsent(markdown, UsageLabel, UsageHeading);
    SplitPiecesAvoid(markdown, Newline, Marker);
    ExpandLinesUnmarked(lines);
    RetitleAllPlain(lines);
    SplitJoin(markdown, Newline);
  }

  lemma RetitleEach(lines: seq<string>)
    ensures forall k :: 0 <= k < |lines| && IsBoldTitle(lines[k]) ==> Retitle(lines[k]) == "## " + lines[k][2..|lines[k]| - 2]
    ensures forall k :: 0 <= k < |lines| && !IsBoldTitle(lines[k]) ==> Retitle(lines[k]) == lines[k]
  {
    forall k | 0 <= k < |lines|
      ensures IsBoldTitle(lines[k]) ==> Retitle(lines[k]) == "## " + lines[k][2..|lines[k]| - 2]
      ensures !IsBoldTitle(lines[k]) ==> Retitle(lines[k]) == lines[k]
    {
      RetitleIsHeading(lines[k]);
    }
  }

  /** Plain markdown (see `BodyUnchanged`) is only wrapped in the textlint comments. */
  lemma GenerateCliOfPlain(markdown: string)
    requires !StartsWith(markdown, Header)
    requires !Contains(markdown, UsageLabel)
    requires !Contains(markdown, Marker)
    requires forall k :: 0 <= k < |Split(markdown, Newline)| ==> !IsBoldTitle(Split(markdown, Newline)[k])
    ensures GenerateCli(markdown) == Prologue + markdown + Epilogue
  {
    BodyUnchanged(markdown);
  }

  /** Splitting at `###` takes the leftmost occurrence: `####` is `""` then `"#"`, never `"#"` then `""`. */
  lemma MarkerSplitIsLeftmost()
    ensures Split("####", Marker) == ["", "#"]
  {
    var s := "####";
    assert OccursAt(s, Marker, 0) by { assert s[0..3] == Marker; }
    FindIsFirst(s, Marker, 0);
    assert s[..0] == "" && s[3..] == "#";
    assert Find("#", Marker) == None;
    SplitUnfold(s, Marker, 0);
  }

  // A worked line: `a ### b` is broken into `a`, `b` and an extra newline.

  lemma MarkerFound()
    ensures Find("a ### b", Marker) == Some(2)
  {
    var line := "a ### b";
    assert OccursAt(line, Marker, 2) by { assert line[2..5] == Marker; }
    assert !OccursAt(line, Marker, 0) by { assert line[0] != '#'; }
    assert !OccursAt(line, Marker, 1) by { assert line[1] != '#'; }
    FindIsFirst(line, Marker, 2);
  }

  lemma MarkedLineSplit()
    ensures Split("a ### b", Marker) == ["a ", " b"]
  {
    MarkerFound();
    var line := "a ### b";
    assert line[..2] == "a " && line[5..] == " b";
    assert Find(" b", Marker) == None;
    SplitUnfold(line, Marker, 2);
  }

  lemma TrailingSpaceTrimmed()
    ensures Trim("a ") == "a"
  {
    assert "a " == [] + "a" + " ";
    TrimPadded([], "a", " ");
  }

  lemma LeadingSpaceTrimmed()
    ensures Trim(" b") == "b"
  {
    assert " b" == " " + "b" + [];
    TrimPadded(" ", "b", []);
  }

  lemma MarkedPiecesTrimmed()
    ensures TrimAll(["a ", " b"]) == ["a", "b"]
  {
    TrailingSpaceTrimmed();
    LeadingSpaceTrimmed();
    TrimPair("a ", " b");
  }

  /** Trimming two pieces trims each of them. */
  lemma TrimPair(x: string, y: string)
    ensures TrimAll([x, y]) == [Trim(x), Trim(y)]
  {
    var r := TrimAll([x, y]);
    assert r[0] == Trim(x) && r[1] == Trim(y);
  }

  lemma MarkedLineExample()
    ensures ExpandLine("a ### b") == ["a", "b", Newline]
  {
    MarkerFound();
    MarkedLineSplit();
    MarkedPiecesTrimmed();
  }
}
