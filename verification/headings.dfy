/**
 The clean-up `convert_markdown_to_pdf` applies to translated markdown before
 it is rendered: the text is trimmed and split into lines, the first heading
 is forced to level 1, and `# Document` is put in front of text that has no
 heading at all.
 */
module Headings {
  import opened Wrappers
  import opened Text

  const DefaultHeading: string := "# Document"

  /** A line is a heading when, trimmed, it starts with `#`. */
  predicate IsHeading(line: string) {
    StartsWith(Strip(line), "#")
  }

  /** The first heading as it is written out: kept as it is when its trimmed form
      already starts with `# `, otherwise rebuilt as `# ` and its text. */
  function Promote(line: string): string {
    if StartsWith(Strip(line), "# ") then line
    else "# " + Strip(LStripChar(Strip(line), '#'))
  }

  /** The index of the first heading line, if there is one. */
  function FirstHeading(lines: seq<string>): (r: Option<nat>)
    ensures r.Some? ==> r.value < |lines| && IsHeading(lines[r.value])
    ensures r.Some? ==> forall i :: 0 <= i < r.value ==> !IsHeading(lines[i])
    ensures r.None? ==> forall i :: 0 <= i < |lines| ==> !IsHeading(lines[i])
  {
    if lines == [] then None
    else if IsHeading(lines[0]) then Some(0)
    else match FirstHeading(lines[1..])
      case None => None
      case Some(k) => Some(k + 1)
  }

  /** The loop over the lines: the processed lines and whether a heading has
      been seen, starting from `found`. */
  function Scan(lines: seq<string>, found: bool): (seq<string>, bool) {
    if lines == [] then ([], found)
    else
      var line := lines[0];
      var promote := IsHeading(line) && !found;
      var rest := Scan(lines[1..], found || IsHeading(line));
      ([if promote then Promote(line) else line] + rest.0, rest.1)
  }

  /** The processed line list. */
  function ProcessLines(lines: seq<string>): seq<string> {
    var (out, found) := Scan(lines, false);
    if found then out else [DefaultHeading, ""] + out
  }

  /** The markdown handed to the PDF renderer. */
  function Normalize(markdown: string): string {
    Join(ProcessLines(Split(Strip(markdown), '\n')), "\n")
  }

  /** Once a heading has been seen the scan copies every line. */
  lemma {:induction false} ScanAfterHeading(lines: seq<string>)
    ensures Scan(lines, true) == (lines, true)
  {
    if lines != [] {
      ScanAfterHeading(lines[1..]);
      assert [lines[0]] + lines[1..] == lines;
    }
  }

  /** The scan rewrites exactly the first heading and reports whether there was one. */
  lemma {:induction false} ScanSpec(lines: seq<string>)
    ensures Scan(lines, false).1 <==> FirstHeading(lines).Some?
    ensures FirstHeading(lines).None? ==> Scan(lines, false).0 == lines
    ensures FirstHeading(lines).Some? ==>
      var k := FirstHeading(lines).value;
      Scan(lines, false).0 == lines[k := Promote(lines[k])]
  {
    if lines != [] {
      if IsHeading(lines[0]) {
        ScanAfterHeading(lines[1..]);
        assert [Promote(lines[0])] + lines[1..] == lines[0 := Promote(lines[0])];
      } else {
        ScanSpec(lines[1..]);
        ScanSkip(lines);
      }
    }
  }

  /** The scan passes over a first line that is not a heading. */
  lemma ScanSkip(lines: seq<string>)
    requires lines != [] && !IsHeading(lines[0])
    requires Scan(lines[1..], false).1 <==> FirstHeading(lines[1..]).Some?
    requires FirstHeading(lines[1..]).None? ==> Scan(lines[1..], false).0 == lines[1..]
    requires FirstHeading(lines[1..]).Some? ==>
      var k := FirstHeading(lines[1..]).value;
      Scan(lines[1..], false).0 == lines[1..][k := Promote(lines[1..][k])]
    ensures Scan(lines, false).1 <==> FirstHeading(lines).Some?
    ensures FirstHeading(lines).None? ==> Scan(lines, false).0 == lines
    ensures FirstHeading(lines).Some? ==>
      var k := FirstHeading(lines).value;
      Scan(lines, false).0 == lines[k := Promote(lines[k])]
  {
    var rest := Scan(lines[1..], false);
    assert Scan(lines, false) == ([lines[0]] + rest.0, rest.1);
    match FirstHeading(lines[1..]) {
      case None =>
        assert [lines[0]] + lines[1..] == lines;
      case Some(k) =>
        ScanSkipTo(lines, k, rest.0);
    }
  }

  lemma ScanSkipTo(lines: seq<string>, k: nat, rest: seq<string>)
    requires lines != [] && !IsHeading(lines[0])
    requires FirstHeading(lines[1..]) == Some(k)
    requires rest == lines[1..][k := Promote(lines[1..][k])]
    ensures FirstHeading(lines) == Some(k + 1)
    ensures [lines[0]] + rest == lines[k + 1 := Promote(lines[k + 1])]
  {
    assert lines[1..][k] == lines[k + 1];
    ConsUpdate(lines[0], lines[1..], k, Promote(lines[k + 1]));
    assert [lines[0]] + lines[1..] == lines;
  }

  lemma ConsUpdate<T>(x: T, xs: seq<T>, k: nat, v: T)
    requires k < |xs|
    ensures [x] + xs[k := v] == ([x] + xs)[k + 1 := v]
  {
  }

  /** Without a heading the lines are kept and `# Document` and an empty line go
      in front; with one, the line count is unchanged and only the first heading
      is rewritten, every other line being copied as it is. */
  lemma ProcessLinesSpec(lines: seq<string>)
    ensures FirstHeading(lines).None? ==> ProcessLines(lines) == [DefaultHeading, ""] + lines
    ensures FirstHeading(lines).Some? ==>
      var k := FirstHeading(lines).value;
      var r := ProcessLines(lines);
      && |r| == |lines|
      && r[k] == Promote(lines[k])
      && (forall i :: 0 <= i < |lines| && i != k ==> r[i] == lines[i])
  {
    ScanSpec(lines);
  }

  /** The rewritten first heading is a level-1 heading and is still a heading; a
      rebuilt one is `# ` followed by a title with no whitespace at either end. */
  lemma PromoteSpec(line: string)
    requires IsHeading(line)
    ensures IsHeading(Promote(line))
    ensures StartsWith(Strip(line), "# ") ==> Promote(line) == line
    ensures !StartsWith(Strip(line), "# ") ==>
      && StartsWith(Promote(line), "# ")
      && Promote(line)[2..] == Strip(LStripChar(Strip(line), '#'))
    ensures !StartsWith(Strip(line), "# ") ==>
      var title := Promote(line)[2..];
      title == [] || (!IsSpace(title[0]) && !IsSpace(title[|title| - 1]))
  {
    if !StartsWith(Strip(line), "# ") {
      StripSpec(LStripChar(Strip(line), '#'));
      var p := Promote(line);
      assert p[0] == '#';
      assert LStrip(p) == p;
      RStripSpec(p);
      var s := Strip(p);
      assert !AllSpace(p);
      assert s[0] == p[0];
    }
  }

  /** Only the leading run of `#` is removed: a `#` after the space stays in the
      title, so `## #x` becomes `# #x`. */
  lemma PromoteInnerHash(n: nat, title: string)
    requires n >= 2
    requires title == [] || !IsSpace(title[|title| - 1])
    ensures Promote(Repeat(n, '#') + " #" + title) == "# #" + title
  {
    var hashes := Repeat(n, '#');
    var t := "#" + title;
    PromoteDeeper(n, t);
    AppendAssociative(hashes + " ", "#", title);
    AppendAssociative(hashes, " ", "#");
    assert " " + "#" == " #";
    AppendAssociative("# ", "#", title);
    assert "# " + "#" == "# #";
  }

  /** `n` copies of `c`. */
  function Repeat(n: nat, c: char): (r: string)
    ensures |r| == n && forall i :: 0 <= i < n ==> r[i] == c
  {
    seq(n, i => c)
  }

  lemma {:induction false} LStripCharRepeat(n: nat, c: char, rest: string)
    requires rest == [] || rest[0] != c
    ensures LStripChar(Repeat(n, c) + rest, c) == rest
  {
    if n > 0 {
      assert (Repeat(n, c) + rest)[1..] == Repeat(n - 1, c) + rest;
      LStripCharRepeat(n - 1, c, rest);
    } else {
      assert Repeat(0, c) + rest == rest;
    }
  }

  /** A deeper heading, `##`, `###` and so on followed by a space and a title,
      is rewritten to `# ` and the title. */
  lemma PromoteDeeper(n: nat, title: string)
    requires n >= 2
    requires title != [] && !IsSpace(title[0]) && !IsSpace(title[|title| - 1])
    ensures Promote(Repeat(n, '#') + " " + title) == "# " + title
  {
    var line := Repeat(n, '#') + " " + title;
    DeeperLineTrimmed(n, title);
    assert Strip(line) == line;
    assert line[1] == '#';
    assert !StartsWith(Strip(line), "# ");
    assert line == Repeat(n, '#') + (" " + title);
    LStripCharRepeat(n, '#', " " + title);
    assert LStripChar(Strip(line), '#') == " " + title;
    StripSpaceTitle(title);
    assert Strip(LStripChar(Strip(line), '#')) == title;
  }

  lemma DeeperLineTrimmed(n: nat, title: string)
    requires n >= 1 && title != [] && !IsSpace(title[|title| - 1])
    ensures Strip(Repeat(n, '#') + " " + title) == Repeat(n, '#') + " " + title
  {
    var line := Repeat(n, '#') + " " + title;
    assert line[0] == '#' && line[|line| - 1] == title[|title| - 1];
    StripUntouched(line);
  }

  lemma StripSpaceTitle(title: string)
    requires title != [] && !IsSpace(title[0]) && !IsSpace(title[|title| - 1])
    ensures Strip(" " + title) == title
  {
    assert (" " + title)[1..] == title;
    assert LStrip(" " + title) == LStrip(title);
    StripUntouched(title);
  }

  lemma NoNewlineSlice(s: string, i: int, j: int)
    requires 0 <= i <= j <= |s| && '\n' !in s
    ensures '\n' !in s[i..j]
  {
    forall m | 0 <= m < j - i
      ensures s[i..j][m] != '\n'
    {
      assert s[i..j][m] == s[i + m];
    }
  }

  lemma NoNewlineStrip(s: string)
    requires '\n' !in s
    ensures '\n' !in Strip(s)
  {
    StripSpec(s);
    var i := |s| - |LStrip(s)|;
    NoNewlineSlice(s, i, i + |Strip(s)|);
  }

  lemma PromoteNoNewline(line: string)
    requires '\n' !in line
    ensures '\n' !in Promote(line)
  {
    NoNewlineStrip(line);
    var a := Strip(line);
    var b := LStripChar(a, '#');
    NoNewlineSlice(a, |a| - |b|, |a|);
    NoNewlineStrip(b);
  }

  /** Splitting the rendered markdown at newlines gives back the processed lines:
      the join adds no line and loses none. */
  lemma NormalizeLines(markdown: string)
    ensures Split(Normalize(markdown), '\n') == ProcessLines(Split(Strip(markdown), '\n'))
  {
    var lines := Split(Strip(markdown), '\n');
    ScanSpec(lines);
    var out := ProcessLines(lines);
    match FirstHeading(lines) {
      case None =>
        forall i | 0 <= i < |out| ensures '\n' !in out[i] {
          if i >= 2 { assert out[i] == lines[i - 2]; }
        }
      case Some(k) =>
        PromoteNoNewline(lines[k]);
    }
    SplitJoin(out, '\n');
    assert Normalize(markdown) == Join(out, ['\n']);
  }
}
