/** `utils/setVersion`: the release helper that stamps a version into the
    `const __VERSION__ string = "..."` line of `cmd/updater/root.go`. The
    file is read line by line with a `bufio.Scanner`, every line holding
    the declaration is replaced whole, and the lines are written back, each
    followed by a line feed. The file itself is a parameter: its text in,
    the new text out. */
module SetVersion {
  import opened Wrappers
  import opened Strings

  /** The text that marks the version line. */
  const Marker: string := "const __VERSION__ string ="

  /** The version line written for `version`. */
  function VersionLine(version: string): string {
    Marker + " \"" + version + "\""
  }

  /** `bufio.ScanLines` drops one carriage return at the end of a line. */
  function DropCR(line: string): string {
    if |line| > 0 && line[|line| - 1] == '\r' then line[..|line| - 1] else line
  }

  /** The lines a `bufio.Scanner` yields: the text cut at each line feed,
      no empty line after a final line feed, and one trailing carriage
      return dropped from each. */
  function ScanLines(text: string): seq<string> {
    var pieces := Split(text, '\n');
    var lines := if pieces[|pieces| - 1] == "" then pieces[..|pieces| - 1] else pieces;
    seq(|lines|, i requires 0 <= i < |lines| => DropCR(lines[i]))
  }

  /** `fmt.Fprintln` of each line in turn. */
  function Render(lines: seq<string>): string
    decreases |lines|
  {
    if |lines| == 0 then "" else lines[0] + "\n" + Render(lines[1..])
  }

  /** One line of the loop: a line holding the declaration is replaced
      whole. */
  function RewriteLine(line: string, version: string): string {
    if Contains(line, Marker) then VersionLine(version) else line
  }

  /** The loop over all lines. */
  function RewriteLines(lines: seq<string>, version: string): (r: seq<string>)
    ensures |r| == |lines|
  {
    seq(|lines|, i requires 0 <= i < |lines| => RewriteLine(lines[i], version))
  }

  /** The whole tool: no `--version` leaves the file as it is (`None`);
      otherwise the new text. */
  function SetVersion(text: string, version: string): (r: Option<string>)
    ensures r.None? <==> version == ""
  {
    if version == "" then None else Some(Render(RewriteLines(ScanLines(text), version)))
  }

  /** A string starting with `p` contains it. */
  lemma PrefixContained(s: string, p: string)
    requires HasPrefix(s, p)
    ensures Contains(s, p)
  {
    assert s[0..] == s;
  }

  /** The written version line is itself recognised as the version line. */
  lemma VersionLineMarked(version: string)
    ensures Contains(VersionLine(version), Marker)
  {
    var s := VersionLine(version);
    assert s == Marker + (" \"" + version + "\"");
    assert s[..|Marker|] == Marker;
    PrefixContained(s, Marker);
  }

  /** Lines without the declaration are kept, every line with it becomes
      exactly the version line, and the line count is unchanged. */
  lemma RewriteLinesSpec(lines: seq<string>, version: string)
    ensures var r := RewriteLines(lines, version);
      && |r| == |lines|
      && (forall i :: 0 <= i < |lines| && !Contains(lines[i], Marker) ==> r[i] == lines[i])
      && (forall i :: 0 <= i < |lines| && Contains(lines[i], Marker) ==> r[i] == VersionLine(version))
      && (forall i :: 0 <= i < |r| ==> (Contains(r[i], Marker) <==> Contains(lines[i], Marker)))
  {
    VersionLineMarked(version);
  }

  /** Stamping the same version twice is stamping it once. */
  lemma RewriteLinesIdempotent(lines: seq<string>, version: string)
    ensures RewriteLines(RewriteLines(lines, version), version) == RewriteLines(lines, version)
  {
    VersionLineMarked(version);
  }

  /** The rendered lines split back at their line feeds, with the empty
      text after the last one. */
  lemma {:induction false} SplitRender(lines: seq<string>)
    requires forall i :: 0 <= i < |lines| ==> '\n' !in lines[i]
    ensures Split(Render(lines), '\n') == lines + [""]
    decreases |lines|
  {
    if |lines| > 0 {
      SplitRender(lines[1..]);
      SplitCons(lines[0], Render(lines[1..]), '\n');
      assert lines[0] + "\n" + Render(lines[1..]) == lines[0] + ['\n'] + Render(lines[1..]);
      assert [lines[0]] + (lines[1..] + [""]) == lines + [""];
    }
  }

  /** The scanner's lines of a text that splits into `lines` and a final
      empty piece. */
  lemma ScanLinesOfPieces(text: string, lines: seq<string>)
    requires Split(text, '\n') == lines + [""]
    ensures |ScanLines(text)| == |lines|
    ensures forall i :: 0 <= i < |lines| ==> ScanLines(text)[i] == DropCR(lines[i])
  {
    var pieces := Split(text, '\n');
    assert pieces[|pieces| - 1] == "";
    assert pieces[..|pieces| - 1] == lines;
  }

  /** The scanner reads back every line `Render` wrote, when no line holds
      a line feed or ends in a carriage return. */
  lemma ScanRender(lines: seq<string>)
    requires forall i :: 0 <= i < |lines| ==> '\n' !in lines[i]
    requires forall i :: 0 <= i < |lines| ==> DropCR(lines[i]) == lines[i]
    ensures ScanLines(Render(lines)) == lines
  {
    SplitRender(lines);
    ScanLinesOfPieces(Render(lines), lines);
  }

  /** Scanned lines hold no line feed, and none of them ends in a carriage
      return when the text holds none. */
  lemma ScanLinesClean(text: string)
    requires '\r' !in text
    ensures forall i :: 0 <= i < |ScanLines(text)| ==> '\n' !in ScanLines(text)[i]
    ensures forall i :: 0 <= i < |ScanLines(text)| ==> DropCR(ScanLines(text)[i]) == ScanLines(text)[i]
  {
    var pieces := Split(text, '\n');
    var lines := if pieces[|pieces| - 1] == "" then pieces[..|pieces| - 1] else pieces;
    assert |ScanLines(text)| == |lines|;
    forall i | 0 <= i < |lines|
      ensures '\n' !in ScanLines(text)[i] && DropCR(ScanLines(text)[i]) == ScanLines(text)[i]
    {
      assert lines[i] == pieces[i];
      SplitPieceIn(text, '\n', i);
      assert '\r' !in lines[i];
      if |lines[i]| > 0 {
        assert lines[i][|lines[i]| - 1] in lines[i];
      }
      assert ScanLines(text)[i] == DropCR(lines[i]) == lines[i];
    }
  }

  /** Every character of a piece of `Split` comes from the text. */
  lemma SplitPieceIn(text: string, sep: char, i: nat)
    requires i < |Split(text, sep)|
    ensures forall c :: c in Split(text, sep)[i] ==> c in text
  {
    JoinContains(Split(text, sep), sep, i);
  }

  /** A part's characters occur in the joined text. */
  lemma {:induction false} JoinContains(parts: seq<string>, sep: char, i: nat)
    requires |parts| >= 1 && i < |parts|
    ensures forall c :: c in parts[i] ==> c in Join(parts, sep)
    decreases |parts|
  {
    var j := Join(parts, sep);
    if |parts| > 1 {
      assert j == parts[0] + ([sep] + Join(parts[1..], sep));
      if i > 0 {
        JoinContains(parts[1..], sep, i - 1);
        assert parts[1..][i - 1] == parts[i];
      }
    }
  }

  /** Running the tool twice with the same version leaves the file as one
      run does, when the file holds no carriage return and the version no
      line feed. */
  lemma SetVersionIdempotent(text: string, version: string)
    requires version != "" && '\r' !in text && '\n' !in version
    ensures SetVersion(SetVersion(text, version).value, version) == SetVersion(text, version)
  {
    var lines := ScanLines(text);
    var once := RewriteLines(lines, version);
    ScanLinesClean(text);
    VersionLineClean(version);
    forall i | 0 <= i < |once| ensures '\n' !in once[i] && DropCR(once[i]) == once[i] {
    }
    ScanRender(once);
    RewriteLinesIdempotent(lines, version);
  }

  /** The version line holds no line feed when the version holds none, and
      it ends in a quote. */
  lemma VersionLineClean(version: string)
    requires '\n' !in version
    ensures '\n' !in VersionLine(version)
    ensures DropCR(VersionLine(version)) == VersionLine(version)
  {
    var s := VersionLine(version);
    var head := Marker + " \"";
    assert s == head + version + "\"";
    forall k | 0 <= k < |s| ensures s[k] != '\n' {
      if k < |head| {
        assert s[k] == head[k];
      } else if k < |head| + |version| {
        assert s[k] == version[k - |head|] && version[k - |head|] in version;
      }
    }
  }
}
