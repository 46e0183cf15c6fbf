/**
 Worked examples of the extractor and its views on small concrete inputs.
 */
module Scenarios {
  import opened Text
  import opened Hunter
  import opened Views

  /** A line that does not contain the character '#' contains no "###". */
  lemma NoHashes(line: String)
    requires '#' !in line
    ensures !Contains(line, "###")
  {
    MissingCharNotContained(line, "###");
  }

  lemma HeaderTriggers()
    ensures HasPhrase("HEADER:\n", ["HEADER:"])
  {
    assert "HEADER:" <= "HEADER:\n";
    assert Contains("HEADER:\n", "HEADER:");
  }

  lemma BazDoesNotTrigger()
    ensures !HasPhrase("baz", ["HEADER:"])
  {
    MissingCharNotContained("baz", "HEADER:");
  }

  /** The block itself: the trigger line and the two lines after it are captured. */
  lemma HeaderBlock(lines: seq<String>)
    requires 3 <= |lines| && lines[0] == "HEADER:\n" && lines[1] == "foo\n" && lines[2] == "bar\n"
    ensures Scan("a.txt", lines, 0, 3, ["HEADER:"], false)
            == [Result("a.txt", "HEADER:\n"), Result("a.txt", "foo\n"), Result("a.txt", "bar\n")]
  {
    HeaderLines(lines);
    BlockCaptured("a.txt", lines, 0, 3, ["HEADER:"], false);
    ThreeResults(Scan("a.txt", lines, 0, 3, ["HEADER:"], false),
      Result("a.txt", "HEADER:\n"), Result("a.txt", "foo\n"), Result("a.txt", "bar\n"));
  }

  /** The trigger line holds the phrase, and all three lines of the block are capturable. */
  lemma HeaderLines(lines: seq<String>)
    requires 3 <= |lines| && lines[0] == "HEADER:\n" && lines[1] == "foo\n" && lines[2] == "bar\n"
    ensures HasPhrase(lines[0], ["HEADER:"])
    ensures forall k :: 0 <= k < 3 ==> Capturable(lines[k])
  {
    HeaderLine(lines[0]);
    NoHashes(lines[1]);
    NoHashes(lines[2]);
  }

  /** The trigger line holds the phrase and is itself capturable. */
  lemma HeaderLine(line: String)
    requires line == "HEADER:\n"
    ensures HasPhrase(line, ["HEADER:"]) && Capturable(line)
  {
    HeaderTriggers();
    NoHashes(line);
  }

  lemma ThreeResults(rs: seq<Result>, a: Result, b: Result, c: Result)
    requires |rs| == 3 && rs[0] == a && rs[1] == b && rs[2] == c
    ensures rs == [a, b, c]
  {
  }

  /** A block runs from the trigger line to the first blank line; the blank line and
      everything after it (up to the next trigger) are not captured. */
  lemma BlockEndsAtBlankLine(f: SourceFile)
    requires f == SourceFile("a.txt", ["HEADER:\n", "foo\n", "bar\n", "\n", "baz"])
    ensures ScanFile(f, ["HEADER:"])
            == [Result("a.txt", "HEADER:\n"), Result("a.txt", "foo\n"), Result("a.txt", "bar\n")]
  {
    BazDoesNotTrigger();
    QuietAfterBlank("a.txt", f.lines, ["HEADER:"], false, 3, 5);
    HeaderBlock(f.lines);
  }

  /** A trigger line that is a "###" comment opens the block but is not itself captured. */
  lemma CommentTriggerNotCaptured(path: Path, lines: seq<String>, j: int)
    requires 0 < j <= |lines| && lines[0] == "### HEADER: comment\n"
    ensures Scan(path, lines, 0, j, ["HEADER:"], false) == Scan(path, lines, 1, j, ["HEADER:"], true)
  {
    var line := lines[0];
    assert OccursAt(line, "HEADER:", 4) by {
      assert line[4..11] == "HEADER:";
    }
    OccursAtContains(line, "HEADER:", 4);
    assert "###" <= line;
    TriggerLine(path, lines, 0, j, ["HEADER:"], false);
  }

  /** A file whose "#" trigger line opens a block of one line: only that line is captured. */
  lemma CommentHeaderFile(f: SourceFile)
    requires f.lines == ["# HEADER:\n", "x\n"]
    ensures ScanFile(f, ["HEADER:"]) == [Result(f.path, "x\n")]
  {
    var phrases := ["HEADER:"];
    var header := f.lines[0];
    assert OccursAt(header, "HEADER:", 2) by {
      assert header[2..9] == "HEADER:";
    }
    OccursAtContains(header, "HEADER:", 2);
    NoHashes(f.lines[1]);
    TriggerLine(f.path, f.lines, 0, 2, phrases, false);
    assert !Capturable(header);
    assert NextFound(true, f.lines[1], phrases);
    assert Scan(f.path, f.lines, 1, 2, phrases, true) == [Result(f.path, "x\n")];
  }

  /** Two such files: the line is captured once per file, in file order. */
  lemma SameLineInTwoFiles(a: SourceFile, b: SourceFile)
    requires a == SourceFile("a.txt", ["# HEADER:\n", "x\n"])
    requires b == SourceFile("b.txt", ["# HEADER:\n", "x\n"])
    ensures FindAll([a, b], ["HEADER:"]) == [Result("a.txt", "x\n"), Result("b.txt", "x\n")]
  {
    var phrases := ["HEADER:"];
    CommentHeaderFile(a);
    CommentHeaderFile(b);
    assert [a, b][1..] == [b];
    assert [b][1..] == [];
    assert FindAll([b], phrases) == ScanFile(b, phrases) + FindAll([], phrases);
    assert FindAll([a, b], phrases) == ScanFile(a, phrases) + FindAll([b], phrases);
  }

  lemma SanitizedLine(s: String)
    requires s == "x\n"
    ensures Sanitized(s) == "x"
  {
    assert s[1..] == ['\n'] && s[1..][1..] == [];
    assert RemoveNewlines(s[1..]) == [];
    assert RemoveNewlines(s) == ['x'];
    assert LeadingWhitespace(['x']) == 0;
    assert TrimmedLength(['x']) == 1;
  }

  /** The same line captured in two files is counted twice under its raw text. */
  lemma SameLineCountedTwice(rs: seq<Result>)
    requires rs == [Result("a.txt", "x\n"), Result("b.txt", "x\n")]
    ensures ContentOccurence(rs) == map["x\n" := 2]
  {
    var cs := Contents(rs);
    var line := "x\n";
    assert cs == [line, line];
    assert cs[..1] == [line];
    assert [line][..0] == [];
    assert Count(cs, line) == 2;
    var m := ContentOccurence(rs);
    assert m.Keys == {line};
  }

  /** The same line captured in two files appears once, sanitized, in `content_unique`. */
  lemma SameLineUniqueOnce(rs: seq<Result>)
    requires |rs| == 2 && rs[0].content == "x\n" && rs[1].content == "x\n"
    ensures ContentUnique(rs) == {"x"}
  {
    forall i | 0 <= i < |rs| ensures Sanitized(rs[i].content) == "x" {
      SanitizedLine(rs[i].content);
    }
    ContentUniqueSingle(rs, "x");
  }

  /** The same line captured in two files lists both paths. */
  lemma SameLineBothPaths(rs: seq<Result>)
    requires rs == [Result("a.txt", "x\n"), Result("b.txt", "x\n")]
    ensures PathsUnique(rs) == {"a.txt", "b.txt"}
  {
    assert Paths(rs) == ["a.txt", "b.txt"];
  }

  /** The heatmap of that collection is the single pair of the line and its count. */
  lemma SameLineHeatmap(rs: seq<Result>)
    requires rs == [Result("a.txt", "x\n"), Result("b.txt", "x\n")]
    ensures Heatmap(rs) == [("x\n", 2)]
  {
    SameLineCountedTwice(rs);
    HeatmapMatchesOccurrence(rs);
    var h := Heatmap(rs);
    assert |h| == 1;
    assert h[0] in h;
  }

  /** An empty collection has an empty heatmap and no occurrences. */
  lemma EmptyCollection()
    ensures Heatmap([]) == [] && ContentOccurence([]) == map[]
  {
  }
}
