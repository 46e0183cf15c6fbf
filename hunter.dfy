/**
 The header-block extractor of `hunter.py` (`find_by_headers`).

 Every enumerated file is read line by line with a two-state flag `found`
 (idle / capturing) that starts idle for each file. For each line, in this
 order: a line containing any trigger phrase sets the flag; a line of length
 at most 1 clears it; and a line is captured when the flag is set, the line
 does not contain "###" and does not start with '#'.

 File enumeration and reading are not modelled: the extractor receives the
 enumerated files in order, each already split into lines as `readlines()`
 returns them (line terminators kept).
 */
module Hunter {
  import opened Text

  /** A resolved file path, as the enumerator yields it. */
  type Path = String

  /** `Result`: one captured line, with the file it came from and its raw text. */
  datatype Result = Result(path: Path, content: String)

  /** One enumerated file and the lines `readlines()` gives for it. */
  datatype SourceFile = SourceFile(path: Path, lines: seq<String>)

  // ---------------------------------------------------------------------------
  // The per-line state machine
  // ---------------------------------------------------------------------------

  /** `any(phrase in _line for phrase in phrases)`, tried in order. */
  predicate HasPhrase(line: String, phrases: seq<String>)
    decreases |phrases|
  {
    phrases != [] && (Contains(line, phrases[0]) || HasPhrase(line, phrases[1..]))
  }

  /** The line holds some phrase exactly when some phrase of the list is contained in it. */
  lemma {:induction false} HasPhraseIffSome(line: String, phrases: seq<String>)
    ensures HasPhrase(line, phrases) <==> exists k :: 0 <= k < |phrases| && Contains(line, phrases[k])
    decreases |phrases|
  {
    if phrases != [] {
      HasPhraseIffSome(line, phrases[1..]);
      if exists k :: 0 <= k < |phrases| && Contains(line, phrases[k]) {
        var k :| 0 <= k < |phrases| && Contains(line, phrases[k]);
        if k > 0 {
          assert phrases[1..][k - 1] == phrases[k];
        }
      }
      if HasPhrase(line, phrases[1..]) {
        var k :| 0 <= k < |phrases[1..]| && Contains(line, phrases[1..][k]);
        assert phrases[k + 1] == phrases[1..][k];
      }
    }
  }

  /** The flag after the first two rules: set by a phrase, then cleared by a line
      of length at most 1. Capturing is only ever on for lines of length 2 or more. */
  function NextFound(found: bool, line: String, phrases: seq<String>): (f: bool)
    ensures f ==> |line| > 1
    ensures f <==> |line| > 1 && (found || HasPhrase(line, phrases))
  {
    var f := if HasPhrase(line, phrases) then true else found;
    if |line| <= 1 then false else f
  }

  /** What a captured line looks like, independently of the state machine: at least two
      characters, no "###" in it, and no '#' in front. */
  predicate Capturable(line: String)
  {
    |line| > 1 && !Contains(line, "###") && line[0] != '#'
  }

  /** The third rule: with the flag as the first two rules left it, is the line captured?
      `Capturable` tests the length before it reads `line[0]`; the flag is only ever set
      on lines of length 2 or more anyway (`NextFound`). */
  predicate Emits(found: bool, line: String)
  {
    found && Capturable(line)
  }

  /** What the third rule appends for one line: the line itself, or nothing. */
  function Output(path: Path, line: String, found: bool): seq<Result>
  {
    if Emits(found, line) then [Result(path, line)] else []
  }

  /** The entries the scan emits for `lines[i..j]`, starting with the flag `found`. */
  function Scan(path: Path, lines: seq<String>, i: int, j: int, phrases: seq<String>, found: bool): (rs: seq<Result>)
    requires 0 <= i <= j <= |lines|
    ensures |rs| <= j - i
    decreases j - i
  {
    if i == j then []
    else
      var f := NextFound(found, lines[i], phrases);
      Output(path, lines[i], f) + Scan(path, lines, i + 1, j, phrases, f)
  }

  /** The flag after the scan has consumed `lines[i..j]`, starting from `found`. */
  function FoundAfter(lines: seq<String>, i: int, j: int, phrases: seq<String>, found: bool): bool
    requires 0 <= i <= j <= |lines|
    decreases j - i
  {
    if i == j then found
    else FoundAfter(lines, i + 1, j, phrases, NextFound(found, lines[i], phrases))
  }

  /** One file's entries: the flag starts idle for every file. */
  function ScanFile(file: SourceFile, phrases: seq<String>): seq<Result>
  {
    Scan(file.path, file.lines, 0, |file.lines|, phrases, false)
  }

  /** The whole result collection: each file's entries, in enumeration order. */
  function FindAll(files: seq<SourceFile>, phrases: seq<String>): seq<Result>
    decreases |files|
  {
    if files == [] then []
    else ScanFile(files[0], phrases) + FindAll(files[1..], phrases)
  }

  // ---------------------------------------------------------------------------
  // find_by_headers
  // ---------------------------------------------------------------------------

  /** `find_by_headers` over the enumerated files: a mutable flag per file and an
      output list that only ever grows at its end. */
  method FindByHeaders(files: seq<SourceFile>, phrases: seq<String>) returns (commands: seq<Result>)
    ensures commands == FindAll(files, phrases)
  {
    commands := [];
    for j := 0 to |files|
      invariant commands + FindAll(files[j..], phrases) == FindAll(files, phrases)
    {
      var file := files[j];
      ghost var before := commands;
      var found := false;
      for i := 0 to |file.lines|
        invariant commands + Scan(file.path, file.lines, i, |file.lines|, phrases, found)
                  == before + ScanFile(file, phrases)
      {
        var line := file.lines[i];
        ghost var was := found;
        ghost var previous := commands;
        if HasPhrase(line, phrases) {
          found := true;
        }
        if |line| <= 1 {
          found := false;
        }
        assert found == NextFound(was, line, phrases);
        if found && !Contains(line, "###") && line[0] != '#' {
          commands := commands + [Result(file.path, line)];
        }
        assert commands == previous + Output(file.path, line, found);
        ScanStep(previous, file.path, file.lines, i, phrases, was);
      }
      FileStep(before, commands, files, j, phrases, found);
    }
    assert files[|files|..] == [];
  }

  /** Concatenation is associative. */
  lemma AppendAssoc<T>(x: seq<T>, y: seq<T>, z: seq<T>)
    ensures x + (y + z) == (x + y) + z
  {
  }

  /** One iteration of the line loop: what is emitted so far, followed by the scan of
      `lines[i..]`, is what is emitted once line `i` is handled, followed by the scan of
      `lines[i + 1..]` from the updated flag. */
  lemma ScanStep(emitted: seq<Result>, path: Path, lines: seq<String>, i: int, phrases: seq<String>, found: bool)
    requires 0 <= i < |lines|
    ensures emitted + Scan(path, lines, i, |lines|, phrases, found)
            == (emitted + Output(path, lines[i], NextFound(found, lines[i], phrases)))
               + Scan(path, lines, i + 1, |lines|, phrases, NextFound(found, lines[i], phrases))
  {
    var f := NextFound(found, lines[i], phrases);
    AppendAssoc(emitted, Output(path, lines[i], f), Scan(path, lines, i + 1, |lines|, phrases, f));
  }

  /** One iteration of the file loop: once the line loop has consumed file `j`, the
      entries so far followed by the collection for `files[j + 1..]` are the entries
      before that file followed by the collection for `files[j..]`. */
  lemma FileStep(before: seq<Result>, emitted: seq<Result>, files: seq<SourceFile>, j: int, phrases: seq<String>, found: bool)
    requires 0 <= j < |files|
    requires emitted + Scan(files[j].path, files[j].lines, |files[j].lines|, |files[j].lines|, phrases, found)
             == before + ScanFile(files[j], phrases)
    ensures emitted + FindAll(files[j + 1..], phrases) == before + FindAll(files[j..], phrases)
  {
    assert emitted == before + ScanFile(files[j], phrases);
    assert files[j..][1..] == files[j + 1..];
    AppendAssoc(before, ScanFile(files[j], phrases), FindAll(files[j + 1..], phrases));
  }

  // ---------------------------------------------------------------------------
  // Properties of the scan
  // ---------------------------------------------------------------------------

  /** Every entry of a scan carries the file's path and one of the scanned lines, and
      that line is capturable: at least two characters, no "###", no leading '#'. */
  lemma {:induction false} ScanEntries(path: Path, lines: seq<String>, i: int, j: int, phrases: seq<String>, found: bool)
    requires 0 <= i <= j <= |lines|
    ensures forall r :: r in Scan(path, lines, i, j, phrases, found) ==>
              r.path == path && Capturable(r.content) && exists k :: i <= k < j && r.content == lines[k]
    decreases j - i
  {
    if i < j {
      var f := NextFound(found, lines[i], phrases);
      ScanEntries(path, lines, i + 1, j, phrases, f);
    }
  }

  /** Every entry of the collection comes from one of the files, is one of that file's
      lines, and is capturable. */
  lemma {:induction false} FindAllEntries(files: seq<SourceFile>, phrases: seq<String>)
    ensures forall r :: r in FindAll(files, phrases) ==>
              Capturable(r.content)
              && exists k :: 0 <= k < |files| && r.path == files[k].path && r.content in files[k].lines
    decreases |files|
  {
    if files != [] {
      var first := files[0];
      ScanEntries(first.path, first.lines, 0, |first.lines|, phrases, false);
      FindAllEntries(files[1..], phrases);
      forall r | r in FindAll(files, phrases)
        ensures exists k :: 0 <= k < |files| && r.path == files[k].path && r.content in files[k].lines
      {
        if r in ScanFile(first, phrases) {
          var n :| 0 <= n < |first.lines| && r.content == first.lines[n];
          assert r.path == files[0].path && r.content in files[0].lines;
        } else {
          assert r in FindAll(files[1..], phrases);
          var k :| 0 <= k < |files[1..]| && r.path == files[1..][k].path && r.content in files[1..][k].lines;
          assert files[1..][k] == files[k + 1];
        }
      }
    }
  }

  /** Idle and phrase-free lines stay idle and emit nothing. */
  lemma {:induction false} NoPhraseNoEntries(path: Path, lines: seq<String>, i: int, j: int, phrases: seq<String>)
    requires 0 <= i <= j <= |lines|
    requires forall k :: i <= k < j ==> !HasPhrase(lines[k], phrases)
    ensures Scan(path, lines, i, j, phrases, false) == []
    ensures !FoundAfter(lines, i, j, phrases, false)
    decreases j - i
  {
    if i < j {
      assert !NextFound(false, lines[i], phrases);
      NoPhraseNoEntries(path, lines, i + 1, j, phrases);
    }
  }

  /** The flag after two consecutive runs of lines is the flag after the second, started
      from the flag the first ended with. */
  lemma {:induction false} FoundAfterSplit(lines: seq<String>, i: int, j: int, k: int, phrases: seq<String>, found: bool)
    requires 0 <= i <= j <= k <= |lines|
    ensures FoundAfter(lines, i, k, phrases, found)
            == FoundAfter(lines, j, k, phrases, FoundAfter(lines, i, j, phrases, found))
    decreases j - i
  {
    if i < j {
      FoundAfterSplit(lines, i + 1, j, k, phrases, NextFound(found, lines[i], phrases));
    }
  }

  /** Scanning two consecutive runs of lines: the second run starts with the flag the
      first one ended with. */
  lemma {:induction false} ScanSplit(path: Path, lines: seq<String>, i: int, j: int, k: int, phrases: seq<String>, found: bool)
    requires 0 <= i <= j <= k <= |lines|
    ensures Scan(path, lines, i, k, phrases, found)
            == Scan(path, lines, i, j, phrases, found)
               + Scan(path, lines, j, k, phrases, FoundAfter(lines, i, j, phrases, found))
    decreases j - i
  {
    if i < j {
      var f := NextFound(found, lines[i], phrases);
      ScanSplit(path, lines, i + 1, j, k, phrases, f);
      var out := Output(path, lines[i], f);
      var left := Scan(path, lines, i + 1, j, phrases, f);
      var right := Scan(path, lines, j, k, phrases, FoundAfter(lines, i + 1, j, phrases, f));
      AppendAssoc(out, left, right);
    }
  }

  /** A line of length at most 1 is not emitted and leaves the scan idle, whatever the
      state before it. */
  lemma BlankLineResets(path: Path, lines: seq<String>, i: int, j: int, phrases: seq<String>, found: bool)
    requires 0 <= i < j <= |lines| && |lines[i]| <= 1
    ensures Scan(path, lines, i, j, phrases, found) == Scan(path, lines, i + 1, j, phrases, false)
  {
    assert !NextFound(found, lines[i], phrases);
  }

  /** From the idle state, a run of lines `lines[i..j]` without a phrase emits nothing
      and leaves the scan idle for what follows. */
  lemma SilentRun(path: Path, lines: seq<String>, i: int, j: int, phrases: seq<String>)
    requires 0 <= i <= j <= |lines|
    requires forall k :: i <= k < j ==> !HasPhrase(lines[k], phrases)
    ensures Scan(path, lines, i, |lines|, phrases, false) == Scan(path, lines, j, |lines|, phrases, false)
  {
    ScanSplit(path, lines, i, j, |lines|, phrases, false);
    NoPhraseNoEntries(path, lines, i, j, phrases);
  }

  /** A line of length at most 1 closes the block and is never emitted; until a line
      with a phrase comes, nothing more is emitted, and the scan resumes idle. */
  lemma QuietAfterBlank(path: Path, lines: seq<String>, phrases: seq<String>, found: bool, i: int, j: int)
    requires 0 <= i < j <= |lines|
    requires |lines[i]| <= 1
    requires forall k :: i < k < j ==> !HasPhrase(lines[k], phrases)
    ensures Scan(path, lines, 0, |lines|, phrases, found)
            == Scan(path, lines, 0, i, phrases, found) + Scan(path, lines, j, |lines|, phrases, false)
  {
    ScanSplit(path, lines, 0, i, |lines|, phrases, found);
    BlankLineResets(path, lines, i, |lines|, phrases, FoundAfter(lines, 0, i, phrases, found));
    SilentRun(path, lines, i + 1, j, phrases);
  }

  /** A line of length 2 or more containing a phrase opens a block whatever the state,
      and is itself emitted exactly when it passes the "###" and '#' filter. */
  lemma TriggerLine(path: Path, lines: seq<String>, i: int, j: int, phrases: seq<String>, found: bool)
    requires 0 <= i < j <= |lines|
    requires HasPhrase(lines[i], phrases) && |lines[i]| > 1
    ensures Scan(path, lines, i, j, phrases, found)
            == (if Capturable(lines[i]) then [Result(path, lines[i])] else [])
               + Scan(path, lines, i + 1, j, phrases, true)
  {
    assert NextFound(found, lines[i], phrases);
  }

  /** Inside an open block, a run of capturable lines is captured in full, line by line,
      in order. */
  lemma {:induction false} OpenBlockCaptured(path: Path, lines: seq<String>, i: int, j: int, phrases: seq<String>)
    requires 0 <= i <= j <= |lines|
    requires forall k :: i <= k < j ==> Capturable(lines[k])
    ensures |Scan(path, lines, i, j, phrases, true)| == j - i
    ensures forall k :: 0 <= k < j - i ==> Scan(path, lines, i, j, phrases, true)[k] == Result(path, lines[i + k])
    decreases j - i
  {
    if i < j {
      assert NextFound(true, lines[i], phrases);
      OpenBlockCaptured(path, lines, i + 1, j, phrases);
      var tail := Scan(path, lines, i + 1, j, phrases, true);
      assert Scan(path, lines, i, j, phrases, true) == [Result(path, lines[i])] + tail;
    }
  }

  /** A block opened by a capturable trigger line and made of capturable lines is
      captured in full: the trigger line first, then every line after it, in order. */
  lemma BlockCaptured(path: Path, lines: seq<String>, i: int, j: int, phrases: seq<String>, found: bool)
    requires 0 <= i < j <= |lines|
    requires HasPhrase(lines[i], phrases)
    requires forall k :: i <= k < j ==> Capturable(lines[k])
    ensures |Scan(path, lines, i, j, phrases, found)| == j - i
    ensures forall k :: 0 <= k < j - i ==> Scan(path, lines, i, j, phrases, found)[k] == Result(path, lines[i + k])
  {
    TriggerLine(path, lines, i, j, phrases, found);
    OpenBlockCaptured(path, lines, i + 1, j, phrases);
  }

  /** The flag resets for every file: the collection for two runs of files is the
      collection for the first followed by the collection for the second. */
  lemma {:induction false} FindAllAppend(a: seq<SourceFile>, b: seq<SourceFile>, phrases: seq<String>)
    ensures FindAll(a + b, phrases) == FindAll(a, phrases) + FindAll(b, phrases)
    decreases |a|
  {
    if a != [] {
      assert (a + b)[0] == a[0];
      assert (a + b)[1..] == a[1..] + b;
      FindAllAppend(a[1..], b, phrases);
    } else {
      assert a + b == b;
    }
  }

  /** A file in which no line contains a phrase contributes nothing, wherever it sits. */
  lemma SilentFileContributesNothing(a: seq<SourceFile>, file: SourceFile, b: seq<SourceFile>, phrases: seq<String>)
    requires forall k :: 0 <= k < |file.lines| ==> !HasPhrase(file.lines[k], phrases)
    ensures FindAll(a + [file] + b, phrases) == FindAll(a + b, phrases)
  {
    FindAllAppend(a + [file], b, phrases);
    FindAllAppend(a, [file], phrases);
    FindAllAppend(a, b, phrases);
    NoPhraseNoEntries(file.path, file.lines, 0, |file.lines|, phrases);
    assert FindAll([file], phrases) == ScanFile(file, phrases) + FindAll([], phrases);
  }
}
