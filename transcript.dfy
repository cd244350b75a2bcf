/** The transcript cleaner: the line filter and join of
    `extract_transcript_text`, its missing-file result, and the change handler
    that re-runs the extraction when the watched file is modified.
    The file system is not modelled: whether the file exists and the lines it
    holds are parameters, and the output file is a field holding its text. */
module Transcript {
  import opened HeaderPattern
  import Paths

  /** Every character of `s` is whitespace. */
  predicate AllSpace(s: string) {
    forall i :: 0 <= i < |s| ==> IsSpace(s[i])
  }

  /** Neither the first nor the last character is whitespace. */
  predicate NoEdgeSpace(s: string) {
    s == [] || (!IsSpace(s[0]) && !IsSpace(s[|s| - 1]))
  }

  /** The length of the run of whitespace that `s` starts with. */
  function LeadingSpace(s: string): (n: nat)
    ensures n <= |s|
    ensures forall i :: 0 <= i < n ==> IsSpace(s[i])
    ensures n < |s| ==> !IsSpace(s[n])
    decreases |s|
  {
    if s != [] && IsSpace(s[0]) then 1 + LeadingSpace(s[1..]) else 0
  }

  /** The length of the run of whitespace that `s` ends with. */
  function TrailingSpace(s: string): (n: nat)
    ensures n <= |s|
    ensures forall i :: |s| - n <= i < |s| ==> IsSpace(s[i])
    ensures n < |s| ==> !IsSpace(s[|s| - 1 - n])
    decreases |s|
  {
    if s != [] && IsSpace(s[|s| - 1]) then
      var n := 1 + TrailingSpace(s[..|s| - 1]);
      assert forall i :: |s| - n <= i < |s| - 1 ==> s[i] == s[..|s| - 1][i];
      n
    else 0
  }

  /** Python's `str.strip()`: what lies between the leading and the trailing
      whitespace of `s`, or nothing when `s` is all whitespace.
      `StripDecompose` and `StripPadded` below pin it down completely. */
  function Strip(s: string): (r: string)
    ensures |r| <= |s|
    ensures NoEdgeSpace(r)
  {
    var a := LeadingSpace(s);
    if a == |s| then [] else s[a..|s| - TrailingSpace(s)]
  }

  /** What `Strip` removes is whitespace on both sides. */
  lemma StripDecompose(s: string) returns (lead: string, trail: string)
    ensures AllSpace(lead) && AllSpace(trail)
    ensures s == lead + Strip(s) + trail
  {
    var a := LeadingSpace(s);
    if a == |s| {
      lead, trail := s, [];
      assert s == s + [] + [];
    } else {
      var b := |s| - TrailingSpace(s);
      lead, trail := s[..a], s[b..];
      forall i | 0 <= i < |lead|
        ensures IsSpace(lead[i])
      {
        assert lead[i] == s[i];
      }
      forall i | 0 <= i < |trail|
        ensures IsSpace(trail[i])
      {
        assert trail[i] == s[b + i];
      }
      assert s == s[..a] + s[a..b] + s[b..];
    }
  }

  lemma AllSpaceConcat(a: string, b: string)
    requires AllSpace(a) && AllSpace(b)
    ensures AllSpace(a + b)
  {
  }

  /** Leading whitespace stops where the padding stops. */
  lemma LeadingSpaceOf(w: string, t: string)
    requires AllSpace(w) && (t == [] || !IsSpace(t[0]))
    ensures LeadingSpace(w + t) == |w|
  {
    assert forall i :: 0 <= i < |w| ==> (w + t)[i] == w[i];
    assert t != [] ==> (w + t)[|w|] == t[0];
  }

  /** Trailing whitespace starts where the padding starts. */
  lemma TrailingSpaceOf(t: string, w: string)
    requires AllSpace(w) && (t == [] || !IsSpace(t[|t| - 1]))
    ensures TrailingSpace(t + w) == |w|
  {
    var s := t + w;
    assert forall i :: |t| <= i < |s| ==> s[i] == w[i - |t|];
    assert t != [] ==> s[|t| - 1] == t[|t| - 1];
  }

  /** Stripping removes exactly the padding: a string without edge
      whitespace, surrounded by whitespace, strips back to itself. */
  lemma StripPadded(w1: string, t: string, w2: string)
    requires AllSpace(w1) && AllSpace(w2) && NoEdgeSpace(t)
    ensures Strip(w1 + t + w2) == t
  {
    var s := w1 + t + w2;
    if t == [] {
      AllSpaceConcat(w1, w2);
      assert s == (w1 + w2) + [];
      LeadingSpaceOf(w1 + w2, []);
    } else {
      assert s == w1 + (t + w2);
      LeadingSpaceOf(w1, t + w2);
      TrailingSpaceOf(w1 + t, w2);
      assert s[|w1|..|s| - |w2|] == t;
    }
  }

  lemma StripIdempotent(s: string)
    ensures Strip(Strip(s)) == Strip(s)
  {
    var t := Strip(s);
    assert [] + t + [] == t;
    StripPadded([], t, []);
  }

  /** A line strips to nothing exactly when it is all whitespace. */
  lemma StripEmptyIff(s: string)
    ensures Strip(s) == [] <==> AllSpace(s)
  {
    var lead, trail := StripDecompose(s);
    if Strip(s) == [] {
      assert s == lead + trail;
      AllSpaceConcat(lead, trail);
    }
    if AllSpace(s) {
      assert s + [] + [] == s;
      StripPadded(s, [], []);
    }
  }

  predicate StartsWith(s: string, prefix: string) {
    |prefix| <= |s| && s[..|prefix|] == prefix
  }

  /** The three tests the list comprehension applies to a stripped line. */
  predicate Retained(t: string) {
    !IsHeader(t) && t != "" && !StartsWith(t, "//")
  }

  /** The retention test, applied to the raw line. */
  predicate Keep(line: string) {
    Retained(Strip(line))
  }

  /** The list comprehension: the stripped form of every kept line, in order. */
  function CleanLines(lines: seq<string>): (r: seq<string>)
    ensures |r| <= |lines|
    decreases |lines|
  {
    if lines == [] then []
    else if Keep(lines[0]) then [Strip(lines[0])] + CleanLines(lines[1..])
    else CleanLines(lines[1..])
  }

  /** `sep.join(parts)`. */
  function Join(parts: seq<string>, sep: string): string
    decreases |parts|
  {
    if |parts| == 0 then ""
    else if |parts| == 1 then parts[0]
    else Join(parts[..|parts| - 1], sep) + sep + parts[|parts| - 1]
  }

  const TranscriptNotFoundPrefix: string := "Error: File not found at "

  /** `extract_transcript_text(file_path)`, with the existence check and the
      lines the file holds as parameters. */
  function ExtractTranscriptText(fileExists: bool, filePath: string, lines: seq<string>): string {
    if !fileExists then TranscriptNotFoundPrefix + filePath
    else Join(CleanLines(lines), " ")
  }

  /** Whether a modification event makes the handler reprocess the transcript. */
  predicate ShouldReprocess(isDirectory: bool, srcPath: string, filename: string) {
    !isDirectory && Paths.Basename(srcPath) == filename
  }

  // ---------------------------------------------------------------------
  // Properties of the filter

  /** The outcome of the retention test for each line, in order. */
  function KeepFlags(lines: seq<string>): (r: seq<bool>)
    ensures |r| == |lines|
    decreases |lines|
  {
    if lines == [] then [] else [Keep(lines[0])] + KeepFlags(lines[1..])
  }

  lemma {:induction false} KeepFlagsAt(lines: seq<string>)
    ensures forall i :: 0 <= i < |lines| ==> KeepFlags(lines)[i] == Keep(lines[i])
    decreases |lines|
  {
    if lines != [] {
      KeepFlagsAt(lines[1..]);
      FlagsAfter(lines, KeepFlags(lines), KeepFlags(lines[1..]));
    }
  }

  /** The step of `KeepFlagsAt`: the flags after the first are those of the
      rest of the lines. */
  lemma FlagsAfter(lines: seq<string>, flags: seq<bool>, rest: seq<bool>)
    requires lines != [] && |flags| == |lines| && flags[1..] == rest
    requires flags[0] == Keep(lines[0])
    requires forall i :: 0 <= i < |rest| ==> rest[i] == Keep(lines[1..][i])
    ensures forall i :: 0 <= i < |lines| ==> flags[i] == Keep(lines[i])
  {
    forall i | 1 <= i < |lines|
      ensures flags[i] == Keep(lines[i])
    {
      assert flags[i] == rest[i - 1] && lines[1..][i - 1] == lines[i];
    }
  }

  /** `idx` lists, in increasing order, exactly the positions whose flag is set. */
  ghost predicate Positions(idx: seq<nat>, flags: seq<bool>) {
    && (forall j :: 0 <= j < |idx| ==> idx[j] < |flags|)
    && (forall j, j' :: 0 <= j < j' < |idx| ==> idx[j] < idx[j'])
    && (forall i :: 0 <= i < |flags| ==> (flags[i] <==> i in idx))
  }

  /** Every position, one further on. */
  function Shift(xs: seq<nat>): (ys: seq<nat>)
    ensures |ys| == |xs|
    ensures forall j :: 0 <= j < |xs| ==> ys[j] == xs[j] + 1
  {
    seq(|xs|, j requires 0 <= j < |xs| => xs[j] + 1)
  }

  /** The positions of the lines the filter keeps, first to last. */
  function KeptIndices(lines: seq<string>): (idx: seq<nat>)
    ensures |idx| == |CleanLines(lines)|
    ensures forall j :: 0 <= j < |idx| ==> idx[j] < |lines|
    decreases |lines|
  {
    if lines == [] then []
    else
      var later := Shift(KeptIndices(lines[1..]));
      if Keep(lines[0]) then [0] + later else later
  }

  /** Shifting the set positions of `flags[1..]` gives the set positions of
      `flags` after the first. */
  lemma ShiftedPositions(tail: seq<nat>, flags: seq<bool>)
    requires flags != [] && Positions(tail, flags[1..])
    ensures forall j :: 0 <= j < |tail| ==> 1 <= Shift(tail)[j] < |flags|
    ensures forall j, j' :: 0 <= j < j' < |tail| ==> Shift(tail)[j] < Shift(tail)[j']
    ensures forall i :: 1 <= i < |flags| ==> (flags[i] <==> i in Shift(tail))
  {
    var shifted := Shift(tail);
    forall i | 1 <= i < |flags|
      ensures flags[i] <==> i in shifted
    {
      assert flags[i] == flags[1..][i - 1];
      if i in shifted {
        var j :| 0 <= j < |shifted| && shifted[j] == i;
        assert tail[j] == i - 1;
      }
      if i - 1 in tail {
        var j :| 0 <= j < |tail| && tail[j] == i - 1;
        assert shifted[j] == i;
      }
    }
  }

  /** A set first flag puts position 0 in front of the later set positions. */
  lemma KeptFirst(flags: seq<bool>, later: seq<nat>)
    requires flags != [] && flags[0]
    requires forall j :: 0 <= j < |later| ==> 1 <= later[j] < |flags|
    requires forall j, j' :: 0 <= j < j' < |later| ==> later[j] < later[j']
    requires forall i :: 1 <= i < |flags| ==> (flags[i] <==> i in later)
    ensures Positions([0] + later, flags)
  {
    var idx := [0] + later;
    forall i | 0 <= i < |flags|
      ensures flags[i] <==> i in idx
    {
      if i > 0 {
        assert i in idx <==> i in later;
      }
    }
  }

  /** A clear first flag leaves the later set positions as they are. */
  lemma DroppedFirst(flags: seq<bool>, later: seq<nat>)
    requires flags != [] && !flags[0]
    requires forall j :: 0 <= j < |later| ==> 1 <= later[j] < |flags|
    requires forall j, j' :: 0 <= j < j' < |later| ==> later[j] < later[j']
    requires forall i :: 1 <= i < |flags| ==> (flags[i] <==> i in later)
    ensures Positions(later, flags)
  {
  }

  lemma {:induction false} KeptIndicesFlagged(lines: seq<string>)
    ensures Positions(KeptIndices(lines), KeepFlags(lines))
    decreases |lines|
  {
    if lines != [] {
      var flags := KeepFlags(lines);
      var tail := KeptIndices(lines[1..]);
      assert flags[1..] == KeepFlags(lines[1..]);
      KeptIndicesFlagged(lines[1..]);
      ShiftedPositions(tail, flags);
      if Keep(lines[0]) {
        assert KeptIndices(lines) == [0] + Shift(tail);
        KeptFirst(flags, Shift(tail));
      } else {
        assert KeptIndices(lines) == Shift(tail);
        DroppedFirst(flags, Shift(tail));
      }
    }
  }

  /** The filter keeps exactly the lines that pass the tests, and keeps them
      in their original order. */
  lemma KeptIndicesArePositions(lines: seq<string>)
    ensures forall j :: 0 <= j < |KeptIndices(lines)| ==> KeptIndices(lines)[j] < |lines|
    ensures forall j, j' :: 0 <= j < j' < |KeptIndices(lines)| ==> KeptIndices(lines)[j] < KeptIndices(lines)[j']
    ensures forall i :: 0 <= i < |lines| ==> (Keep(lines[i]) <==> i in KeptIndices(lines))
  {
    KeptIndicesFlagged(lines);
    KeepFlagsAt(lines);
  }

  /** The `j`-th cleaned line is the stripped line at the `j`-th kept
      position: the result is the stripped input, restricted to the kept
      positions. */
  lemma {:induction false} CleanLinesAt(lines: seq<string>)
    ensures forall j :: 0 <= j < |CleanLines(lines)| ==>
              CleanLines(lines)[j] == Strip(lines[KeptIndices(lines)[j]])
    decreases |lines|
  {
    if lines != [] {
      CleanLinesAt(lines[1..]);
      var rest := CleanLines(lines[1..]);
      var tail := KeptIndices(lines[1..]);
      var idx := KeptIndices(lines);
      var out := CleanLines(lines);
      SelectedAfter(lines, Strip, Keep(lines[0]), out, rest, idx, tail);
    }
  }

  /** The step of `CleanLinesAt`, for any map `f` of the lines: past what
      the first line adds, the result and its positions are those of the
      rest, one further on. */
  lemma SelectedAfter<T, U>(lines: seq<T>, f: T -> U, first: bool, out: seq<U>, rest: seq<U>,
                            idx: seq<nat>, tail: seq<nat>)
    requires lines != [] && |tail| == |rest|
    requires forall j :: 0 <= j < |tail| ==> tail[j] < |lines| - 1
    requires out == if first then [f(lines[0])] + rest else rest
    requires idx == if first then [0] + Shift(tail) else Shift(tail)
    requires forall j :: 0 <= j < |rest| ==> rest[j] == f(lines[1..][tail[j]])
    ensures |idx| == |out|
    ensures forall j :: 0 <= j < |out| ==> idx[j] < |lines| && out[j] == f(lines[idx[j]])
  {
    var sh := Shift(tail);
    if first {
      forall j | 0 <= j < |out|
        ensures idx[j] < |lines| && out[j] == f(lines[idx[j]])
      {
        if j > 0 {
          assert out[j] == rest[j - 1] && idx[j] == sh[j - 1] == tail[j - 1] + 1;
          assert lines[1..][tail[j - 1]] == lines[idx[j]];
        }
      }
    } else {
      forall j | 0 <= j < |out|
        ensures idx[j] < |lines| && out[j] == f(lines[idx[j]])
      {
        assert out[j] == rest[j] && idx[j] == sh[j] == tail[j] + 1;
        assert lines[1..][tail[j]] == lines[idx[j]];
      }
    }
  }

  /** A line is kept exactly when its stripped form is non-empty, does not
      start with `//`, and is not matched by the header regular expression. */
  lemma KeepIff(line: string)
    ensures Keep(line) <==>
              Strip(line) != "" && !StartsWith(Strip(line), "//") && !Matches(HeaderItems, Strip(line))
  {
    HeaderIsRegexMatch(Strip(line));
  }

  /** Every line the filter yields is already stripped and passes the tests. */
  lemma {:induction false} CleanLinesRetained(lines: seq<string>)
    ensures forall j :: 0 <= j < |CleanLines(lines)| ==>
              Strip(CleanLines(lines)[j]) == CleanLines(lines)[j] && Retained(CleanLines(lines)[j])
    decreases |lines|
  {
    if lines != [] {
      CleanLinesRetained(lines[1..]);
      if Keep(lines[0]) {
        StripIdempotent(lines[0]);
      }
    }
  }

  /** Lines that already passed the filter pass it again unchanged. */
  lemma {:induction false} CleanLinesOfCleanLines(xs: seq<string>)
    requires forall j :: 0 <= j < |xs| ==> Strip(xs[j]) == xs[j] && Retained(xs[j])
    ensures CleanLines(xs) == xs
    decreases |xs|
  {
    if xs != [] {
      CleanLinesOfCleanLines(xs[1..]);
      assert [xs[0]] + xs[1..] == xs;
    }
  }

  /** The filter is idempotent. */
  lemma CleanLinesIdempotent(lines: seq<string>)
    ensures CleanLines(CleanLines(lines)) == CleanLines(lines)
  {
    CleanLinesRetained(lines);
    CleanLinesOfCleanLines(CleanLines(lines));
  }

  // ---------------------------------------------------------------------
  // Properties of the join and of the extracted text

  /** The joined length is the lengths of the parts plus one separator
      between each two neighbours. */
  function TotalLength(parts: seq<string>): nat
    decreases |parts|
  {
    if parts == [] then 0 else TotalLength(parts[..|parts| - 1]) + |parts[|parts| - 1]|
  }

  lemma {:induction false} JoinLength(parts: seq<string>, sep: string)
    ensures |Join(parts, sep)| == TotalLength(parts) + (if parts == [] then 0 else (|parts| - 1) * |sep|)
    decreases |parts|
  {
    if |parts| > 1 {
      JoinLength(parts[..|parts| - 1], sep);
      assert parts[..|parts| - 1][..|parts| - 2] == parts[..|parts| - 2];
    } else if |parts| == 1 {
      assert parts[..0] == [];
    }
  }

  /** Joining two non-empty runs of parts puts one separator between them. */
  lemma {:induction false} JoinAppend(a: seq<string>, b: seq<string>, sep: string)
    requires a != [] && b != []
    ensures Join(a + b, sep) == Join(a, sep) + sep + Join(b, sep)
    decreases |b|
  {
    if |b| == 1 {
      assert (a + b)[..|a + b| - 1] == a;
    } else {
      var b' := b[..|b| - 1];
      assert (a + b)[..|a + b| - 1] == a + b';
      JoinAppend(a, b', sep);
    }
  }

  /** A missing file yields exactly the error message naming the path. */
  lemma MissingFileMessage(filePath: string, lines: seq<string>)
    ensures ExtractTranscriptText(false, filePath, lines) == "Error: File not found at " + filePath
    ensures StartsWith(ExtractTranscriptText(false, filePath, lines), "Error:")
  {
    var r := ExtractTranscriptText(false, filePath, lines);
    assert r[..6] == "Error:";
  }

  /** The cleaned text is empty exactly when no line is kept, and it is
      itself stripped: it never starts or ends with whitespace. */
  lemma {:induction false} CleanedTextShape(filePath: string, lines: seq<string>)
    ensures ExtractTranscriptText(true, filePath, lines) == "" <==> CleanLines(lines) == []
    ensures NoEdgeSpace(ExtractTranscriptText(true, filePath, lines))
  {
    CleanLinesRetained(lines);
    var parts := CleanLines(lines);
    var r := Join(parts, " ");
    if parts != [] {
      JoinLength(parts, " ");
      JoinEdges(parts);
    }
  }

  /** Joining non-empty parts without edge whitespace keeps the first
      character of the first part and the last of the last. */
  lemma {:induction false} JoinEdges(parts: seq<string>)
    requires parts != []
    requires forall j :: 0 <= j < |parts| ==> parts[j] != "" && NoEdgeSpace(parts[j])
    ensures Join(parts, " ") != ""
    ensures Join(parts, " ")[0] == parts[0][0]
    ensures Join(parts, " ")[|Join(parts, " ")| - 1] == parts[|parts| - 1][|parts[|parts| - 1]| - 1]
    decreases |parts|
  {
    if |parts| > 1 {
      var init := parts[..|parts| - 1];
      JoinEdges(init);
      assert init[0] == parts[0];
    }
  }

  /** A line made of retained text padded with whitespace is kept, and the
      filter yields that text. */
  lemma KeepPadded(w1: string, t: string, w2: string)
    requires AllSpace(w1) && AllSpace(w2) && NoEdgeSpace(t) && Retained(t)
    ensures Keep(w1 + t + w2) && Strip(w1 + t + w2) == t
  {
    StripPadded(w1, t, w2);
  }

  /** `Speaker 1 0:01 - 0:05`, whose time stamps are too short for a
      header, is kept as text, unchanged. */
  lemma ShortTimesKept(line: string)
    requires line == "Speaker 1 0:01 - 0:05"
    ensures Keep(line) && Strip(line) == line
  {
    ShortTimesDoNotMatch();
    assert line[0] != '/';
    assert line == [] + line + [];
    KeepPadded([], line, []);
  }

  /** The lines of the end-to-end example, one at a time. */
  lemma SampleHeaderDropped(line: string)
    requires line == "Speaker 1 0:00:01 - 0:00:05\n"
    ensures !Keep(line)
  {
    var t := "Speaker 1 0:00:01 - 0:00:05";
    StripPadded([], t, "\n");
    assert [] + t + "\n" == line;
    SampleHeaderMatches();
  }

  lemma SampleBlankDropped(line: string)
    requires line == "\n"
    ensures !Keep(line)
  {
    StripEmptyIff(line);
  }

  lemma SampleCommentDropped(line: string)
    requires line == "// comment\n"
    ensures !Keep(line)
  {
    var t := "// comment";
    StripPadded([], t, "\n");
    assert [] + t + "\n" == line;
    assert StartsWith(t, "//");
  }

  lemma SampleTextKept(line: string, t: string)
    requires t == "Hello world" || t == "Second line"
    requires line == t + "\n" || line == t
    ensures Keep(line) && Strip(line) == t
  {
    assert !IsHeader(t) by {
      HeaderStartsWithSpeaker(t);
      assert t[1] != "Speaker"[1];
    }
    assert !StartsWith(t, "//") by { assert t[0] != '/'; }
    if line == t {
      assert [] + t + [] == line;
      KeepPadded([], t, []);
    } else {
      assert [] + t + "\n" == line;
      KeepPadded([], t, "\n");
    }
  }

  /** The end-to-end example: headers, blank lines and comments disappear and
      the rest is joined with single spaces. */
  lemma SampleTranscript(filePath: string, lines: seq<string>)
    requires |lines| == 5 && lines[0] == "Speaker 1 0:00:01 - 0:00:05\n" && lines[1] == "Hello world\n"
    requires lines[2] == "\n" && lines[3] == "// comment\n" && lines[4] == "Second line"
    ensures ExtractTranscriptText(true, filePath, lines) == "Hello world Second line"
  {
    assert "Hello world" + " " + "Second line" == "Hello world Second line";
    SampleHeaderDropped(lines[0]);
    SampleTextKept(lines[1], "Hello world");
    SampleBlankDropped(lines[2]);
    SampleCommentDropped(lines[3]);
    SampleTextKept(lines[4], "Second line");
    TwoKeptOfFive(lines, "Hello world", "Second line");
  }

  /** Five lines of which only the second and the last are kept clean to
      those two lines joined by a space. */
  lemma TwoKeptOfFive(lines: seq<string>, a: string, b: string)
    requires |lines| == 5
    requires !Keep(lines[0]) && Keep(lines[1]) && !Keep(lines[2]) && !Keep(lines[3]) && Keep(lines[4])
    requires Strip(lines[1]) == a && Strip(lines[4]) == b
    ensures CleanLines(lines) == [a, b]
    ensures Join(CleanLines(lines), " ") == a + " " + b
  {
    assert CleanLines(lines[4..]) == [b] by {
      assert lines[4..][1..] == [];
    }
    assert CleanLines(lines[3..]) == [b] by {
      assert lines[3..][0] == lines[3] && lines[3..][1..] == lines[4..];
    }
    assert CleanLines(lines[2..]) == [b] by {
      assert lines[2..][0] == lines[2] && lines[2..][1..] == lines[3..];
    }
    assert CleanLines(lines[1..]) == [a, b] by {
      assert lines[1..][0] == lines[1] && lines[1..][1..] == lines[2..];
    }
    assert CleanLines(lines) == [a, b];
    assert Join([a, b], " ") == Join([a], " ") + " " + b;
  }

  /** A modification event triggers reprocessing exactly when it is not a
      directory and its path is the tracked name or ends in `/` and that name. */
  lemma ShouldReprocessIff(isDirectory: bool, srcPath: string, filename: string)
    ensures ShouldReprocess(isDirectory, srcPath, filename) <==>
              !isDirectory && Paths.Sep !in filename &&
              (srcPath == filename ||
               (|filename| < |srcPath| && srcPath[|srcPath| - |filename| - 1..] == [Paths.Sep] + filename))
  {
    if Paths.Sep !in filename {
      Paths.BasenameIs(srcPath, filename);
    }
  }

  // ---------------------------------------------------------------------
  // The change handler

  /** `TranscriptChangeHandler`: it remembers the transcript path, its base
      name and the output path, and `written` is the text of the output file
      after the last extract-and-write cycle. */
  class TranscriptChangeHandler {
    var filePath: string
    var filename: string
    var outputFilePath: string
    var written: string

    ghost predicate Valid()
      reads this
    {
      filename == Paths.Basename(filePath)
    }

    /** `__init__`: records the paths and runs one cycle at once. */
    constructor (filePath: string, outputFilePath: string, fileExists: bool, lines: seq<string>)
      ensures Valid()
      ensures this.filePath == filePath && this.outputFilePath == outputFilePath
      ensures filename == Paths.Basename(filePath)
      ensures written == ExtractTranscriptText(fileExists, filePath, lines)
    {
      this.filePath := filePath;
      this.filename := Paths.Basename(filePath);
      this.outputFilePath := outputFilePath;
      new;
      Process(fileExists, lines);
    }

    /** `_process`: overwrites the output file with the extraction's result. */
    method Process(fileExists: bool, lines: seq<string>)
      requires Valid()
      modifies this`written
      ensures Valid()
      ensures written == ExtractTranscriptText(fileExists, filePath, lines)
    {
      written := ExtractTranscriptText(fileExists, filePath, lines);
    }

    /** `on_modified`: reprocesses only for a non-directory event on the
        tracked file name; any other event leaves the output as it was. */
    method OnModified(isDirectory: bool, srcPath: string, fileExists: bool, lines: seq<string>)
      returns (reprocessed: bool)
      requires Valid()
      modifies this`written
      ensures Valid()
      ensures reprocessed == ShouldReprocess(isDirectory, srcPath, filename)
      ensures written == if reprocessed then ExtractTranscriptText(fileExists, filePath, lines)
                         else old(written)
    {
      reprocessed := !isDirectory && Paths.Basename(srcPath) == filename;
      if reprocessed {
        Process(fileExists, lines);
      }
    }
  }
}
