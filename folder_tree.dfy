/** The directory tree printer, `generate_directory_tree`: a header naming
    the root, then for every directory the walk visits one line with its
    base name and one line per file in it, indented by the directory's depth.
    The walk itself and the `isdir` test are inputs; the output file is the
    sequence of strings the function writes to it, in order. */
module FolderTree {
  import Paths

  datatype Option<T> = None | Some(value: T)

  /** One triple yielded by a top-down `os.walk`, less the sub-directory
      names, which only steer the walk (an input here) and are not printed. */
  datatype WalkEntry = WalkEntry(dirpath: string, filenames: seq<string>)

  /** The three four-character drawing tokens. */
  const Vertical: string := "│   "
  const Branch: string := "├── "
  const LastBranch: string := "└── "

  // ---------------------------------------------------------------------
  // String helpers of the Python standard library

  /** `s.replace(pat, '')`: the occurrences of `pat` found by a left-to-right
      scan, none overlapping the previous one, are removed. An empty `pat`
      leaves `s` as it is. */
  function RemoveAll(s: string, pat: string): (r: string)
    ensures |r| <= |s|
    decreases |s|
  {
    if pat == [] || |s| < |pat| then s
    else if s[..|pat|] == pat then RemoveAll(s[|pat|..], pat)
    else [s[0]] + RemoveAll(s[1..], pat)
  }

  /** `s.count(c)` for a one-character `c`. */
  function Count(s: string, c: char): (n: nat)
    ensures n <= |s|
    decreases |s|
  {
    if s == [] then 0 else (if s[0] == c then 1 else 0) + Count(s[1..], c)
  }

  /** `s * n`. */
  function Repeat(s: string, n: nat): (r: string)
    decreases n
  {
    if n == 0 then "" else s + Repeat(s, n - 1)
  }

  /** `pat` occurs in `s` at position `i`. */
  predicate OccursAt(s: string, pat: string, i: int) {
    0 <= i && i + |pat| <= |s| && s[i..i + |pat|] == pat
  }

  // ---------------------------------------------------------------------
  // What one run writes

  /** The header write, which ends with an empty line. */
  function Header(root: string): string {
    "Directory tree for: " + root + "\n\n"
  }

  /** `level`: the separators left in `dirpath` once every occurrence of
      `root` has been removed from it. */
  function Level(root: string, dirpath: string): nat {
    Count(RemoveAll(dirpath, root), Paths.Sep)
  }

  /** `indent`: nothing at depth 0; otherwise one vertical bar per level
      above the directory and a branch. */
  function DirIndent(level: nat): string {
    if level > 0 then Repeat(Vertical, level - 1) + Branch else ""
  }

  /** The line written for a visited directory. */
  function DirLine(root: string, dirpath: string): string {
    DirIndent(Level(root, dirpath)) + Paths.Basename(dirpath) + "/\n"
  }

  /** The connector of the `i`-th of `n` files: the last one differs. */
  function Connector(i: nat, n: nat): string {
    if i == n - 1 then LastBranch else Branch
  }

  /** The line written for the `i`-th of `n` files of a directory at `level`. */
  function FileLine(level: nat, i: nat, n: nat, name: string): string {
    Repeat(Vertical, level) + Connector(i, n) + name + "\n"
  }

  /** The lines written for the files of a directory at `level`. */
  function FileLines(level: nat, names: seq<string>): (r: seq<string>)
    ensures |r| == |names|
  {
    seq(|names|, i requires 0 <= i < |names| => FileLine(level, i, |names|, names[i]))
  }

  /** The writes for one walk entry: the directory line, then its files. */
  function EntryLines(root: string, e: WalkEntry): seq<string> {
    [DirLine(root, e.dirpath)] + FileLines(Level(root, e.dirpath), e.filenames)
  }

  /** The writes for the walk entries, in walk order. */
  function WalkLines(root: string, walk: seq<WalkEntry>): seq<string>
    decreases |walk|
  {
    if walk == [] then []
    else WalkLines(root, walk[..|walk| - 1]) + EntryLines(root, walk[|walk| - 1])
  }

  /** Everything written to the output file, one element per `f.write`. */
  function TreeWrites(root: string, walk: seq<WalkEntry>): seq<string> {
    [Header(root)] + WalkLines(root, walk)
  }

  /** The text of the file: the writes one after the other. */
  function Text(writes: seq<string>): string
    decreases |writes|
  {
    if writes == [] then "" else writes[0] + Text(writes[1..])
  }

  lemma AppendAssoc<T>(a: seq<T>, b: seq<T>, c: seq<T>)
    ensures (a + b) + c == a + (b + c)
  {
  }

  lemma SnocPrefix<T>(s: seq<T>, i: nat)
    requires i < |s|
    ensures s[..i + 1] == s[..i] + [s[i]]
  {
  }

  /** The writes for the first `k + 1` entries extend those for the first `k`. */
  lemma WalkLinesSnoc(root: string, walk: seq<WalkEntry>, k: nat)
    requires k < |walk|
    ensures WalkLines(root, walk[..k + 1]) == WalkLines(root, walk[..k]) + EntryLines(root, walk[k])
  {
    assert walk[..k + 1][..k] == walk[..k];
  }

  /** The console message for a root that is not a directory. */
  function DirNotFoundMessage(root: string): string {
    "Error: Directory '" + root + "' not found."
  }

  /** The console message once the tree has been written. */
  function SavedMessage(outputFile: string): string {
    "Directory structure has been saved to '" + outputFile + "'"
  }

  /** `generate_directory_tree(root_dir, output_file)`, with the `isdir` test
      and the walk as inputs. It returns what was written to the output file,
      `None` when nothing was, and the message printed to the console. */
  method GenerateDirectoryTree(rootDir: string, outputFile: string, isDir: bool, walk: seq<WalkEntry>)
    returns (written: Option<seq<string>>, message: string)
    ensures !isDir ==> written == None && message == DirNotFoundMessage(rootDir)
    ensures isDir ==> written == Some(TreeWrites(rootDir, walk))
    ensures isDir ==> message == SavedMessage(outputFile)
  {
    if !isDir {
      written := None;
      message := DirNotFoundMessage(rootDir);
      return;
    }
    var writes := [Header(rootDir)];
    var k := 0;
    while k < |walk|
      invariant 0 <= k <= |walk|
      invariant writes == [Header(rootDir)] + WalkLines(rootDir, walk[..k])
    {
      var dirpath, filenames := walk[k].dirpath, walk[k].filenames;
      ghost var done := writes;
      var level := Count(RemoveAll(dirpath, rootDir), Paths.Sep);
      var indent := if level > 0 then Repeat(Vertical, level - 1) + Branch else "";
      writes := writes + [indent + Paths.Basename(dirpath) + "/\n"];
      // `sub_indent` is computed and never used.
      var subIndent := Repeat(Vertical, level) + Branch;
      var i := 0;
      while i < |filenames|
        invariant 0 <= i <= |filenames|
        invariant writes == done + ([DirLine(rootDir, dirpath)] + FileLines(level, filenames)[..i])
      {
        var connector := if i == |filenames| - 1 then LastBranch else Branch;
        ghost var fileLine := Repeat(Vertical, level) + connector + filenames[i] + "\n";
        SnocPrefix(FileLines(level, filenames), i);
        AppendAssoc(done, [DirLine(rootDir, dirpath)] + FileLines(level, filenames)[..i], [fileLine]);
        AppendAssoc([DirLine(rootDir, dirpath)], FileLines(level, filenames)[..i], [fileLine]);
        writes := writes + [Repeat(Vertical, level) + connector + filenames[i] + "\n"];
        i := i + 1;
      }
      assert FileLines(level, filenames)[..i] == FileLines(level, filenames);
      WalkLinesSnoc(rootDir, walk, k);
      AppendAssoc([Header(rootDir)], WalkLines(rootDir, walk[..k]), EntryLines(rootDir, walk[k]));
      k := k + 1;
    }
    assert walk[..k] == walk;
    written := Some(writes);
    message := SavedMessage(outputFile);
  }

  // ---------------------------------------------------------------------
  // Properties of the helpers

  lemma {:induction false} RepeatLength(s: string, n: nat)
    ensures |Repeat(s, n)| == n * |s|
    decreases n
  {
    if n > 0 {
      RepeatLength(s, n - 1);
      assert n * |s| == |s| + (n - 1) * |s|;
    }
  }

  lemma {:induction false} CountAppend(a: string, b: string, c: char)
    ensures Count(a + b, c) == Count(a, c) + Count(b, c)
    decreases |a|
  {
    if a != [] {
      assert (a + b)[1..] == a[1..] + b;
      CountAppend(a[1..], b, c);
    } else {
      assert a + b == b;
    }
  }

  /** A string without `c` counts no `c`. */
  lemma {:induction false} CountAbsent(s: string, c: char)
    requires c !in s
    ensures Count(s, c) == 0
    decreases |s|
  {
    if s != [] {
      assert s[0] != c;
      CountAbsent(s[1..], c);
    }
  }

  /** Removing occurrences of `pat` never adds a character: each character
      is counted at most as often as before. */
  lemma {:induction false} RemoveAllCount(s: string, pat: string, c: char)
    ensures Count(RemoveAll(s, pat), c) <= Count(s, c)
    decreases |s|
  {
    if pat != [] && |s| >= |pat| {
      if s[..|pat|] == pat {
        RemoveAllCount(s[|pat|..], pat, c);
        assert s == s[..|pat|] + s[|pat|..];
        CountAppend(s[..|pat|], s[|pat|..], c);
      } else {
        RemoveAllCount(s[1..], pat, c);
        CountAppend([s[0]], RemoveAll(s[1..], pat), c);
        assert ([s[0]] + RemoveAll(s[1..], pat))[1..] == RemoveAll(s[1..], pat);
      }
    }
  }

  /** Where `pat` does not occur, removing it changes nothing. */
  lemma {:induction false} RemoveAllAbsent(s: string, pat: string)
    requires pat != []
    requires forall i :: !OccursAt(s, pat, i)
    ensures RemoveAll(s, pat) == s
    decreases |s|
  {
    if |s| >= |pat| {
      assert !OccursAt(s, pat, 0);
      forall i
        ensures !OccursAt(s[1..], pat, i)
      {
        if OccursAt(s[1..], pat, i) {
          assert s[1..][i..i + |pat|] == s[i + 1..i + 1 + |pat|];
          assert OccursAt(s, pat, i + 1);
        }
      }
      RemoveAllAbsent(s[1..], pat);
      assert [s[0]] + s[1..] == s;
    }
  }

  /** A leading occurrence of `pat` is removed, and the scan goes on after it. */
  lemma RemoveAllLeading(pat: string, rest: string)
    requires pat != []
    ensures RemoveAll(pat + rest, pat) == RemoveAll(rest, pat)
  {
    assert (pat + rest)[..|pat|] == pat;
    assert (pat + rest)[|pat|..] == rest;
  }

  // ---------------------------------------------------------------------
  // Depth of a directory

  /** The root itself is at depth 0. */
  lemma LevelOfRoot(root: string)
    requires root != []
    ensures Level(root, root) == 0
  {
    assert root + "" == root;
    RemoveAllLeading(root, "");
  }

  /** A path below the root, in which the root does not occur again, is as
      deep as the separators after the root. */
  lemma LevelBelowRoot(root: string, rest: string)
    requires root != []
    requires forall i :: !OccursAt(rest, root, i)
    ensures Level(root, root + rest) == Count(rest, Paths.Sep)
  {
    RemoveAllLeading(root, rest);
    RemoveAllAbsent(rest, root);
  }

  /** The depth never exceeds the separators of the whole path. */
  lemma LevelAtMostSeparators(root: string, dirpath: string)
    ensures Level(root, dirpath) <= Count(dirpath, Paths.Sep)
  {
    RemoveAllCount(dirpath, root, Paths.Sep);
  }

  /** `/` followed by each name in turn: the path of a directory nested
      `|names|` levels below the one it is appended to. */
  function SepJoin(names: seq<string>): string
    decreases |names|
  {
    if names == [] then "" else [Paths.Sep] + names[0] + SepJoin(names[1..])
  }

  lemma {:induction false} SepJoinCount(names: seq<string>)
    requires forall j :: 0 <= j < |names| ==> Paths.Sep !in names[j]
    ensures Count(SepJoin(names), Paths.Sep) == |names|
    decreases |names|
  {
    if names != [] {
      SepJoinCount(names[1..]);
      CountAbsent(names[0], Paths.Sep);
      CountAppend([Paths.Sep] + names[0], SepJoin(names[1..]), Paths.Sep);
      CountAppend([Paths.Sep], names[0], Paths.Sep);
    }
  }

  /** The path ends in a separator, like the root `/` or `/a/`. */
  predicate EndsInSep(p: string) {
    p != [] && p[|p| - 1] == Paths.Sep
  }

  /** `os.path.join(root, *names)` for separator-free names: the path of the
      directory `names` leads to from `root`. A separator is inserted only
      where `root` does not already end in one (or is empty). */
  function ChildPath(root: string, names: seq<string>): string {
    if names == [] then root
    else if root == [] || EndsInSep(root) then root + names[0] + SepJoin(names[1..])
    else root + SepJoin(names)
  }

  /** The depth below `root`: the separators after the leading root prefix,
      plus the one the join left out when `root` ends in a separator. */
  function RelativeLevel(root: string, dirpath: string): nat {
    if |root| <= |dirpath| && dirpath[..|root|] == root then
      var rel := dirpath[|root|..];
      Count(rel, Paths.Sep) + (if rel != [] && (root == [] || EndsInSep(root)) then 1 else 0)
    else Count(dirpath, Paths.Sep)
  }

  /** The corrected depth is the nesting: a directory `|names|` levels below
      the root is at depth `|names|`, whether or not the root ends in `/`. */
  lemma RelativeLevelCountsNesting(root: string, names: seq<string>)
    requires forall j :: 0 <= j < |names| ==> names[j] != [] && Paths.Sep !in names[j]
    ensures RelativeLevel(root, ChildPath(root, names)) == |names|
  {
    var d := ChildPath(root, names);
    if names != [] {
      if root == [] || EndsInSep(root) {
        var rest := names[0] + SepJoin(names[1..]);
        assert d == root + rest;
        assert d[..|root|] == root && d[|root|..] == rest;
        SepJoinCount(names[1..]);
        CountAbsent(names[0], Paths.Sep);
        CountAppend(names[0], SepJoin(names[1..]), Paths.Sep);
      } else {
        assert d[..|root|] == root && d[|root|..] == SepJoin(names);
        SepJoinCount(names);
      }
    } else {
      assert d[..|root|] == root && d[|root|..] == [];
    }
  }

  /** Where the root does not occur again below it, the depth as written is
      the corrected depth, except that it misses one level when the root
      ends in a separator. */
  lemma LevelIsRelativeLevel(root: string, rest: string)
    requires root != []
    requires forall i :: !OccursAt(rest, root, i)
    ensures Level(root, root + rest) + (if rest != [] && EndsInSep(root) then 1 else 0)
            == RelativeLevel(root, root + rest)
  {
    LevelBelowRoot(root, rest);
    var d := root + rest;
    assert d[..|root|] == root && d[|root|..] == rest;
  }

  /** With root `/a`, the sub-directory `/a/ab` loses both occurrences of
      `/a` and is drawn at depth 0, like the root, though it is one level
      below it. */
  lemma LevelUndercountsRecurringRoot()
    ensures "/a/ab" == ChildPath("/a", ["ab"])
    ensures Level("/a", "/a/ab") == 0
    ensures RelativeLevel("/a", "/a/ab") == 1
  {
    assert SepJoin(["ab"]) == "/ab" by {
      assert ["ab"][1..] == [];
    }
    assert ChildPath("/a", ["ab"]) == "/a" + SepJoin(["ab"]);
    RemoveAllLeading("/a", "/ab");
    RemoveAllLeading("/a", "b");
    assert "/a" + "/ab" == "/a/ab";
    assert "/a" + "b" == "/ab";
    assert RemoveAll("b", "/a") == "b";
    assert Count("b", Paths.Sep) == 0;
    RelativeLevelCountsNesting("/a", ["ab"]);
  }

  /** With root `/a/`, the walk yields `/a/b`; removing `/a/` leaves `b`, so
      the sub-directory is drawn at depth 0, though it is one level below
      the root. */
  lemma LevelMissesTrailingSlashRoot()
    ensures "/a/b" == ChildPath("/a/", ["b"])
    ensures Level("/a/", "/a/b") == 0
    ensures RelativeLevel("/a/", "/a/b") == 1
  {
    assert SepJoin(["b"][1..]) == "" by {
      assert ["b"][1..] == [];
    }
    assert EndsInSep("/a/");
    assert ChildPath("/a/", ["b"]) == "/a/" + "b" + "";
    assert "/a/" + "b" + "" == "/a/b";
    RemoveAllLeading("/a/", "b");
    assert "/a/" + "b" == "/a/b";
    assert RemoveAll("b", "/a/") == "b";
    assert Count("b", Paths.Sep) == 0;
    RelativeLevelCountsNesting("/a/", ["b"]);
  }

  // ---------------------------------------------------------------------
  // Shape of the output

  /** The number of writes for the walk entries. */
  function LineCount(walk: seq<WalkEntry>): nat
    decreases |walk|
  {
    if walk == [] then 0 else LineCount(walk[..|walk| - 1]) + 1 + |walk[|walk| - 1].filenames|
  }

  lemma {:induction false} WalkLinesLength(root: string, walk: seq<WalkEntry>)
    ensures |WalkLines(root, walk)| == LineCount(walk)
    decreases |walk|
  {
    if walk != [] {
      WalkLinesLength(root, walk[..|walk| - 1]);
    }
  }

  /** The output is the header and, for each entry, one directory line and
      one line per file. */
  lemma TreeWritesLength(root: string, walk: seq<WalkEntry>)
    ensures |TreeWrites(root, walk)| == 1 + LineCount(walk)
  {
    WalkLinesLength(root, walk);
  }

  /** The writes for consecutive runs of entries follow one another. */
  lemma {:induction false} WalkLinesAppend(root: string, a: seq<WalkEntry>, b: seq<WalkEntry>)
    ensures WalkLines(root, a + b) == WalkLines(root, a) + WalkLines(root, b)
    decreases |b|
  {
    if b == [] {
      assert a + b == a;
    } else {
      var b' := b[..|b| - 1];
      assert (a + b)[..|a + b| - 1] == a + b';
      WalkLinesAppend(root, a, b');
      AppendAssoc(WalkLines(root, a), WalkLines(root, b'), EntryLines(root, b[|b| - 1]));
    }
  }

  /** The middle one of three concatenated sequences. */
  lemma MiddleOf<T>(a: seq<T>, b: seq<T>, c: seq<T>)
    ensures (a + b + c)[|a|..][..|b|] == b
  {
    assert (a + b + c)[|a|..] == b + c;
  }

  /** The output split around the `k`-th entry. */
  lemma TreeWritesAround(root: string, walk: seq<WalkEntry>, k: nat)
    requires k < |walk|
    ensures TreeWrites(root, walk)
            == ([Header(root)] + WalkLines(root, walk[..k])) + EntryLines(root, walk[k]) + WalkLines(root, walk[k + 1..])
  {
    var before, after := walk[..k], walk[k + 1..];
    assert walk == (before + [walk[k]]) + after;
    WalkLinesAppend(root, before + [walk[k]], after);
    assert (before + [walk[k]])[..|before|] == before;
    assert WalkLines(root, before + [walk[k]]) == WalkLines(root, before) + EntryLines(root, walk[k]);
    var w, e, post := WalkLines(root, before), EntryLines(root, walk[k]), WalkLines(root, after);
    AppendAssoc(w, e, post);
    AppendAssoc([Header(root)], w, e + post);
    AppendAssoc([Header(root)] + w, e, post);
  }

  /** The `k`-th entry's block, its directory line and then its file lines,
      sits right after the header and the blocks of the entries before it. */
  lemma EntryBlockAt(root: string, walk: seq<WalkEntry>, k: nat)
    requires k < |walk|
    ensures 1 + LineCount(walk[..k]) + |EntryLines(root, walk[k])| <= |TreeWrites(root, walk)|
    ensures TreeWrites(root, walk)[1 + LineCount(walk[..k])..][..|EntryLines(root, walk[k])|]
            == EntryLines(root, walk[k])
  {
    TreeWritesAround(root, walk, k);
    WalkLinesLength(root, walk[..k]);
    MiddleOf([Header(root)] + WalkLines(root, walk[..k]), EntryLines(root, walk[k]), WalkLines(root, walk[k + 1..]));
  }

  /** An entry writes one line for its directory and one per file; an
      empty listing writes the directory line alone. */
  lemma EntryLinesLength(root: string, e: WalkEntry)
    ensures |EntryLines(root, e)| == 1 + |e.filenames|
    ensures EntryLines(root, e)[0] == DirLine(root, e.dirpath)
    ensures e.filenames == [] ==> EntryLines(root, e) == [DirLine(root, e.dirpath)]
  {
  }

  /** The file text begins with the header. */
  lemma TextStartsWithHeader(root: string, walk: seq<WalkEntry>)
    ensures |Header(root)| <= |Text(TreeWrites(root, walk))|
    ensures Text(TreeWrites(root, walk))[..|Header(root)|] == "Directory tree for: " + root + "\n\n"
  {
    var w := TreeWrites(root, walk);
    assert w[0] == Header(root) && w[1..] == WalkLines(root, walk);
  }

  /** At depth 0 a directory line is its base name and `/`; at depth
      `L > 0` it starts with `L - 1` vertical bars and a branch. Either way
      the name starts at column `4 L`. */
  lemma DirLineLayout(root: string, dirpath: string)
    ensures Level(root, dirpath) == 0 ==> DirLine(root, dirpath) == Paths.Basename(dirpath) + "/\n"
    ensures 4 * Level(root, dirpath) <= |DirLine(root, dirpath)|
    ensures Level(root, dirpath) > 0 ==>
              DirLine(root, dirpath)[..4 * Level(root, dirpath)] == Repeat(Vertical, Level(root, dirpath) - 1) + Branch
    ensures DirLine(root, dirpath)[4 * Level(root, dirpath)..] == Paths.Basename(dirpath) + "/\n"
  {
    var level := Level(root, dirpath);
    var tail := Paths.Basename(dirpath) + "/\n";
    if level > 0 {
      RepeatLength(Vertical, level - 1);
      var indent := Repeat(Vertical, level - 1) + Branch;
      assert |indent| == 4 * level;
      assert DirLine(root, dirpath) == indent + tail;
      assert (indent + tail)[..|indent|] == indent && (indent + tail)[|indent|..] == tail;
    } else {
      assert DirLine(root, dirpath) == "" + tail;
    }
  }

  /** The `i`-th file line of a directory at depth `L` starts with `L`
      vertical bars, has its connector at column `4 L` and the `i`-th name,
      with a newline, from column `4 L + 4`: file names keep their order
      and sit one level deeper than their directory's name. */
  lemma FileLineLayout(level: nat, names: seq<string>, i: nat)
    requires i < |names|
    ensures 4 * level + 4 <= |FileLines(level, names)[i]|
    ensures FileLines(level, names)[i][..4 * level] == Repeat(Vertical, level)
    ensures FileLines(level, names)[i][4 * level..4 * level + 4] == Connector(i, |names|)
    ensures FileLines(level, names)[i][4 * level + 4..] == names[i] + "\n"
  {
    RepeatLength(Vertical, level);
    var bars := Repeat(Vertical, level);
    var c := Connector(i, |names|);
    var tail := names[i] + "\n";
    var line := FileLines(level, names)[i];
    assert line == bars + c + tail;
    assert line[..|bars|] == bars;
    assert line[|bars|..|bars| + 4] == c;
    assert line[|bars| + 4..] == tail;
  }

  /** Exactly the last file of a listing gets the last-branch connector. */
  lemma LastConnectorOnlyLast(level: nat, names: seq<string>, i: nat)
    requires i < |names|
    ensures 4 * level + 4 <= |FileLines(level, names)[i]|
    ensures FileLines(level, names)[i][4 * level..4 * level + 4] == LastBranch <==> i == |names| - 1
  {
    FileLineLayout(level, names, i);
    assert Branch[0] != LastBranch[0];
  }

  /** A root holding only `a.txt` and `b.txt`: the header, the root's line,
      then `a.txt` with a branch and `b.txt` with the last branch. */
  lemma SampleTree(root: string)
    requires root != []
    ensures TreeWrites(root, [WalkEntry(root, ["a.txt", "b.txt"])])
            == [Header(root), Paths.Basename(root) + "/\n", "├── a.txt\n", "└── b.txt\n"]
  {
    var e := WalkEntry(root, ["a.txt", "b.txt"]);
    LevelOfRoot(root);
    assert [e][..0] == [];
    assert DirLine(root, root) == Paths.Basename(root) + "/\n";
    assert "" + Branch + "a.txt" + "\n" == "├── a.txt\n";
    assert "" + LastBranch + "b.txt" + "\n" == "└── b.txt\n";
    var fs := FileLines(0, e.filenames);
    assert fs[0] == "├── a.txt\n" && fs[1] == "└── b.txt\n";
    assert fs == ["├── a.txt\n", "└── b.txt\n"];
    assert WalkLines(root, [e]) == EntryLines(root, e);
    assert EntryLines(root, e) == [DirLine(root, root)] + fs;
  }
}
