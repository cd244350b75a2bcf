# Transcript cleaner and folder-tree printer, modelled in Dafny

The repository holds two small Python utilities.

`extract_transcript.py` turns a speech-to-text transcript into plain text:
- It reads the file's lines and strips each one.
- It drops blank lines, lines starting with `//`, and speaker headers such
  as `Speaker 1 0:00:10 - 0:00:18`.
- It joins what is left with single spaces.
- A missing file gives an error message instead of text.
- A `TranscriptChangeHandler` re-runs the extraction and overwrites the
  output file when a modification event names the tracked file.

`generate_folder_tree.py` writes a text drawing of a directory tree:
- It starts with a header naming the root.
- Each directory the walk visits gets one line, with its base name and `/`.
- Each file gets one line, with `├── ` or, for the last file of a
  directory, `└── `.
- Lines are indented with `│   ` according to the directory's depth.

Files of the model:
- `paths.dfy` (module `Paths`): the POSIX separator `/` and
  `os.path.basename`, shared by both scripts.
- `header_pattern.dfy` (module `HeaderPattern`): the header regular
  expression `^Speaker\s+\d+\s+[\d:]{5,}\s+-\s+[\d:]{5,}\s*$`. It is a list
  of items with two readings:
  - a backtracking `Matches`, which is what the regular expression means;
  - a greedy recogniser `Recognise`, which `IsHeader` uses.

  The two are proved to agree on this pattern. `\s` is Python's whitespace
  set written out code point by code point. `\d` is `0`-`9`.
- `transcript.dfy` (module `Transcript`):
  - `str.strip`, the line filter and the `' '.join`;
  - `extract_transcript_text`;
  - the `on_modified` test;
  - the handler as a class whose `written` field is the output file's text.
- `folder_tree.dfy` (module `FolderTree`):
  - `str.replace(pat, '')`, `str.count` and `str * n`;
  - the lines the printer writes, as specification functions;
  - `generate_directory_tree` as a method with the source's two nested
    loops, each appending to the sequence of writes. Like the source, it
    computes `sub_indent` (generate_folder_tree.py:28) and never uses it.

Inputs from the outside world are parameters:
- whether the file or directory exists;
- the lines `readlines()` returns;
- the entries `os.walk` yields, in its top-down order.

## Model

| member | source | states |
|---|---|---|
| Paths.Basename | generate_folder_tree.py:26 | the base name holds no `/` and is a suffix of the path |
| Paths.BasenameIs | extract_transcript.py:50 | a path's base name is a given separator-free name exactly when the path is that name or ends in `/` and that name |
| HeaderPattern.IsSpace | extract_transcript.py:32-33 | the characters Python's `str.isspace` accepts, which `\s` matches and `strip()` removes; a definition, used by `Strip` and the header items |
| HeaderPattern.IsDigit | extract_transcript.py:33 | `\d`, as the ASCII digits `0`-`9`; a definition (see "## Left out") |
| HeaderPattern.InClass | extract_transcript.py:33 | the pattern's three character classes `\s`, `\d` and `[\d:]`; a definition, used by `Span` and `Recognise` |
| HeaderPattern.HeaderItems | extract_transcript.py:33 | the pattern as ten items: `Speaker`, `\s+`, `\d+`, `\s+`, `[\d:]{5,}`, `\s+`, `-`, `\s+`, `[\d:]{5,}`, `\s*`; see `HeaderItemsSeparated`, `HeaderIsRegexMatch` |
| HeaderPattern.NumberedItems | extract_transcript.py:33 | the items from `\d+` on, a tail of `HeaderItems`; see `NumberedTail` |
| HeaderPattern.TimeRangeItems | extract_transcript.py:33 | the items from the `\s+` before `-` on, a tail of `HeaderItems`; see `TimeRangeTail` |
| HeaderPattern.TimeRangeTail | extract_transcript.py:33 | whitespace, `-`, whitespace, a digit/colon run of length 5 or more and optional whitespace are accepted by `TimeRangeItems` |
| HeaderPattern.NumberedTail | extract_transcript.py:33 | digits, whitespace and a digit/colon run of length 5 or more, followed by an accepted time range, are accepted by `NumberedItems` |
| HeaderPattern.HeaderItemsSeparated | extract_transcript.py:33 | every repetition of the pattern is stopped by the item after it, so greedy and backtracking matching agree |
| HeaderPattern.Matches | extract_transcript.py:33 | the regular-expression reading of an item list, with backtracking; a definition, related to `Recognise` by `RecogniseIsMatch` |
| HeaderPattern.Recognise | extract_transcript.py:33 | greedy recognition of an item list; see `RecogniseIsMatch`, `RecogniseLit`, `RecogniseRep` |
| HeaderPattern.RecogniseLit | extract_transcript.py:33 | a literal item accepts exactly its own text followed by what the rest accepts |
| HeaderPattern.RecogniseRep | extract_transcript.py:33 | a repetition takes the whole run of its class and needs at least its minimum |
| HeaderPattern.IsHeader | extract_transcript.py:33 | the `re.match` test on a stripped line; see `HeaderIsRegexMatch`, `HeaderStartsWithSpeaker`, `HeaderOfParts`, `ShortFirstTimeNotHeader` |
| HeaderPattern.RecogniseIsMatch | extract_transcript.py:33 | for a pattern whose repetitions stop where the next item starts, greedy recognition accepts exactly the strings the backtracking regex semantics matches |
| HeaderPattern.HeaderIsRegexMatch | extract_transcript.py:33 | `IsHeader` accepts exactly the strings the anchored header regex matches |
| HeaderPattern.HeaderStartsWithSpeaker | extract_transcript.py:33 | every header starts with `Speaker` |
| HeaderPattern.HeaderOfParts | extract_transcript.py:33 | `Speaker`, whitespace, digits, whitespace, a digit/colon run of length 5 or more, whitespace, `-`, whitespace, another such run and optional whitespace always form a header |
| HeaderPattern.SampleHeaderMatches | extract_transcript.py:27 | the comment's example `Speaker 1 0:00:01 - 0:00:05` is a header |
| HeaderPattern.ShortFirstTimeNotHeader | extract_transcript.py:33 | a first time stamp shorter than 5 digit/colon characters is never a header, whatever follows |
| HeaderPattern.ShortTimesDoNotMatch | extract_transcript.py:33 | `Speaker 1 0:01 - 0:05` (four-character times) is not a header |
| Transcript.ShortTimesKept | extract_transcript.py:31-36 | the filter keeps `Speaker 1 0:01 - 0:05` as text, unchanged by stripping |
| Transcript.LeadingSpace | extract_transcript.py:32 | counts exactly the whitespace run at the start of the line |
| Transcript.TrailingSpace | extract_transcript.py:32 | counts exactly the whitespace run at the end of the line |
| Transcript.Strip | extract_transcript.py:32 | `strip()` shortens the line and leaves no whitespace at either end |
| Transcript.StripDecompose | extract_transcript.py:32 | every line is leading whitespace, its stripped form and trailing whitespace |
| Transcript.StripPadded | extract_transcript.py:32 | stripping whitespace-padded text with no edge whitespace gives back that text |
| Transcript.StripIdempotent | extract_transcript.py:32 | stripping twice is stripping once |
| Transcript.StripEmptyIff | extract_transcript.py:34 | a stripped line is empty exactly when the line is all whitespace |
| Transcript.Retained | extract_transcript.py:33-35 | the three tests of the comprehension on a stripped line; see `KeepIff`, `CleanLinesRetained` |
| Transcript.StartsWith | extract_transcript.py:35 | `str.startswith`; used in `Retained` and characterised through `KeepIff` |
| Transcript.Keep | extract_transcript.py:32-35 | the comprehension's condition on a raw line; see `KeepIff`, `KeepPadded` |
| Transcript.KeepIff | extract_transcript.py:32-35 | a line is kept exactly when its stripped form is non-empty, does not start with `//`, and is not matched by the header regex |
| Transcript.CleanLines | extract_transcript.py:31-36 | the filter yields at most as many lines as it is given |
| Transcript.KeptIndices | extract_transcript.py:31-36 | one index into the input per yielded line, each in range |
| Transcript.KeptIndicesArePositions | extract_transcript.py:31-36 | those indices increase strictly and are exactly the positions of the kept lines |
| Transcript.CleanLinesAt | extract_transcript.py:31-36 | the `j`-th yielded line is the stripped `j`-th kept input line, so the filter keeps order and content |
| Transcript.CleanLinesRetained | extract_transcript.py:31-36 | every yielded line is stripped, non-empty, not a comment and not a header |
| Transcript.CleanLinesOfCleanLines | extract_transcript.py:31-36 | stripped lines that all pass the tests come through the filter unchanged |
| Transcript.CleanLinesIdempotent | extract_transcript.py:31-36 | filtering the filter's output changes nothing |
| Transcript.Join | extract_transcript.py:38 | `' '.join`; see `JoinLength`, `JoinAppend`, `JoinEdges` |
| Transcript.JoinLength | extract_transcript.py:38 | the joined text is the parts' total length plus one separator between each pair |
| Transcript.JoinAppend | extract_transcript.py:38 | joining two non-empty runs is joining each and putting the separator between them |
| Transcript.JoinEdges | extract_transcript.py:38 | joined non-empty parts begin with the first part's first character and end with the last part's last character |
| Transcript.ExtractTranscriptText | extract_transcript.py:19-38 | `extract_transcript_text`; see `MissingFileMessage` for the missing file and `CleanedTextShape`, `SampleTranscript` for the cleaned text |
| Transcript.MissingFileMessage | extract_transcript.py:19-20 | a missing file gives `Error: File not found at ` and the path, whatever the lines |
| Transcript.CleanedTextShape | extract_transcript.py:31-38 | the cleaned text is empty exactly when no line is kept, and never has whitespace at either end |
| Transcript.KeepPadded | extract_transcript.py:32-35 | a passing text padded with whitespace is kept and stripped back to itself |
| Transcript.SampleTranscript | extract_transcript.py:27-38 | a header, `Hello world`, a blank line, a `//` comment and `Second line` give `Hello world Second line` |
| Transcript.TwoKeptOfFive | extract_transcript.py:31-38 | of five lines with only the second and fifth kept, the text is their stripped forms joined by a space |
| Transcript.ShouldReprocess | extract_transcript.py:50 | the `on_modified` test; see `ShouldReprocessIff` |
| Transcript.ShouldReprocessIff | extract_transcript.py:50 | an event triggers reprocessing exactly when it is not a directory and its path is the tracked name or ends in `/` and that name |
| Transcript.TranscriptChangeHandler.constructor | extract_transcript.py:43-47 | records both paths and the transcript's base name, and runs one cycle, so the output holds the extraction's result |
| Transcript.TranscriptChangeHandler.Process | extract_transcript.py:54-58 | the output file is overwritten with the extraction's result, and the handler's base name stays that of its path |
| Transcript.TranscriptChangeHandler.OnModified | extract_transcript.py:49-52 | reprocesses exactly for a matching non-directory event; any other event leaves the output file as it was; the handler's base name stays that of its path |
| FolderTree.GenerateDirectoryTree | generate_folder_tree.py:11-36 | a root that is not a directory writes nothing and reports the error message. Otherwise the writes are the header, then each walk entry's directory line and file lines, in walk order, and the success message is reported |
| FolderTree.RemoveAll | generate_folder_tree.py:22 | `str.replace(pat, '')` never lengthens the string; see `RemoveAllAbsent`, `RemoveAllLeading`, `RemoveAllCount` |
| FolderTree.Count | generate_folder_tree.py:22 | `str.count` is at most the length; see `CountAppend`, `CountAbsent` |
| FolderTree.CountAbsent | generate_folder_tree.py:22 | a string without the character counts none of it |
| FolderTree.Repeat | generate_folder_tree.py:23 | `str * n`; see `RepeatLength` |
| FolderTree.Header | generate_folder_tree.py:16 | the header write; see `TextStartsWithHeader` |
| FolderTree.DirNotFoundMessage | generate_folder_tree.py:12 | the message for a root that is not a directory; see `GenerateDirectoryTree` |
| FolderTree.SavedMessage | generate_folder_tree.py:36 | the message once the tree is written; see `GenerateDirectoryTree` |
| FolderTree.Level | generate_folder_tree.py:22 | the depth as written; see `LevelOfRoot`, `LevelBelowRoot`, `LevelAtMostSeparators`, `LevelIsRelativeLevel` and the two findings |
| FolderTree.DirIndent | generate_folder_tree.py:23 | the directory indent; see `DirLineLayout` |
| FolderTree.DirLine | generate_folder_tree.py:22-26 | the directory line; see `DirLineLayout` |
| FolderTree.Connector | generate_folder_tree.py:33 | the file connector; see `LastConnectorOnlyLast` |
| FolderTree.FileLine | generate_folder_tree.py:34 | one file line; see `FileLineLayout` |
| FolderTree.FileLines | generate_folder_tree.py:31-34 | one line per file, as many as files; see `FileLineLayout`, `LastConnectorOnlyLast` |
| FolderTree.EntryLines | generate_folder_tree.py:22-34 | one walk entry's writes; see `EntryLinesLength` |
| FolderTree.WalkLines | generate_folder_tree.py:20-34 | the writes of the loop, in walk order; see `WalkLinesLength`, `WalkLinesAppend`, `WalkLinesSnoc` |
| FolderTree.TreeWrites | generate_folder_tree.py:15-34 | everything written to the file; see `GenerateDirectoryTree`, `TreeWritesLength`, `EntryBlockAt`, `TreeWritesAround` |
| FolderTree.Text | generate_folder_tree.py:15-34 | the file text; see `TextStartsWithHeader` |
| FolderTree.ChildPath | generate_folder_tree.py:20 | the path `os.walk` yields for a directory nested below the root, built as `os.path.join` does; see `RelativeLevelCountsNesting` |
| FolderTree.RelativeLevel | generate_folder_tree.py:21-22 | the corrected depth; see `RelativeLevelCountsNesting` |
| FolderTree.WalkLinesSnoc | generate_folder_tree.py:20 | the writes for one more entry extend the writes for the entries before it |
| FolderTree.RepeatLength | generate_folder_tree.py:23 | `s * n` has `n` times the length of `s` |
| FolderTree.CountAppend | generate_folder_tree.py:22 | `count` over a concatenation is the sum of the counts |
| FolderTree.RemoveAllCount | generate_folder_tree.py:22 | `replace(pat, '')` never increases the count of any character |
| FolderTree.RemoveAllAbsent | generate_folder_tree.py:22 | where the pattern does not occur, `replace(pat, '')` returns the string unchanged |
| FolderTree.RemoveAllLeading | generate_folder_tree.py:22 | a leading occurrence is removed and the scan continues after it |
| FolderTree.LevelOfRoot | generate_folder_tree.py:22 | the root itself is at depth 0 |
| FolderTree.LevelBelowRoot | generate_folder_tree.py:22 | below the root, where the root does not occur again, the depth is the number of separators after the root |
| FolderTree.LevelAtMostSeparators | generate_folder_tree.py:22 | the depth never exceeds the number of separators in the whole path |
| FolderTree.LevelIsRelativeLevel | generate_folder_tree.py:22 | where the root does not occur again below it, the depth as written equals the corrected depth, less one for a directory strictly below a root ending in `/` |
| FolderTree.LevelUndercountsRecurringRoot | generate_folder_tree.py:22 | for root `/a`, the sub-directory `/a/ab` is given depth 0 though it is nested one level down |
| FolderTree.RelativeLevelCountsNesting | generate_folder_tree.py:22 | the corrected depth of a directory nested `n` names below the root is `n`, whether or not the root ends in `/` |
| FolderTree.LevelMissesTrailingSlashRoot | generate_folder_tree.py:22 | for root `/a/`, the sub-directory `/a/b` is given depth 0 though it is nested one level down |
| FolderTree.WalkLinesLength | generate_folder_tree.py:20-34 | each entry writes one line plus one per file |
| FolderTree.TreeWritesLength | generate_folder_tree.py:16-34 | the file has one write for the header, then one per directory and one per file |
| FolderTree.WalkLinesAppend | generate_folder_tree.py:20 | the writes for consecutive runs of entries follow one another |
| FolderTree.TreeWritesAround | generate_folder_tree.py:16-34 | the output is the header and earlier entries, then the `k`-th entry's block, then the later entries |
| FolderTree.EntryBlockAt | generate_folder_tree.py:20-34 | the `k`-th entry's block starts right after the header and the lines of the entries before it |
| FolderTree.EntryLinesLength | generate_folder_tree.py:26-34 | an entry's block is its directory line and then one line per file; with no files it is the directory line alone |
| FolderTree.TextStartsWithHeader | generate_folder_tree.py:16 | the file text starts with `Directory tree for: `, the root and an empty line |
| FolderTree.DirLineLayout | generate_folder_tree.py:22-26 | at depth 0 a directory line is its base name and `/` with no prefix. At depth `L > 0` it starts with `L - 1` vertical bars and a branch. Either way the name starts at column `4 L` |
| FolderTree.FileLineLayout | generate_folder_tree.py:31-34 | the `i`-th file line starts with `L` vertical bars and has its connector at column `4 L`. The `i`-th name follows at column `4 L + 4`, so files keep their order and sit one level deeper than their directory's name |
| FolderTree.LastConnectorOnlyLast | generate_folder_tree.py:33 | the last-branch connector appears exactly on the last file of a directory |
| FolderTree.SampleTree | generate_folder_tree.py:16-34 | a root with files `a.txt` and `b.txt` writes the header, the root line, `├── a.txt` and `└── b.txt` |

## Left out

- FolderTree.GenerateDirectoryTree: the exceptions of the output file are not modelled; the model assumes that the `open` at generate_folder_tree.py:15 and every write succeed. An `open` failure, such as a missing parent directory or no permission, raises before anything is written. A write can fail part-way through the walk: `os.walk` decodes a file name that is not valid UTF-8 with surrogate escapes, and writing it with `encoding='utf-8'` raises `UnicodeEncodeError`, which leaves only the earlier writes in the file. In both cases the success message of line 36 is not printed.
- Transcript file I/O: the `time.sleep` before reading, `open`/`readlines` and the write to the output file are not modelled. The lines read are a parameter, and the output file is the `written` field.
- ExtractTranscriptText: the exceptions `open`/`readlines` can raise for a path that exists are not modelled (extract_transcript.py:24-25). These are a directory (`IsADirectoryError`), a permission error and a decoding error. Each propagates out of `extract_transcript_text`, and in `__init__` it ends the program. With the file present, the model always returns the joined text of the given lines.
- The `print` calls of both scripts are not modelled. The folder-tree messages are returned as strings instead.
- The watchdog `Observer` is not modelled: its scheduling, the `Ctrl+C` loop and thread joining. Events are modelled as the parameters of `OnModified`.
- Both `__main__` blocks are not modelled: their fixed file names, `os.path.abspath`/`join` and the early `exit()`.
- `os.path.exists`, `os.path.isdir` and `os.walk` are inputs, as a flag and a list of entries. The order in which the file system lists names is whatever the list says.
- The directory names that `os.walk` yields with each entry are left out. They are not printed, and the walk order they steer is an input.
- HeaderPattern.IsDigit covers ASCII `0`-`9` only. Python's `\d` on `str` also accepts other Unicode decimal digits, which this model does not.
- Paths and separators are POSIX: `os.sep` is `/`. Windows separators are not modelled.
- Text is `seq<char>` with no encoding. The UTF-8 encoding of the output file is not modelled.

## Findings

| source | as written | input that shows it | evidently intended | confidence | as-written member | corrected member |
|---|---|---|---|---|---|---|
| generate_folder_tree.py:22 | the depth is the number of `/` left after `dirpath.replace(root_dir, '')`, which removes every occurrence of the root text, including ones below the root | root `/a`, sub-directory `/a/ab`: both `/a` are removed, leaving `b`, so the depth is 0 and the directory is drawn like the root | the depth is the number of separators after the leading root prefix, i.e. the nesting level (1 here) | not executed | FolderTree.LevelUndercountsRecurringRoot | FolderTree.RelativeLevelCountsNesting |
| generate_folder_tree.py:22 | the depth counts only the `/` left after removing the root, but `os.walk` joins a root that ends in `/` to its children without adding one | root `/a/`, sub-directory `/a/b`: removing `/a/` leaves `b`, so the depth is 0 | the nesting level (1 here): the separators after the root, plus one when the root ends in `/` and the path goes below it | not executed | FolderTree.LevelMissesTrailingSlashRoot | FolderTree.RelativeLevelCountsNesting |

`GenerateDirectoryTree` keeps the depth as written, because that is what the printer does. `FolderTree.LevelIsRelativeLevel` proves that the two depths agree when the root text does not occur again below the root and the root does not end in `/`. It also proves that, for a directory strictly below a root ending in `/`, the depth as written is one less.

`FileLineLayout` and `LastConnectorOnlyLast` are stated for any depth, so they hold for the corrected depth too. `DirLineLayout` is stated about `DirLine`, which uses the depth as written.
