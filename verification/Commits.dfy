/** Whole commits as `git show` prints them: which of the changed files the reader reports. */
module Commits {
  import opened Options
  import opened UnifiedDiff
  import opened DiffReader

  // ---- Words ----

  function WordEnd(s: string): (n: nat)
    ensures n <= |s| && (n < |s| ==> s[n] == ' ') && forall i | 0 <= i < n :: s[i] != ' '
    ensures s != "" && s[0] != ' ' ==> n > 0
  {
    if s == "" || s[0] == ' ' then 0 else 1 + WordEnd(s[1..])
  }

  /** `split()`, for lines in which no white space other than a blank is printed. */
  function Words(s: string): seq<Word>
    decreases |s|
  {
    if s == "" then []
    else if s[0] == ' ' then Words(s[1..])
    else [s[..WordEnd(s)]] + Words(s[WordEnd(s)..])
  }

  predicate NoBlank(s: string) {
    ' ' !in s
  }

  lemma OneWord(w: string, rest: string)
    requires w != "" && NoBlank(w) && (rest == "" || rest[0] == ' ')
    ensures Words(w + rest) == [w] + Words(rest)
  {
    var s := w + rest;
    var n := WordEnd(s);
    assert forall i | 0 <= i < |w| :: s[i] == w[i] && w[i] in w;
    assert s[..|w|] == w && s[|w|..] == rest;
  }

  lemma TwoWords(w: string, v: string)
    requires w != "" && NoBlank(w) && v != "" && NoBlank(v)
    ensures Words(w + " " + v) == [w, v]
  {
    OneWord(w, " " + v);
    assert w + " " + v == w + (" " + v);
    assert (" " + v)[1..] == v;
    OneWord(v, "");
    assert v + "" == v;
  }

  // ---- Printed commits ----

  /** `Executable` for an edited, or only renamed, file whose mode has changed, too. */
  datatype Mode = Changed | Executable | Created | Removed

  datatype FileDiff = FileDiff(pre: string, post: string, mode: Mode, extra: nat, hunks: seq<Hunk>)

  type File = f: FileDiff | f.pre != "" && f.post != "" && (f.mode.Created? || f.mode.Removed? ==> f.pre == f.post)
    witness FileDiff("a", "a", Changed, 0, [])

  /** The `diff` line of a file. */
  function Header(pre: string, post: string): Line {
    Line(DiffWord(["--git"] + Words("a/" + pre + " b/" + post)), DiffHead)
  }

  function ModeLines(mode: Mode): seq<Line> {
    match mode
    case Changed => []
    case Executable => [OTHER, Line(NewWord, OtherHead)]
    case Created => [Line(NewWord, OtherHead)]
    case Removed => [Line(DeletedWord, OtherHead)]
  }

  function Others(n: nat): seq<Line> {
    seq(n, _ => OTHER)
  }

  /** The `---` and `+++` lines. */
  const MARKS := [Line(OtherWord, MinusSign), Line(OtherWord, PlusSign)]

  /** The lines before the hunks: the `diff` line, the `old mode` and `new mode` lines or the
      `new file mode` or the `deleted file mode` line, the lines on renames and contents, and the
      `---` and `+++` lines when hunks follow. */
  function PrintHead(f: FileDiff): seq<Line> {
    [Header(f.pre, f.post)] + (ModeLines(f.mode) + (Others(f.extra) + if f.hunks == [] then [] else MARKS))
  }

  function PrintFiles(files: seq<File>): seq<Line> {
    if files == [] then [] else PrintHead(files[0]) + PrintHunks([], files[0].hunks) + PrintFiles(files[1..])
  }

  /** A line before the first file: an indented line of the message, which may start with any
      word, or a line of the commit's own header. */
  type MessageLine = l: Line | l.head.Space? || (l.head.OtherHead? && l.token.OtherWord?) witness OTHER

  /** What is to be reported of a file: one that is renamed is deleted under the old name and
      added under the new one, with the lines changed on the way. */
  function Report(f: File): seq<ChangeInfo> {
    var s := Flatten([], f.hunks);
    match f.mode
    case Created => [ChangeInfo(Added, f.post, [], InsertedLines(s))]
    case Removed => [ChangeInfo(Deleted, f.pre, [], [])]
    case Changed | Executable =>
      if f.pre == f.post then [ChangeInfo(Modified, f.post, DeletedLines(s), InsertedLines(s))]
      else [ChangeInfo(Deleted, f.pre, [], []), ChangeInfo(Added, f.post, DeletedLines(s), InsertedLines(s))]
  }

  function Reports(files: seq<File>): seq<ChangeInfo> {
    if files == [] then [] else Report(files[0]) + Reports(files[1..])
  }

  // ---- What the reader makes of them ----

  /** A file whose mode has changed reads as one that was created. */
  function Misread(f: File): File {
    if f.mode.Executable? then FileDiff(f.post, f.post, Created, f.extra, f.hunks) else f
  }

  /** The files with hunks, and the last file in any case, as they are read. */
  function Seen(files: seq<File>): seq<File> {
    if files == [] then []
    else if files[0].hunks == [] && |files| > 1 then Seen(files[1..])
    else [Misread(files[0])] + Seen(files[1..])
  }

  predicate Plain(f: File) {
    NoBlank(f.pre) && NoBlank(f.post)
  }

  predicate AllPlain(files: seq<File>) {
    forall i | 0 <= i < |files| :: Plain(files[i])
  }

  /** The scanner for the paths stops at the line, or fails. */
  predicate Stops(l: Line) {
    l.token.HunkMark? || (l.token.DiffWord? && |l.token.words| < 3)
  }

  predicate Readable(message: seq<MessageLine>) {
    forall i | 0 <= i < |message| :: !Stops(message[i])
  }

  /** The paths read in a file's header. */
  function PathsOf(f: File): Paths {
    match f.mode
    case Changed => (Some(f.pre), Some(f.post))
    case Removed => (Some(f.pre), Some(""))
    case _ => (Some(""), Some(f.post))
  }

  lemma {:induction false} SkipMessage(message: seq<MessageLine>, more: seq<Line>, paths: Paths) returns (paths': Paths)
    requires Readable(message)
    ensures ReadPaths(message + more, paths) == ReadPaths(more, paths')
  {
    if message == [] {
      assert message + more == more;
      paths' := paths;
    } else {
      assert (message + more)[1..] == message[1..] + more;
      assert !Stops(message[0]);
      assert forall i | 0 <= i < |message| - 1 :: message[1..][i] == message[i + 1];
      paths' := SkipMessage(message[1..], more, Update(message[0].token, paths));
    }
  }

  lemma {:induction false} SkipOthers(n: nat, more: seq<Line>, paths: Paths)
    ensures ReadPaths(Others(n) + more, paths) == ReadPaths(more, paths)
  {
    if n == 0 {
      assert Others(0) + more == more;
    } else {
      var lines := Others(n) + more;
      assert lines[0] == OTHER && lines[1..] == Others(n - 1) + more;
      SkipOthers(n - 1, more, paths);
    }
  }

  lemma HeaderPaths(f: File)
    requires Plain(f)
    ensures var t := Header(f.pre, f.post).token;
            |t.words| == 3 && WithoutPrefix(t.words[1]) == f.pre && WithoutPrefix(t.words[2]) == f.post
  {
    TwoWords("a/" + f.pre, "b/" + f.post);
    assert "a/" + f.pre + " b/" + f.post == ("a/" + f.pre) + " " + ("b/" + f.post);
    assert ("a/" + f.pre)[2..] == f.pre && ("b/" + f.post)[2..] == f.post;
  }

  lemma ReadOne(l: Line, more: seq<Line>, paths: Paths)
    requires !Stops(l)
    ensures ReadPaths([l] + more, paths) == ReadPaths(more, Update(l.token, paths))
  {
    assert ([l] + more)[1..] == more;
  }

  lemma ReadMode(f: File, more: seq<Line>)
    ensures ReadPaths(ModeLines(f.mode) + more, (Some(f.pre), Some(f.post))) == ReadPaths(more, PathsOf(f))
  {
    var paths := (Some(f.pre), Some(f.post));
    match f.mode {
      case Changed => assert ModeLines(f.mode) + more == more;
      case Executable =>
        var mode := Line(NewWord, OtherHead);
        assert ModeLines(f.mode) + more == [OTHER] + ([mode] + more);
        ReadOne(OTHER, [mode] + more, paths);
        ReadOne(mode, more, paths);
      case Created => ReadOne(Line(NewWord, OtherHead), more, paths);
      case Removed => ReadOne(Line(DeletedWord, OtherHead), more, paths);
    }
  }

  lemma ReadMarks(marked: bool, more: seq<Line>, paths: Paths)
    ensures ReadPaths((if marked then MARKS else []) + more, paths) == ReadPaths(more, paths)
  {
    if marked {
      assert MARKS + more == [MARKS[0]] + ([MARKS[1]] + more);
      ReadOne(MARKS[0], [MARKS[1]] + more, paths);
      ReadOne(MARKS[1], more, paths);
    } else {
      assert [] + more == more;
    }
  }

  /** Whatever paths were read before, a file's header replaces them. */
  lemma ReadHead(f: File, more: seq<Line>, paths: Paths)
    requires Plain(f)
    ensures ReadPaths(PrintHead(f) + more, paths) == ReadPaths(more, PathsOf(f))
  {
    var marks := if f.hunks == [] then [] else MARKS;
    var others := Others(f.extra);
    HeaderPaths(f);
    var l := Header(f.pre, f.post);
    ReadOne(l, ModeLines(f.mode) + (others + (marks + more)), paths);
    ReadMode(f, others + (marks + more));
    SkipOthers(f.extra, marks + more, PathsOf(f));
    ReadMarks(f.hunks != [], more, PathsOf(f));
    hide *;
    Regroup(others, marks, more);
    Regroup(ModeLines(f.mode), others + marks, more);
    Regroup([l], ModeLines(f.mode) + (others + marks), more);
    HeadParts(f);
  }

  lemma HeadParts(f: File)
    ensures PrintHead(f) ==
            [Header(f.pre, f.post)] + (ModeLines(f.mode) + (Others(f.extra) + if f.hunks == [] then [] else MARKS))
  {
  }

  lemma HunksStart(hunks: seq<Hunk>)
    requires hunks != []
    ensures PrintHunks([], hunks) != [] && PrintHunks([], hunks)[0].token == HunkMark
  {
    assert PrintHunk([], hunks[0])[0].token == HunkMark;
  }

  /** The part of a file that has hunks, or that nothing follows, is read whole. */
  lemma ReadOneFile(f: File, more: seq<Line>, paths: Paths)
    requires Plain(f) && (more == [] || (f.hunks != [] && more[0].head.DiffHead?))
    ensures var s := Flatten([], f.hunks); var body := PrintHunks([], f.hunks) + more;
            && ReadPaths(PrintHead(f) + body, paths) == PathsRead(PathsOf(f), body)
            && ReadChanges(body, None, [], []) == Changes(DeletedLines(s), InsertedLines(s), more)
  {
    var body := PrintHunks([], f.hunks) + more;
    ReadHead(f, body, paths);
    ReadHunks([], f.hunks, None, more);
    if f.hunks != [] {
      HunksStart(f.hunks);
    } else {
      NoHunks();
    }
    hide PrintHead, ReadChanges, Flatten, PrintHunks;
  }

  lemma NoHunks()
    ensures PrintHunks([], []) == []
  {
  }

  lemma FilesStart(files: seq<File>)
    ensures files != [] ==> PrintFiles(files) != [] && PrintFiles(files)[0].head.DiffHead?
  {
  }

  lemma FirstFile(files: seq<File>)
    requires files != []
    ensures PrintFiles(files) == PrintHead(files[0]) + (PrintHunks([], files[0].hunks) + PrintFiles(files[1..]))
    ensures AllPlain(files) ==> Plain(files[0]) && AllPlain(files[1..])
  {
  }

  lemma PassOver(f: File, more: seq<Line>, paths: Paths)
    requires Plain(f) && f.hunks == []
    ensures ReadPaths(PrintHead(f) + (PrintHunks([], f.hunks) + more), paths) == ReadPaths(more, PathsOf(f))
  {
    ReadHead(f, more, paths);
    NoHunks();
    assert [] + more == more;
  }

  /** A file without hunks is passed over, unless it is the last. */
  lemma {:induction false} ReadFiles(files: seq<File>, paths: Paths, lines: seq<Line>, sofar: seq<ChangeInfo>)
    requires files != [] && ReadPaths(lines, (None, None)) == ReadPaths(PrintFiles(files), paths)
    requires AllPlain(files)
    ensures ReadInfos(lines, sofar) == Infos(sofar + Reports(Seen(files)))
    decreases |files|
  {
    var f, rest := files[0], files[1..];
    var more := PrintFiles(rest);
    FirstFile(files);
    FilesStart(rest);
    if f.hunks == [] && |files| > 1 {
      assert Seen(files) == Seen(rest);
      hide *;
      PassOver(f, more, paths);
      ReadFiles(rest, PathsOf(f), lines, sofar);
    } else {
      SeenFirst(files);
      hide *;
      ReadOneFile(f, more, paths);
      var after := sofar + Report(Misread(f));
      InfosStep(f, lines, PrintHunks([], f.hunks) + more, more, sofar);
      if rest == [] {
        NoFiles();
        InfosEnd(after);
      } else {
        ReadFiles(rest, (None, None), more, after);
      }
      Regroup(sofar, Report(Misread(f)), Reports(Seen(rest)));
    }
  }

  lemma NoFiles()
    ensures PrintFiles([]) == [] && Reports(Seen([])) == []
  {
  }

  lemma InfosStep(f: File, lines: seq<Line>, body: seq<Line>, more: seq<Line>, sofar: seq<ChangeInfo>)
    requires ReadPaths(lines, (None, None)) == PathsRead(PathsOf(f), body)
    requires var s := Flatten([], f.hunks); ReadChanges(body, None, [], []) == Changes(DeletedLines(s), InsertedLines(s), more)
    ensures ReadInfos(lines, sofar) == ReadInfos(more, sofar + Report(Misread(f)))
  {
  }

  lemma InfosEnd(sofar: seq<ChangeInfo>)
    ensures ReadInfos([], sofar) == Infos(sofar)
  {
  }

  lemma SeenFirst(files: seq<File>)
    requires files != [] && (files[0].hunks != [] || |files| == 1)
    ensures Reports(Seen(files)) == Report(Misread(files[0])) + Reports(Seen(files[1..]))
  {
    assert Seen(files)[1..] == Seen(files[1..]);
  }

  /** After a message that the scanner passes over, the files reported are those with hunks, and
      the last one; a changed mode makes a file a new one. */
  lemma CommitRead(message: seq<MessageLine>, files: seq<File>)
    requires files != [] && Readable(message) && AllPlain(files)
    ensures ReadInfos(message + PrintFiles(files), []) == Infos(Reports(Seen(files)))
  {
    var paths := SkipMessage(message, PrintFiles(files), (None, None));
    ReadFiles(files, paths, message + PrintFiles(files), []);
    assert [] + Reports(Seen(files)) == Reports(Seen(files));
  }

  // ---- When that is right ----

  /** Modified files weigh more than added or deleted ones. */
  function Weight(infos: seq<ChangeInfo>): nat {
    if infos == [] then 0 else (if infos[0].state.Modified? then 2 else 1) + Weight(infos[1..])
  }

  lemma {:induction false} WeightAppend(a: seq<ChangeInfo>, b: seq<ChangeInfo>)
    ensures Weight(a + b) == Weight(a) + Weight(b)
  {
    if a == [] {
      assert a + b == b;
    } else {
      assert (a + b)[1..] == a[1..] + b;
      WeightAppend(a[1..], b);
    }
  }

  lemma MisreadWeight(f: File)
    ensures Weight(Report(f)) > 0 && (f.mode.Executable? ==> Weight(Report(Misread(f))) < Weight(Report(f)))
  {
    hide Flatten, DeletedLines, InsertedLines;
  }

  /** The file is read as it is, once the scanner gets to it. */
  predicate SeenRight(files: seq<File>, i: nat)
    requires i < |files|
  {
    !files[i].mode.Executable? && (i < |files| - 1 ==> files[i].hunks != [])
  }

  predicate AllSeenRight(files: seq<File>) {
    forall i | 0 <= i < |files| :: SeenRight(files, i)
  }

  lemma FirstSeenRight(files: seq<File>)
    requires files != []
    ensures AllSeenRight(files) <==> SeenRight(files, 0) && AllSeenRight(files[1..])
  {
    assert forall i | 0 <= i < |files| - 1 :: SeenRight(files[1..], i) == SeenRight(files, i + 1);
    assert forall i | 0 < i < |files| :: SeenRight(files, i) == SeenRight(files[1..], i - 1);
  }

  lemma {:induction false} SeenWeight(files: seq<File>)
    ensures Weight(Reports(Seen(files))) <= Weight(Reports(files))
    ensures if AllSeenRight(files) then Seen(files) == files else Weight(Reports(Seen(files))) < Weight(Reports(files))
  {
    if files != [] {
      var f, more := files[0], files[1..];
      SeenWeight(more);
      FirstSeenRight(files);
      MisreadWeight(f);
      WeightAppend(Report(f), Reports(more));
      if f.hunks != [] || |files| == 1 {
        SeenFirst(files);
        WeightAppend(Report(Misread(f)), Reports(Seen(more)));
      }
      hide Report, Weight, AllSeenRight;
    }
  }

  /** No path that is read has a blank. */
  ghost predicate BlankFree(infos: seq<ChangeInfo>) {
    forall i | 0 <= i < |infos| :: NoBlank(infos[i].path)
  }

  predicate PathFree(path: Option<string>) {
    path.Some? ==> NoBlank(path.value)
  }

  lemma {:induction false} PathsBlankFree(lines: seq<Line>, paths: Paths)
    requires PathFree(paths.0) && PathFree(paths.1)
    ensures var r := ReadPaths(lines, paths); r.PathsRead? ==> PathFree(r.paths.0) && PathFree(r.paths.1)
    decreases |lines|
  {
    if lines != [] && !Stops(lines[0]) {
      PathsBlankFree(lines[1..], Update(lines[0].token, paths));
    }
  }

  lemma DescribeBlankFree(pre: Option<string>, post: Option<string>, del: seq<int>, add: seq<int>)
    requires PathFree(pre) && PathFree(post) && (!Missing(pre) || !Missing(post))
    ensures BlankFree(Describe(pre, post, del, add))
  {
  }

  lemma {:induction false} InfosBlankFree(lines: seq<Line>, sofar: seq<ChangeInfo>)
    requires BlankFree(sofar)
    ensures var r := ReadInfos(lines, sofar); r.Infos? ==> BlankFree(r.infos)
    decreases |lines|
  {
    PathsShrink(lines, (None, None));
    PathsBlankFree(lines, (None, None));
    var read := ReadPaths(lines, (None, None));
    if read.PathsRead? && (!Missing(read.paths.0) || !Missing(read.paths.1)) {
      ChangesShrink(read.rest, None, [], []);
      var c := ReadChanges(read.rest, None, [], []);
      if c.Changes? {
        DescribeBlankFree(read.paths.0, read.paths.1, c.del, c.add);
        InfosBlankFree(c.rest, sofar + Describe(read.paths.0, read.paths.1, c.del, c.add));
      }
    }
  }

  lemma {:induction false} BlankReported(files: seq<File>, i: nat)
    requires i < |files| && !Plain(files[i])
    ensures !BlankFree(Reports(files))
  {
    var first, more := Report(files[0]), Reports(files[1..]);
    if i == 0 {
      var k :| 0 <= k < |first| && !NoBlank(first[k].path);
      assert !NoBlank((first + more)[k].path);
    } else {
      BlankReported(files[1..], i - 1);
      var k :| 0 <= k < |more| && !NoBlank(more[k].path);
      assert !NoBlank((first + more)[|first| + k].path);
    }
  }

  /** A message line at which the scanner stops ends it, or makes it fail. */
  lemma {:induction false} ReadUnreadable(message: seq<MessageLine>, more: seq<Line>, paths: Paths)
    requires !Readable(message)
    ensures var r := ReadPaths(message + more, paths); r.PathsRead? ==> r.rest != [] && r.rest[0].head.Space?
    decreases |message|
  {
    if !Stops(message[0]) {
      assert (message + more)[1..] == message[1..] + more;
      var i :| 0 <= i < |message| && Stops(message[i]);
      assert Stops(message[1..][i - 1]);
      ReadUnreadable(message[1..], more, Update(message[0].token, paths));
    }
  }

  lemma UnreadableFails(message: seq<MessageLine>, more: seq<Line>)
    requires !Readable(message)
    ensures var r := ReadInfos(message + more, []); r == Failed || r == Infos([])
  {
    ReadUnreadable(message, more, (None, None));
  }

  /** Every file is reported as it is exactly if no line of the message starts with `@@`, nor
      with a `diff` that fewer than three words follow, no path has a blank, no mode has changed
      and every file but the last has a hunk. */
  lemma AllReportedIff(message: seq<MessageLine>, files: seq<File>)
    requires files != []
    ensures ReadInfos(message + PrintFiles(files), []) == Infos(Reports(files))
       <==> Readable(message) && forall i | 0 <= i < |files| :: Plain(files[i]) && SeenRight(files, i)
  {
    MisreadWeight(files[0]);
    WeightAppend(Report(files[0]), Reports(files[1..]));
    if !Readable(message) {
      UnreadableFails(message, PrintFiles(files));
    } else if i :| 0 <= i < |files| && !Plain(files[i]) {
      InfosBlankFree(message + PrintFiles(files), []);
      BlankReported(files, i);
    } else {
      CommitRead(message, files);
      SeenWeight(files);
    }
  }

  // ---- Commits without files ----

  function PathsAfter(lines: seq<MessageLine>): Paths
    requires Readable(lines)
  {
    if lines == [] then (None, None) else Update(lines[|lines| - 1].token, PathsAfter(lines[..|lines| - 1]))
  }

  /** A later line replaces or empties the path. */
  ghost predicate Closed(lines: seq<MessageLine>, d: nat, closing: Token) {
    exists e :: d < e < |lines| && (lines[e].token.DiffWord? || lines[e].token == closing)
  }

  lemma ClosedByLast(lines: seq<MessageLine>, d: nat, closing: Token)
    requires d < |lines|
    ensures var n := |lines| - 1;
            Closed(lines, d, closing)
            <==> d < n && (Closed(lines[..n], d, closing) || lines[n].token.DiffWord? || lines[n].token == closing)
  {
    var n := |lines| - 1;
    if Closed(lines, d, closing) {
      var e :| d < e < |lines| && (lines[e].token.DiffWord? || lines[e].token == closing);
      if e < n { assert lines[..n][e] == lines[e]; }
    }
    if d < n && Closed(lines[..n], d, closing) {
      var e :| d < e < n && (lines[..n][e].token.DiffWord? || lines[..n][e].token == closing);
      assert lines[e] == lines[..n][e];
    }
  }

  /** The side of a path: where it stands in a `diff` line, and which line empties it. */
  datatype Side = Pre | Post

  function PathAt(paths: Paths, side: Side): Option<string> {
    if side.Pre? then paths.0 else paths.1
  }

  function WordAt(words: seq<Word>, side: Side): string
    requires |words| >= 3
  {
    if side.Pre? then words[1] else words[2]
  }

  function Closing(side: Side): Token {
    if side.Pre? then NewWord else DeletedWord
  }

  ghost predicate SideClosed(lines: seq<MessageLine>, side: Side, d: nat)
    requires d < |lines| && Readable(lines)
  {
    lines[d].token.DiffWord? ==> Closed(lines, d, Closing(side)) || WithoutPrefix(WordAt(lines[d].token.words, side)) == ""
  }

  /** No path is left of those in `diff` lines. */
  ghost predicate NothingOpen(lines: seq<MessageLine>)
    requires Readable(lines)
  {
    forall d, side | 0 <= d < |lines| :: SideClosed(lines, side, d)
  }

  lemma {:induction false} MissingIffClosed(lines: seq<MessageLine>, side: Side)
    requires Readable(lines)
    ensures Missing(PathAt(PathsAfter(lines), side)) <==> forall d | 0 <= d < |lines| :: SideClosed(lines, side, d)
  {
    if lines != [] {
      var n := |lines| - 1;
      MissingIffClosed(lines[..n], side);
      assert !Stops(lines[n]);
      forall d | 0 <= d < n
        ensures SideClosed(lines, side, d)
           <==> SideClosed(lines[..n], side, d) || lines[n].token.DiffWord? || lines[n].token == Closing(side)
      {
        ClosedByLast(lines, d, Closing(side));
      }
      ClosedByLast(lines, n, Closing(side));
      assert SideClosed(lines, side, n)
        <==> (lines[n].token.DiffWord? ==> WithoutPrefix(WordAt(lines[n].token.words, side)) == "");
      hide SideClosed, Closed;
    }
  }

  /** The first line at which the scanner stops, or the end. */
  function FirstStop(message: seq<MessageLine>): (h: nat)
    ensures h <= |message| && Readable(message[..h]) && (h < |message| ==> Stops(message[h]))
  {
    if message == [] || Stops(message[0]) then 0
    else
      var h := 1 + FirstStop(message[1..]);
      assert forall i | 1 <= i < h :: message[..h][i] == message[1..][..h - 1][i - 1];
      h
  }

  lemma {:induction false} ReadUpTo(message: seq<MessageLine>, k: nat)
    requires k <= |message| && Readable(message[..k])
    ensures ReadPaths(message, (None, None)) == ReadPaths(message[k..], PathsAfter(message[..k]))
  {
    if k == 0 {
      assert message[0..] == message && message[..0] == [];
    } else {
      var m := message[..k];
      assert m[..k - 1] == message[..k - 1] && m[k - 1] == message[k - 1] && !Stops(m[k - 1]);
      assert forall i | 0 <= i < k - 1 :: m[..k - 1][i] == m[i];
      ReadUpTo(message, k - 1);
      assert message[k - 1..] == [message[k - 1]] + message[k..];
      ReadOne(message[k - 1], message[k..], PathsAfter(message[..k - 1]));
    }
  }

  /** A commit without files is reported as one exactly if, in its message up to the first line
      that starts with `@@`, every `diff` is followed by three words or more, and every path in a
      `diff` line is replaced or emptied again. */
  lemma NothingReportedIff(message: seq<MessageLine>)
    ensures var h := FirstStop(message);
            (ReadInfos(message, []) == Infos([])
             <==> (h < |message| ==> message[h].token.HunkMark?) && NothingOpen(message[..h]))
  {
    var h := FirstStop(message);
    ReadUpTo(message, h);
    OpenIffMissing(message[..h]);
    ReadFromStop(message, h);
    hide *;
  }

  lemma ReadFromStop(message: seq<MessageLine>, h: nat)
    requires h <= |message| && Readable(message[..h]) && (h < |message| ==> Stops(message[h]))
    requires ReadPaths(message, (None, None)) == ReadPaths(message[h..], PathsAfter(message[..h]))
    ensures var paths := PathsAfter(message[..h]);
            (ReadInfos(message, []) == Infos([])
             <==> (h < |message| ==> message[h].token.HunkMark?) && Missing(paths.0) && Missing(paths.1))
  {
    var paths := PathsAfter(message[..h]);
    hide PathsAfter;
    if h < |message| && !message[h].token.HunkMark? {
      assert ReadPaths(message[h..], paths) == NoSuchWord;
    } else {
      assert ReadPaths(message[h..], paths) == PathsRead(paths, message[h..]);
      hide ReadPaths;
      Stopped(message, paths, message[h..]);
    }
  }

  lemma Stopped(lines: seq<Line>, paths: Paths, rest: seq<Line>)
    requires ReadPaths(lines, (None, None)) == PathsRead(paths, rest) && (rest == [] || rest[0].head.Space?)
    ensures ReadInfos(lines, []) == Infos([]) <==> Missing(paths.0) && Missing(paths.1)
  {
    if rest == [] && (!Missing(paths.0) || !Missing(paths.1)) {
      InfosEnd(Describe(paths.0, paths.1, [], []));
    }
  }

  lemma OpenIffMissing(lines: seq<MessageLine>)
    requires Readable(lines)
    ensures NothingOpen(lines) <==> Missing(PathsAfter(lines).0) && Missing(PathsAfter(lines).1)
  {
    MissingIffClosed(lines, Pre);
    MissingIffClosed(lines, Post);
    forall side ensures PathAt(PathsAfter(lines), side) == if side.Pre? then PathsAfter(lines).0 else PathsAfter(lines).1 {
    }
    hide SideClosed, PathsAfter, Missing;
  }

  // ---- Commits misread ----

  /** One line replaced. */
  const EDIT := [Hunk(0, [Delete, Insert], map[], {})]

  lemma EditLines()
    ensures DeletedLines(Flatten([], EDIT)) == [1] && InsertedLines(Flatten([], EDIT)) == [1]
  {
    assert [] + Keeps(0) + [Delete, Insert] == [Delete, Insert];
    assert [Delete, Insert][..1] == [Delete] && [Delete][..0] == [];
  }

  const SCRIPT: File := FileDiff("run.sh", "run.sh", Executable, 1, EDIT)
  const RENAMED: File := FileDiff("a.c", "b.c", Changed, 3, EDIT)
  const EMPTY_FILE: File := FileDiff("a.h", "a.h", Created, 1, [])
  const EDITED: File := FileDiff("b.c", "b.c", Changed, 1, EDIT)

  lemma SeenScript()
    ensures Reports(Seen([SCRIPT])) == [ChangeInfo(Added, "run.sh", [], [1])]
    ensures Reports([SCRIPT]) == [ChangeInfo(Modified, "run.sh", [1], [1])]
  {
    EditLines();
    SeenFirst([SCRIPT]);
    assert Reports([]) == [] && Reports(Seen([])) == [];
    hide Flatten;
  }

  lemma SeenEdited()
    ensures Reports(Seen([EMPTY_FILE, EDITED])) == [ChangeInfo(Modified, "b.c", [1], [1])]
  {
    EditLines();
    assert Seen([EMPTY_FILE, EDITED]) == Seen([EMPTY_FILE, EDITED][1..]);
    assert [EMPTY_FILE, EDITED][1..] == [EDITED];
    SeenFirst([EDITED]);
    assert Reports(Seen([])) == [];
    hide Flatten;
  }

  /** A script that was edited and made executable is reported as new, without its deleted line. */
  lemma ModeChangeMisread()
    ensures ReadInfos([] + PrintFiles([SCRIPT]), []) == Infos([ChangeInfo(Added, "run.sh", [], [1])])
    ensures Reports([SCRIPT]) == [ChangeInfo(Modified, "run.sh", [1], [1])]
  {
    SeenScript();
    assert AllPlain([SCRIPT]);
    hide ReadInfos, PrintFiles, Seen, Reports;
    CommitRead([], [SCRIPT]);
  }

  /** An empty file in front of an edited one is not reported. */
  lemma EmptyFileMissed()
    ensures ReadInfos([] + PrintFiles([EMPTY_FILE, EDITED]), []) == Infos([ChangeInfo(Modified, "b.c", [1], [1])])
  {
    SeenEdited();
    assert AllPlain([EMPTY_FILE, EDITED]);
    hide ReadInfos, PrintFiles, Seen, Reports;
    CommitRead([], [EMPTY_FILE, EDITED]);
  }

  /** A file that was renamed and edited is reported under both names. */
  lemma RenamedReported()
    ensures ReadInfos([] + PrintFiles([RENAMED]), []) ==
            Infos([ChangeInfo(Deleted, "a.c", [], []), ChangeInfo(Added, "b.c", [1], [1])])
  {
    SeenRenamed();
    assert AllPlain([RENAMED]);
    hide ReadInfos, PrintFiles, Seen, Reports;
    CommitRead([], [RENAMED]);
  }

  lemma SeenRenamed()
    ensures Reports(Seen([RENAMED])) == [ChangeInfo(Deleted, "a.c", [], []), ChangeInfo(Added, "b.c", [1], [1])]
  {
    EditLines();
    SeenFirst([RENAMED]);
    assert Reports(Seen([])) == [];
    hide Flatten;
  }

  /** An indented hunk header in the message hides all files. */
  lemma QuotedHunkHidesAll(files: seq<File>)
    ensures ReadInfos([Line(HunkMark, Space)] + PrintFiles(files), []) == Infos([])
  {
  }

  /** So does a message line with too few words after `diff`, by an exception. */
  lemma ShortHeaderFails(words: seq<Word>, files: seq<File>)
    requires |words| < 3
    ensures ReadInfos([Line(DiffWord(words), Space)] + PrintFiles(files), []) == Failed
  {
  }

  /** A quoted `diff` line in the message of a commit without files is reported as a file. */
  lemma QuotedHeaderReported()
    ensures ReadInfos([Line(DiffWord(["--git", "a/x", "b/x"]), Space)], []) == Infos([ChangeInfo(Modified, "x", [], [])])
  {
    var words: seq<Word> := ["--git", "a/x", "b/x"];
    ReadOne(Line(DiffWord(words), Space), [], (None, None));
    assert WithoutPrefix("a/x") == "x" && WithoutPrefix("b/x") == "x";
    InfosEnd(Describe(Some("x"), Some("x"), [], []));
  }

  /** The pieces of a path with a blank are read as two paths: `my file` as `my` and `le`. */
  lemma BlankMisread(w: string, v: string)
    requires w != "" && v != "" && NoBlank(w) && NoBlank(v)
    ensures var path := w + " " + v;
            ReadInfos(PrintFiles([FileDiff(path, path, Changed, 0, [])]), []) ==
            Infos(Describe(Some(w), Some(WithoutPrefix(v)), [], []))
  {
    var path := w + " " + v;
    var f: File := FileDiff(path, path, Changed, 0, []);
    var l := Header(path, path);
    BlankWords(w, v);
    NothingElse(f, l);
    assert l.token.words[1] == "a/" + w && ("a/" + w)[2..] == w;
    hide Words, WithoutPrefix;
    ReadOne(l, [], (None, None));
    InfosEnd(Describe(Some(w), Some(WithoutPrefix(v)), [], []));
  }

  lemma NothingElse(f: File, l: Line)
    requires l == Header(f.pre, f.post) && f.mode.Changed? && f.extra == 0 && f.hunks == []
    ensures PrintFiles([f]) == [l] + []
  {
    assert Others(0) == [];
    hide Header;
  }

  lemma BlankWords(w: string, v: string)
    requires w != "" && v != "" && NoBlank(w) && NoBlank(v)
    ensures Words("a/" + (w + " " + v) + " b/" + (w + " " + v)) == ["a/" + w, v, "b/" + w, v]
  {
    assert NoBlank("a/") && NoBlank("b/");
    NoBlankJoined("a/", w);
    NoBlankJoined("b/", w);
    assert " b/" == " " + "b/";
    hide *;
    FourWords("a/", "b/", w, v, "a/" + w, "b/" + w);
  }

  lemma NoBlankJoined(a: string, b: string)
    requires NoBlank(a) && NoBlank(b)
    ensures NoBlank(a + b)
  {
  }

  lemma FourWords(a: string, b: string, w: string, v: string, aw: string, bw: string)
    requires aw == a + w && bw == b + w && aw != "" && bw != "" && v != "" && NoBlank(aw) && NoBlank(bw) && NoBlank(v)
    ensures Words(a + (w + " " + v) + (" " + b) + (w + " " + v)) == [aw, v, bw, v]
  {
    var second := bw + " " + v;
    var first := v + (" " + second);
    assert a + (w + " " + v) + (" " + b) + (w + " " + v) == aw + (" " + first);
    hide NoBlank;
    OneWord(aw, " " + first);
    AfterBlank(first);
    OneWord(v, " " + second);
    AfterBlank(second);
    TwoWords(bw, v);
  }

  lemma AfterBlank(s: string)
    ensures Words(" " + s) == Words(s)
  {
    assert (" " + s)[1..] == s;
  }
}
