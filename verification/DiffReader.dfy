/** The reader of `git show` output. */
module DiffReader {
  import opened Options
  import opened UnifiedDiff

  // ---- Changed lines ----

  /** What `_GetChangedLinesPair` returns and what it leaves of the lines; `Raised` for a
      header that does not match or a changed line before any header. */
  datatype Changes = Changes(del: seq<int>, add: seq<int>, rest: seq<Line>) | Raised

  function ReadChanges(lines: seq<Line>, cur: Option<(int, int)>, del: seq<int>, add: seq<int>): Changes
    decreases |lines|
  {
    if lines == [] then Changes(del, add, [])
    else
      match lines[0].head
      case At(starts) => if starts.None? then Raised else ReadChanges(lines[1..], Some(starts.value), del, add)
      case MinusSign => if cur.None? then Raised else ReadChanges(lines[1..], Some((cur.value.0 + 1, cur.value.1)), del + [cur.value.0], add)
      case PlusSign => if cur.None? then Raised else ReadChanges(lines[1..], Some((cur.value.0, cur.value.1 + 1)), del, add + [cur.value.1])
      case Space => if cur.None? then Raised else ReadChanges(lines[1..], Some((cur.value.0 + 1, cur.value.1 + 1)), del, add)
      case DiffHead => Changes(del, add, lines)
      case OtherHead => ReadChanges(lines[1..], cur, del, add)
  }

  // ---- The printed hunks, read back ----

  /** The counters stand at the line after `s`, on the sides that the hunk still has. */
  predicate StandsAt(cur: (int, int), s: Script, rest: Script) {
    && (Old(rest) > 0 ==> cur.0 == Old(s) + 1)
    && (New(rest) > 0 ==> cur.1 == New(s) + 1)
  }

  lemma {:induction false} OldNewSplit(s: Script, t: Script)
    ensures Old(s + t) == Old(s) + Old(t) && New(s + t) == New(s) + New(t)
  {
    if t == [] {
      assert s + t == s;
    } else {
      var n := |t| - 1;
      OldNewSplit(s, t[..n]);
      assert s + t == (s + t[..n]) + [t[n]];
      assert t == t[..n] + [t[n]];
      OneMore(s + t[..n], t[n]);
      OneMore(t[..n], t[n]);
    }
  }

  /** The printed lines from the `k`th operation on. */
  function PrintFrom(h: Hunk, k: nat): seq<Line>
    requires k <= |h.ops|
    decreases |h.ops| - k
  {
    if k == |h.ops| then [] else PrintAt(h, k) + PrintFrom(h, k + 1)
  }

  lemma {:induction false} PrintSplit(h: Hunk, k: nat)
    requires k <= |h.ops|
    ensures PrintOps(h, |h.ops|) == PrintOps(h, k) + PrintFrom(h, k)
    decreases |h.ops| - k
  {
    if k < |h.ops| {
      PrintSplit(h, k + 1);
      Regroup(PrintOps(h, k), PrintAt(h, k), PrintFrom(h, k + 1));
    }
  }

  function Advance(cur: (int, int), op: Op): (int, int) {
    match op
    case Keep => (cur.0 + 1, cur.1 + 1)
    case Delete => (cur.0 + 1, cur.1)
    case Insert => (cur.0, cur.1 + 1)
  }

  /** Reading the line of one operation, after the lines of `s`. */
  lemma ReadOp(s: Script, op: Op, token: Token, cur: (int, int), more: seq<Line>)
    requires (op.Insert? || cur.0 == Old(s) + 1) && (op.Delete? || cur.1 == New(s) + 1)
    ensures ReadChanges([PrintOp(op, token)] + more, Some(cur), DeletedLines(s), InsertedLines(s)) ==
            ReadChanges(more, Some(Advance(cur, op)), DeletedLines(s + [op]), InsertedLines(s + [op]))
  {
    OneMore(s, op);
    var lines := [PrintOp(op, token)] + more;
    assert lines[1..] == more;
    assert DeletedLines(s) + [] == DeletedLines(s) && InsertedLines(s) + [] == InsertedLines(s);
  }

  lemma ReadNote(noted: bool, cur: Option<(int, int)>, del: seq<int>, add: seq<int>, more: seq<Line>)
    ensures ReadChanges((if noted then [OTHER] else []) + more, cur, del, add) == ReadChanges(more, cur, del, add)
  {
    if noted {
      assert ([OTHER] + more)[1..] == more;
    } else {
      assert [] + more == more;
    }
  }

  lemma AtStep(cur: (int, int), s: Script, ops: Script, k: nat)
    requires k < |ops| && StandsAt(cur, s + ops[..k], ops[k..])
    ensures ops[k].Insert? || cur.0 == Old(s + ops[..k]) + 1
    ensures ops[k].Delete? || cur.1 == New(s + ops[..k]) + 1
    ensures StandsAt(Advance(cur, ops[k]), s + ops[..k + 1], ops[k + 1..])
    ensures s + ops[..k + 1] == s + ops[..k] + [ops[k]]
  {
    var op, before := ops[k], s + ops[..k];
    assert ops[k..] == [op] + ops[k + 1..];
    OldNewSplit([op], ops[k + 1..]);
    OneMore([], op);
    assert [] + [op] == [op];
    assert s + ops[..k + 1] == before + [op];
    OneMore(before, op);
  }

  /** Reading the lines of a hunk from the `k`th operation on, after the lines of `s`. */
  lemma {:induction false} ReadOps(s: Script, h: Hunk, k: nat, cur: (int, int), rest: seq<Line>) returns (last: (int, int))
    requires k <= |h.ops| && StandsAt(cur, s + h.ops[..k], h.ops[k..])
    ensures ReadChanges(PrintFrom(h, k) + rest, Some(cur), DeletedLines(s + h.ops[..k]), InsertedLines(s + h.ops[..k])) ==
            ReadChanges(rest, Some(last), DeletedLines(s + h.ops), InsertedLines(s + h.ops))
    decreases |h.ops| - k
  {
    hide ReadChanges, StandsAt, DeletedLines, InsertedLines, Old, New, PrintOp, Advance;
    if k == |h.ops| {
      assert PrintFrom(h, k) + rest == rest && h.ops[..k] == h.ops;
      last := cur;
    } else {
      var op, before := h.ops[k], s + h.ops[..k];
      AtStep(cur, s, h.ops, k);
      var tail := PrintFrom(h, k + 1) + rest;
      var note := if k in h.noted then [OTHER] else [];
      var token := if k in h.words then h.words[k] else OtherWord;
      assert PrintFrom(h, k) + rest == [PrintOp(op, token)] + (note + tail);
      ReadOp(before, op, token, cur, note + tail);
      var cur' := Advance(cur, op);
      ReadNote(k in h.noted, Some(cur'), DeletedLines(before + [op]), InsertedLines(before + [op]), tail);
      last := ReadOps(s, h, k + 1, cur', rest);
    }
  }

  /** Reading one hunk, after the lines of `done`. */
  lemma ReadHunk(done: Script, h: Hunk, cur: Option<(int, int)>, more: seq<Line>) returns (last: (int, int))
    ensures ReadChanges(PrintHunk(done, h) + more, cur, DeletedLines(done), InsertedLines(done)) ==
            ReadChanges(more, Some(last), DeletedLines(done + Keeps(h.gap) + h.ops), InsertedLines(done + Keeps(h.gap) + h.ops))
  {
    var before := done + Keeps(h.gap);
    SkipKeeps(done, h.gap);
    var starts := (Start(Old(before), Old(h.ops)), Start(New(before), New(h.ops)));
    var lines := PrintHunk(done, h) + more;
    PrintSplit(h, 0);
    assert lines[0].head == At(Some(starts)) && lines[1..] == PrintFrom(h, 0) + more;
    assert before + h.ops[..0] == before && h.ops[0..] == h.ops;
    last := ReadOps(before, h, 0, starts, more);
  }

  lemma Regroup<T>(a: seq<T>, b: seq<T>, c: seq<T>)
    ensures a + b + c == a + (b + c)
  {
  }

  /** Reading printed hunks gives exactly the deleted and the inserted lines of the script, and
      stops at the next file header. */
  lemma {:induction false} ReadHunks(done: Script, hunks: seq<Hunk>, cur: Option<(int, int)>, rest: seq<Line>)
    requires rest == [] || rest[0].head.DiffHead?
    ensures ReadChanges(PrintHunks(done, hunks) + rest, cur, DeletedLines(done), InsertedLines(done)) ==
            Changes(DeletedLines(Flatten(done, hunks)), InsertedLines(Flatten(done, hunks)), rest)
    decreases |hunks|
  {
    if hunks == [] {
      assert PrintHunks(done, hunks) + rest == rest;
    } else {
      hide ReadChanges, PrintHunk, DeletedLines, InsertedLines;
      Regroup(PrintHunk(done, hunks[0]), PrintHunks(done + Keeps(hunks[0].gap) + hunks[0].ops, hunks[1..]), rest);
      var after := done + Keeps(hunks[0].gap) + hunks[0].ops;
      var more := PrintHunks(after, hunks[1..]) + rest;
      var last := ReadHunk(done, hunks[0], cur, more);
      ReadHunks(after, hunks[1..], Some(last), rest);
    }
  }

  // ---- Paths ----

  type Paths = (Option<string>, Option<string>)

  /** `NoSuchWord` for a `diff` line with too few words. */
  datatype PathsRead = PathsRead(paths: Paths, rest: seq<Line>) | NoSuchWord

  /** `word[2:]` */
  function WithoutPrefix(word: string): string {
    if |word| < 2 then "" else word[2..]
  }

  /** What one line does to the paths. */
  function Update(token: Token, paths: Paths): Paths
    requires token.DiffWord? ==> |token.words| >= 3
  {
    match token
    case DiffWord(words) => (Some(WithoutPrefix(words[1])), Some(WithoutPrefix(words[2])))
    case DeletedWord => (paths.0, Some(""))
    case NewWord => (Some(""), paths.1)
    case _ => paths
  }

  /** What `_GetPathPair` returns and leaves: the paths of the last `diff` line before the next
      `@@`, each emptied by a `new` or a `deleted` line after it. */
  function ReadPaths(lines: seq<Line>, paths: Paths): PathsRead
    decreases |lines|
  {
    if lines == [] then PathsRead(paths, [])
    else if lines[0].token.HunkMark? then PathsRead(paths, lines)
    else if lines[0].token.DiffWord? && |lines[0].token.words| < 3 then NoSuchWord
    else ReadPaths(lines[1..], Update(lines[0].token, paths))
  }

  predicate Missing(path: Option<string>) {
    path.None? || path.value == ""
  }

  // ---- Change records ----

  datatype FileState = Modified | Added | Deleted

  datatype ChangeInfo = ChangeInfo(state: FileState, path: string, del: seq<int>, add: seq<int>)

  function Describe(pre: Option<string>, post: Option<string>, del: seq<int>, add: seq<int>): seq<ChangeInfo>
    requires !Missing(pre) || !Missing(post)
  {
    if pre == post then [ChangeInfo(Modified, post.value, del, add)]
    else if Missing(pre) then [ChangeInfo(Added, post.value, [], add)]
    else if Missing(post) then [ChangeInfo(Deleted, pre.value, [], [])]
    else [ChangeInfo(Deleted, pre.value, [], []), ChangeInfo(Added, post.value, del, add)]
  }

  datatype Infos = Infos(infos: seq<ChangeInfo>) | Failed

  /** Without a file header no path is read. */
  lemma {:induction false} PathsShrink(lines: seq<Line>, paths: Paths)
    ensures var r := ReadPaths(lines, paths);
            r.PathsRead? ==>
              && |r.rest| <= |lines|
              && (Missing(paths.0) && Missing(paths.1) && |r.rest| == |lines| ==> Missing(r.paths.0) && Missing(r.paths.1))
    decreases |lines|
  {
    if lines != [] && ReadPaths(lines, paths).PathsRead? && !lines[0].token.HunkMark? {
      PathsShrink(lines[1..], Update(lines[0].token, paths));
    }
  }

  lemma {:induction false} ChangesShrink(lines: seq<Line>, cur: Option<(int, int)>, del: seq<int>, add: seq<int>)
    ensures var r := ReadChanges(lines, cur, del, add); r.Changes? ==> |r.rest| <= |lines|
    decreases |lines|
  {
    if lines != [] {
      match lines[0].head
      case At(starts) => if starts.Some? { ChangesShrink(lines[1..], Some(starts.value), del, add); }
      case MinusSign => if cur.Some? { ChangesShrink(lines[1..], Some((cur.value.0 + 1, cur.value.1)), del + [cur.value.0], add); }
      case PlusSign => if cur.Some? { ChangesShrink(lines[1..], Some((cur.value.0, cur.value.1 + 1)), del, add + [cur.value.1]); }
      case Space => if cur.Some? { ChangesShrink(lines[1..], Some((cur.value.0 + 1, cur.value.1 + 1)), del, add); }
      case DiffHead =>
      case OtherHead => ChangesShrink(lines[1..], cur, del, add);
    }
  }

  /** What `GetChangeInfos` returns, after the records `sofar`. */
  function ReadInfos(lines: seq<Line>, sofar: seq<ChangeInfo>): Infos
    decreases |lines|
  {
    PathsShrink(lines, (None, None));
    match ReadPaths(lines, (None, None))
    case NoSuchWord => Failed
    case PathsRead(paths, body) =>
      if Missing(paths.0) && Missing(paths.1) then Infos(sofar)
      else
        ChangesShrink(body, None, [], []);
        match ReadChanges(body, None, [], [])
        case Raised => Failed
        case Changes(del, add, rest) => ReadInfos(rest, sofar + Describe(paths.0, paths.1, del, add))
  }

  class DiffReader {
    var difflines: seq<Line>

    constructor (lines: seq<Line>)
      ensures difflines == lines
    {
      difflines := lines;
    }

    /** `None` stands for the exception raised. */
    method GetPathPair() returns (pair: Option<(Option<string>, Option<string>)>)
      modifies this
      ensures pair.None? ==> ReadPaths(old(difflines), (None, None)) == NoSuchWord
      ensures pair.Some? ==> ReadPaths(old(difflines), (None, None)) == PathsRead(pair.value, difflines)
    {
      var pre, post: Option<string> := None, None;
      while difflines != []
        invariant ReadPaths(difflines, (pre, post)) == ReadPaths(old(difflines), (None, None))
        decreases |difflines|
      {
        match difflines[0].token {
          case DiffWord(words) =>
            if |words| < 3 { return None; }
            pre, post := Some(WithoutPrefix(words[1])), Some(WithoutPrefix(words[2]));
          case DeletedWord => post := Some("");
          case NewWord => pre := Some("");
          case HunkMark => return Some((pre, post));
          case OtherWord =>
        }
        difflines := difflines[1..];
      }
      pair := Some((pre, post));
    }

    /** `None` stands for the exception raised. */
    method GetChangedLinesPair() returns (changed: Option<(seq<int>, seq<int>)>)
      modifies this
      ensures changed.None? ==> ReadChanges(old(difflines), None, [], []) == Raised
      ensures changed.Some? ==>
                ReadChanges(old(difflines), None, [], []) == Changes(changed.value.0, changed.value.1, difflines)
    {
      var cur: Option<(int, int)> := None;
      var del, add: seq<int> := [], [];
      while difflines != []
        invariant ReadChanges(difflines, cur, del, add) == ReadChanges(old(difflines), None, [], [])
        decreases |difflines|
      {
        match difflines[0].head {
          case At(starts) =>
            if starts.None? { return None; }
            cur := Some(starts.value);
          case MinusSign =>
            if cur.None? { return None; }
            del := del + [cur.value.0];
            cur := Some((cur.value.0 + 1, cur.value.1));
          case PlusSign =>
            if cur.None? { return None; }
            add := add + [cur.value.1];
            cur := Some((cur.value.0, cur.value.1 + 1));
          case Space =>
            if cur.None? { return None; }
            cur := Some((cur.value.0 + 1, cur.value.1 + 1));
          case DiffHead => return Some((del, add));
          case OtherHead =>
        }
        difflines := difflines[1..];
      }
      changed := Some((del, add));
    }

    method GetChangeInfos() returns (r: Infos)
      modifies this
      ensures r == ReadInfos(old(difflines), [])
    {
      var ret: seq<ChangeInfo> := [];
      while true
        invariant ReadInfos(difflines, ret) == ReadInfos(old(difflines), [])
        decreases |difflines|
      {
        PathsShrink(difflines, (None, None));
        var pair := GetPathPair();
        if pair.None? {
          return Failed;
        }
        var (pre, post) := pair.value;
        if Missing(pre) && Missing(post) {
          return Infos(ret);
        }
        ChangesShrink(difflines, None, [], []);
        var changed := GetChangedLinesPair();
        if changed.None? {
          return Failed;
        }
        ret := ret + Describe(pre, post, changed.value.0, changed.value.1);
      }
    }
  }
}
