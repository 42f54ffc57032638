/** Line edits and how the unified format of `diff` (IEEE Std 1003.1-2008, `diff`, "Diff -u or
    -U Output Format") prints them: hunks of lines with the number of the first line of each
    side in front, or the number of the line before it where a side is empty. */
module UnifiedDiff {
  import opened Options

  datatype Op = Keep | Delete | Insert

  type Script = seq<Op>

  /** How many lines of the old file the script covers. */
  function Old(s: Script): nat {
    if s == [] then 0 else Old(s[..|s| - 1]) + (if s[|s| - 1].Insert? then 0 else 1)
  }

  function New(s: Script): nat {
    if s == [] then 0 else New(s[..|s| - 1]) + (if s[|s| - 1].Delete? then 0 else 1)
  }

  function Kept(s: Script): nat {
    if s == [] then 0 else Kept(s[..|s| - 1]) + (if s[|s| - 1].Keep? then 1 else 0)
  }

  /** The old numbers of the deleted lines, in order. */
  function DeletedLines(s: Script): seq<int> {
    if s == [] then []
    else DeletedLines(s[..|s| - 1]) + (if s[|s| - 1].Delete? then [Old(s)] else [])
  }

  /** The new numbers of the inserted lines, in order. */
  function InsertedLines(s: Script): seq<int> {
    if s == [] then []
    else InsertedLines(s[..|s| - 1]) + (if s[|s| - 1].Insert? then [New(s)] else [])
  }

  lemma OneMore(s: Script, op: Op)
    ensures Old(s + [op]) == Old(s) + (if op.Insert? then 0 else 1)
    ensures New(s + [op]) == New(s) + (if op.Delete? then 0 else 1)
    ensures Kept(s + [op]) == Kept(s) + (if op.Keep? then 1 else 0)
    ensures DeletedLines(s + [op]) == DeletedLines(s) + (if op.Delete? then [Old(s) + 1] else [])
    ensures InsertedLines(s + [op]) == InsertedLines(s) + (if op.Insert? then [New(s) + 1] else [])
  {
    assert (s + [op])[..|s|] == s;
  }

  /** Lines kept outside the hunks. */
  function Keeps(n: nat): Script {
    seq(n, _ => Keep)
  }

  lemma {:induction false} SkipKeeps(s: Script, n: nat)
    ensures Old(s + Keeps(n)) == Old(s) + n && New(s + Keeps(n)) == New(s) + n
    ensures DeletedLines(s + Keeps(n)) == DeletedLines(s) && InsertedLines(s + Keeps(n)) == InsertedLines(s)
  {
    if n == 0 {
      assert s + Keeps(0) == s;
    } else {
      SkipKeeps(s, n - 1);
      assert s + Keeps(n) == (s + Keeps(n - 1)) + [Keep];
      OneMore(s + Keeps(n - 1), Keep);
    }
  }

  // ---- Printed lines ----

  /** A word is a run of characters between blanks. */
  type Word = w: string | w != "" && ' ' !in w witness "a"

  /** The first word of a line, as far as the scanner for the paths tells words apart; after
      `diff`, with the words that follow. */
  datatype Token = DiffWord(words: seq<Word>) | DeletedWord | NewWord | HunkMark | OtherWord

  /** The first character of a line, as far as the scanner for the changed lines tells them
      apart: `@`, with the two first line numbers if the line is a hunk header, `-`, `+`, a
      blank, the letters `diff`, and anything else or nothing. */
  datatype Head = At(starts: Option<(nat, nat)>) | MinusSign | PlusSign | Space | DiffHead | OtherHead

  datatype Line = Line(token: Token, head: Head)

  const OTHER := Line(OtherWord, OtherHead)

  /** The lines kept before a hunk, then its lines; `words` holds the first words of kept lines,
      and `noted` says which lines are followed by the `\ No newline at end of file` line. */
  datatype Hunk = Hunk(gap: nat, ops: Script, words: map<nat, Token>, noted: set<nat>)

  function PrintOp(op: Op, token: Token): Line {
    match op
    case Keep => Line(token, Space)
    case Delete => Line(OtherWord, MinusSign)
    case Insert => Line(OtherWord, PlusSign)
  }

  /** The line of one operation, and its note. */
  function PrintAt(h: Hunk, k: nat): seq<Line>
    requires k < |h.ops|
  {
    [PrintOp(h.ops[k], if k in h.words then h.words[k] else OtherWord)] + (if k in h.noted then [OTHER] else [])
  }

  function PrintOps(h: Hunk, n: nat): seq<Line>
    requires n <= |h.ops|
  {
    if n == 0 then [] else PrintOps(h, n - 1) + PrintAt(h, n - 1)
  }

  /** A side without lines is numbered by the line before it. */
  function Start(before: nat, lines: nat): nat {
    if lines == 0 then before else before + 1
  }

  /** A hunk, after the lines of `done` and those of its gap. */
  function PrintHunk(done: Script, h: Hunk): seq<Line> {
    var before := done + Keeps(h.gap);
    [Line(HunkMark, At(Some((Start(Old(before), Old(h.ops)), Start(New(before), New(h.ops))))))] + PrintOps(h, |h.ops|)
  }

  function PrintHunks(done: Script, hunks: seq<Hunk>): seq<Line>
    decreases |hunks|
  {
    if hunks == [] then []
    else PrintHunk(done, hunks[0]) + PrintHunks(done + Keeps(hunks[0].gap) + hunks[0].ops, hunks[1..])
  }

  /** The script the hunks stand for. */
  function Flatten(done: Script, hunks: seq<Hunk>): Script
    decreases |hunks|
  {
    if hunks == [] then done else Flatten(done + Keeps(hunks[0].gap) + hunks[0].ops, hunks[1..])
  }
}
