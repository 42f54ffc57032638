/** Which deleted function a new function is matched with, in terms of the edit script between
    the two versions of the file, and what it is handed. */
module MatchedLines {
  import opened MultiMap
  import opened Options
  import opened UnifiedDiff
  import opened LineMap
  import opened Analyzer
  import opened Matching
  import opened CorrectChanges
  import opened DiffFiles
  import opened Handover

  /** `m` is the first listed function nearest to `line`, at most 3 lines away, or there is none
      that near. */
  ghost predicate IsNearest<F>(dels: seq<(F, int)>, line: int, m: Option<F>) {
    if m.None? then forall i | 0 <= i < |dels| :: dels[i].1 < line - 3 || dels[i].1 > line + 3
    else
      exists i ::
        && 0 <= i < |dels| && dels[i].0 == m.value && line - 3 <= dels[i].1 <= line + 3
        && (forall j | 0 <= j < |dels| :: Away(dels[j].1, line) >= Away(dels[i].1, line))
        && (forall j | 0 <= j < i :: Away(dels[j].1, line) > Away(dels[i].1, line))
  }

  function Away(a: int, b: int): (d: int)
    ensures d >= 0 && (a == b + d || a == b - d)
  {
    if a < b then b - a else a - b
  }

  lemma PairedNearest<F>(dels: seq<(F, int)>, newFL: (F, int), lines: Lines)
    ensures var p := PairingOf(dels, newFL, lines);
            p.newF == newFL.0 && IsNearest(dels, MapLine(lines.del, lines.add, newFL.1), p.match')
  {
    var line := MapLine(lines.del, lines.add, newFL.1);
    var at := LinesOf(dels);
    MatchIsClosest(at, line);
    assert forall i | 0 <= i < |dels| :: at[i] == dels[i].1 && Distance(at[i], line) == Away(dels[i].1, line);
    hide MatchOf, MapLine;
  }

  function LinesFrom(s: Script): Lines {
    Lines(DeletedLines(s), InsertedLines(s))
  }

  /** The lines of the new file up to any point of the script are as many kept ones as on the
      other side, and the inserted ones. */
  lemma MappedByKept(s: Script, k: nat)
    requires k <= |s|
    ensures MapLine(DeletedLines(s), InsertedLines(s), New(s[..k])) == NthKept(DeletedLines(s), 0, UnifiedDiff.Kept(s[..k]))
  {
    hide *;
    SwappedUpTo(s, k);
    DeletedUpTo(Swap(s), k);
    MapByRank(DeletedLines(s), InsertedLines(s), New(s[..k]));
  }

  lemma SwappedUpTo(s: Script, k: nat)
    requires k <= |s|
    ensures |Swap(s)| == |s| && DeletedLines(Swap(s)) == InsertedLines(s)
    ensures Old(Swap(s)[..k]) == New(s[..k]) && UnifiedDiff.Kept(Swap(s)[..k]) == UnifiedDiff.Kept(s[..k])
  {
    Swapped(s);
    Swapped(s[..k]);
    assert Swap(s)[..k] == Swap(s[..k]);
  }

  lemma MapByRank(del: seq<int>, add: seq<int>, post: int)
    ensures MapLine(del, add, post) == NthKept(del, 0, post - CountUpTo(add, post))
  {
  }

  lemma {:induction false} NoMoreKept(s: Script, j: nat, k: nat)
    requires j <= k <= |s| && forall i | j <= i < k :: !s[i].Keep?
    ensures UnifiedDiff.Kept(s[..k]) == UnifiedDiff.Kept(s[..j])
    decreases k
  {
    if j < k {
      NoMoreKept(s, j, k - 1);
      assert s[..k] == s[..k - 1] + [s[k - 1]];
      OneMore(s[..k - 1], s[k - 1]);
    }
  }

  /** For every edit script, a new function on a kept line is paired with the deleted function
      nearest to the same line of the old file. */
  lemma KeptPaired<F>(dels: seq<(F, int)>, f: F, s: Script, k: nat)
    requires k < |s| && s[k].Keep?
    ensures IsNearest(dels, Old(s[..k + 1]), PairingOf(dels, (f, New(s[..k + 1])), LinesFrom(s)).match')
  {
    KeptLineMapped(s, k);
    PairedNearest(dels, (f, New(s[..k + 1])), LinesFrom(s));
  }

  /** From a kept line up to the next one, all lines of the new file are mapped alike. */
  lemma InsertedMapped(s: Script, j: nat, a: nat, k: nat)
    requires a == j + 1 <= k <= |s| && s[j].Keep? && forall i | a <= i < k :: !s[i].Keep?
    ensures MapLine(DeletedLines(s), InsertedLines(s), New(s[..k])) == Old(s[..a])
  {
    hide *;
    NoMoreKept(s, a, k);
    MappedAlike(s, a, k);
    KeptLineMapped(s, j);
  }

  lemma MappedAlike(s: Script, j: nat, k: nat)
    requires j <= |s| && k <= |s| && UnifiedDiff.Kept(s[..j]) == UnifiedDiff.Kept(s[..k])
    ensures MapLine(DeletedLines(s), InsertedLines(s), New(s[..k])) == MapLine(DeletedLines(s), InsertedLines(s), New(s[..j]))
  {
    MappedByKept(s, j);
    MappedByKept(s, k);
    hide *;
  }

  /** One on an inserted line, with the one nearest to the last line kept above it. */
  lemma InsertedPaired<F>(dels: seq<(F, int)>, f: F, s: Script, j: nat, k: nat)
    requires j < k < |s| && s[j].Keep? && s[k].Insert? && forall i | j < i < k :: !s[i].Keep?
    ensures IsNearest(dels, Old(s[..j + 1]), PairingOf(dels, (f, New(s[..k + 1])), LinesFrom(s)).match')
  {
    InsertedMapped(s, j, j + 1, k + 1);
    PairedNearest(dels, (f, New(s[..k + 1])), LinesFrom(s));
    hide Old, New, DeletedLines, InsertedLines, IsNearest, PairingOf, MapLine;
  }

  /** When no line is kept above it, with the one nearest to the beginning of the file. */
  lemma InsertedFirstPaired<F>(dels: seq<(F, int)>, f: F, s: Script, k: nat)
    requires k < |s| && s[k].Insert? && forall i | 0 <= i < k :: !s[i].Keep?
    ensures IsNearest(dels, 0, PairingOf(dels, (f, New(s[..k + 1])), LinesFrom(s)).match')
  {
    MappedByKept(s, k + 1);
    NoMoreKept(s, 0, k + 1);
    assert s[..0] == [] && UnifiedDiff.Kept([]) == 0;
    DeletedAscending(s);
    assert NthKept(DeletedLines(s), 0, 0) == 0;
    PairedNearest(dels, (f, New(s[..k + 1])), LinesFrom(s));
    hide Old, New, DeletedLines, InsertedLines, IsNearest;
  }

  /** From end to end: a new function on a kept line, with a deleted function nearest to it that
      no new function before it is matched with, ends up with exactly its tags, and its results on
      top of its own. */
  lemma KeptTagsArrive<F, T>(t: Table<F, T>, res: map<F, Results>, dels: seq<(F, int)>, news: seq<(F, int)>, s: Script, n: nat, k: nat, d: F,
                             a: string, r: string)
    requires forall i | 0 <= i < |news| :: news[i].0 !in Functions(dels)
    requires forall i, j | 0 <= i < j < |news| :: news[i].0 != news[j].0
    requires n < |news| && k < |s| && s[k].Keep? && news[n].1 == New(s[..k + 1])
    requires IsNearest(dels, Old(s[..k + 1]), Some(d))
    requires forall j | 0 <= j < n :: PairingOf(dels, news[j], LinesFrom(s)).match' != Some(d)
    ensures var ps, gone := Pairings(dels, news, LinesFrom(s)), Functions(dels);
            && Get(AfterMoves(t, ps) - gone, news[n].0) == Get(t, d)
            && AfterMerges(res, ps, news[n].0, a, r) == Look(res, news[n].0, a, r) + Look(res, d, a, r)
  {
    var ps, gone := Pairings(dels, news, LinesFrom(s)), Functions(dels);
    PairingsSeparate(dels, news, LinesFrom(s));
    PairedWith(dels, news, s, n, k, d);
    hide Pairings, Functions, Separate, IsNearest, PairingOf, Look, Old, New, LinesFrom;
    TagsHandedOver(t, ps, gone, news[n].0);
    ResultsAdded(res, ps, gone, |ps|, news[n].0, a, r);
    assert ps[..|ps|] == ps;
  }

  lemma PairedWith<F>(dels: seq<(F, int)>, news: seq<(F, int)>, s: Script, n: nat, k: nat, d: F)
    requires n < |news| && k < |s| && s[k].Keep? && news[n].1 == New(s[..k + 1])
    requires IsNearest(dels, Old(s[..k + 1]), Some(d))
    requires forall j | 0 <= j < n :: PairingOf(dels, news[j], LinesFrom(s)).match' != Some(d)
    ensures var ps := Pairings(dels, news, LinesFrom(s));
            |ps| == |news| && ps[n] == Pairing(news[n].0, Some(d)) && !Taken(ps, n, d)
  {
    var lines := LinesFrom(s);
    assert news[n] == (news[n].0, New(s[..k + 1]));
    hide *;
    KeptPaired(dels, news[n].0, s, k);
    PairedNearest(dels, news[n], lines);
    OneNearest(dels, Old(s[..k + 1]), d, PairingOf(dels, news[n], lines).match');
    NotTakenBefore(dels, news, lines, n, d);
  }

  lemma NotTakenBefore<F>(dels: seq<(F, int)>, news: seq<(F, int)>, lines: Lines, n: nat, d: F)
    requires n < |news| && forall j | 0 <= j < n :: PairingOf(dels, news[j], lines).match' != Some(d)
    ensures var ps := Pairings(dels, news, lines);
            |ps| == |news| && ps[n] == PairingOf(dels, news[n], lines) && !Taken(ps, n, d)
  {
    hide PairingOf;
  }

  lemma OneNearest<F>(dels: seq<(F, int)>, line: int, d: F, m: Option<F>)
    requires IsNearest(dels, line, Some(d)) && IsNearest(dels, line, m)
    ensures m == Some(d)
  {
  }

  /** Five lines were added at the top: the function that was at line 10 is matched. */
  lemma MatchedBelowAddedLines()
    ensures PairingOf([("old", 10)], ("new", 15), Lines([], [1, 2, 3, 4, 5])) == Pairing("new", Some("old"))
  {
    assert [1, 2, 3, 4, 5][1..][1..][1..][1..] == [5];
    assert CountUpTo([1, 2, 3, 4, 5], 15) == 5;
    assert MapLine([], [1, 2, 3, 4, 5], 15) == 10;
    PairedNearest([("old", 10)], ("new", 15), Lines([], [1, 2, 3, 4, 5]));
  }
}
