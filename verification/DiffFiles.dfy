/** From the hunks of a file to the line map: where the lines the reader reports send the kept
    lines. */
module DiffFiles {
  import opened Options
  import opened UnifiedDiff
  import opened DiffReader
  import opened LineMap

  // ---- From hunks to the line map ----

  function Swap(s: Script): Script {
    seq(|s|, i requires 0 <= i < |s| => match s[i] case Keep => Keep case Delete => Insert case Insert => Delete)
  }

  lemma {:induction false} Swapped(s: Script)
    ensures Old(Swap(s)) == New(s) && New(Swap(s)) == Old(s) && UnifiedDiff.Kept(Swap(s)) == UnifiedDiff.Kept(s)
    ensures DeletedLines(Swap(s)) == InsertedLines(s) && InsertedLines(Swap(s)) == DeletedLines(s)
  {
    if s != [] {
      Swapped(s[..|s| - 1]);
      assert Swap(s)[..|s| - 1] == Swap(s[..|s| - 1]);
    }
  }

  lemma {:induction false} DeletedAscending(s: Script)
    ensures Ascending(DeletedLines(s)) && forall i | 0 <= i < |DeletedLines(s)| :: DeletedLines(s)[i] <= Old(s)
    ensures |DeletedLines(s)| + UnifiedDiff.Kept(s) == Old(s)
  {
    if s != [] {
      DeletedAscending(s[..|s| - 1]);
    }
  }

  lemma InsertedAscending(s: Script)
    ensures Ascending(InsertedLines(s))
  {
    Swapped(s);
    DeletedAscending(Swap(s));
  }

  /** Up to any point of the script, as many deleted lines as the old lines exceed the kept. */
  lemma {:induction false} DeletedUpTo(s: Script, k: nat)
    requires k <= |s|
    ensures CountUpTo(DeletedLines(s), Old(s[..k])) == Old(s[..k]) - UnifiedDiff.Kept(s[..k])
    ensures Old(s[..k]) <= Old(s)
  {
    DeletedAscending(s);
    if k == |s| {
      assert s[..k] == s;
      CountAll(DeletedLines(s), Old(s));
    } else {
      var t := s[..|s| - 1];
      assert t[..k] == s[..k];
      DeletedUpTo(t, k);
      CountAppend(DeletedLines(t), if s[|s| - 1].Delete? then [Old(s)] else [], Old(s[..k]));
    }
  }

  lemma KeptNotDeleted(s: Script, k: nat)
    requires k < |s| && s[k].Keep?
    ensures LineMap.Kept(DeletedLines(s), Old(s[..k + 1]))
  {
    assert s[..k + 1] == s[..k] + [s[k]];
    OneMore(s[..k], s[k]);
    DeletedUpTo(s, k);
    DeletedUpTo(s, k + 1);
    DeletedAscending(s);
    CountOneStep(DeletedLines(s), Old(s[..k + 1]));
  }

  /** A kept line has the same number among the kept lines on either side. */
  lemma KeptRanks(s: Script, k: nat)
    requires k < |s| && s[k].Keep?
    ensures LineMap.Kept(DeletedLines(s), Old(s[..k + 1])) && LineMap.Kept(InsertedLines(s), New(s[..k + 1]))
    ensures Old(s[..k + 1]) - CountUpTo(DeletedLines(s), Old(s[..k + 1])) == UnifiedDiff.Kept(s[..k + 1])
    ensures New(s[..k + 1]) - CountUpTo(InsertedLines(s), New(s[..k + 1])) == UnifiedDiff.Kept(s[..k + 1])
  {
    hide *;
    KeptNotDeleted(s, k);
    DeletedUpTo(s, k + 1);
    SwappedPrefix(s, k);
    KeptNotDeleted(Swap(s), k);
    DeletedUpTo(Swap(s), k + 1);
  }

  lemma SwappedPrefix(s: Script, k: nat)
    requires k < |s|
    ensures |Swap(s)| == |s| && (s[k].Keep? ==> Swap(s)[k].Keep?) && DeletedLines(Swap(s)) == InsertedLines(s)
    ensures Old(Swap(s)[..k + 1]) == New(s[..k + 1]) && UnifiedDiff.Kept(Swap(s)[..k + 1]) == UnifiedDiff.Kept(s[..k + 1])
  {
    Swapped(s);
    Swapped(s[..k + 1]);
    assert Swap(s)[..k + 1] == Swap(s[..k + 1]);
  }

  /** On the lines of any script, the map sends the new number of a kept line to its old one. */
  lemma KeptLineMapped(s: Script, k: nat)
    requires k < |s| && s[k].Keep?
    ensures Ascending(DeletedLines(s)) && Ascending(InsertedLines(s))
    ensures MapLine(DeletedLines(s), InsertedLines(s), New(s[..k + 1])) == Old(s[..k + 1])
  {
    DeletedAscending(s);
    InsertedAscending(s);
    KeptRanks(s, k);
    SameRank(DeletedLines(s), InsertedLines(s), New(s[..k + 1]), Old(s[..k + 1]));
  }

  lemma SameRank(del: seq<int>, add: seq<int>, post: int, pre: int)
    requires Ascending(del) && Ascending(add) && LineMap.Kept(del, pre) && LineMap.Kept(add, post)
    requires pre - CountUpTo(del, pre) == post - CountUpTo(add, post)
    ensures MapLine(del, add, post) == pre
  {
    KeptGoesToKept(del, add, post);
    RankInjective(del, pre, MapLine(del, add, post));
    RankInjective(del, MapLine(del, add, post), pre);
  }

  /** Reading the printed hunks of a file and mapping with the lines read sends every kept
      line, inside a hunk, between hunks or after the last, from its new to its old number. */
  lemma ReadThenMapped(hunks: seq<Hunk>, tail: nat, rest: seq<Line>, k: nat)
    requires rest == [] || rest[0].head.DiffHead?
    requires var s := Flatten([], hunks) + Keeps(tail); k < |s| && s[k].Keep?
    ensures var r := ReadChanges(PrintHunks([], hunks) + rest, None, [], []);
            var s := Flatten([], hunks) + Keeps(tail);
            r.Changes? && r.rest == rest && MapLine(r.del, r.add, New(s[..k + 1])) == Old(s[..k + 1])
  {
    ReadHunks([], hunks, None, rest);
    SkipKeeps(Flatten([], hunks), tail);
    KeptLineMapped(Flatten([], hunks) + Keeps(tail), k);
  }
}
