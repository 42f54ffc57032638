/** Which deleted function a new function is matched with. */
module Matching {
  import opened Options

  function Distance(a: int, b: int): nat {
    if a < b then b - a else a - b
  }

  /** The first listed line within `r` of `line`, from position `i` on. */
  function FirstWithin(lines: seq<int>, line: int, r: nat, i: nat): Option<nat>
    requires i <= |lines|
    decreases |lines| - i
  {
    if i == |lines| then None
    else if Distance(lines[i], line) <= r then Some(i)
    else FirstWithin(lines, line, r, i + 1)
  }

  /** The search with radius `r`, then larger ones, up to 3. */
  function MatchFrom(lines: seq<int>, line: int, r: nat): Option<nat>
    decreases 4 - r
  {
    if r > 3 then None
    else
      var m := FirstWithin(lines, line, r, 0);
      if m.Some? then m else MatchFrom(lines, line, r + 1)
  }

  function MatchOf(lines: seq<int>, line: int): Option<nat> {
    MatchFrom(lines, line, 0)
  }

  /** The loops that look for the matching deleted function. */
  method FindMatch(lines: seq<int>, line: int) returns (m: Option<nat>)
    ensures m == MatchOf(lines, line)
  {
    m := None;
    var r := 0;
    while r <= 3 && m.None?
      invariant r <= 4
      invariant if m.Some? then m == MatchOf(lines, line) else MatchFrom(lines, line, r) == MatchOf(lines, line)
      decreases 4 - r, m.None?
    {
      var i := 0;
      while i < |lines|
        invariant i <= |lines|
        invariant FirstWithin(lines, line, r, i) == FirstWithin(lines, line, r, 0)
      {
        var diff := lines[i] - line;
        if diff >= -r && diff <= r {
          m := Some(i);
          break;
        }
        i := i + 1;
      }
      r := r + 1;
    }
  }

  lemma {:induction false} FirstWithinExact(lines: seq<int>, line: int, r: nat, i: nat)
    requires i <= |lines|
    ensures var m := FirstWithin(lines, line, r, i);
            if m.Some? then
              i <= m.value < |lines| && Distance(lines[m.value], line) <= r && forall j | i <= j < m.value :: Distance(lines[j], line) > r
            else forall j | i <= j < |lines| :: Distance(lines[j], line) > r
    decreases |lines| - i
  {
    if i < |lines| { FirstWithinExact(lines, line, r, i + 1); }
  }

  lemma {:induction false} MatchFromClosest(lines: seq<int>, line: int, r: nat)
    requires r <= 4 && forall j | 0 <= j < |lines| :: Distance(lines[j], line) >= r
    ensures var m := MatchFrom(lines, line, r);
            if m.Some? then
              && m.value < |lines|
              && Distance(lines[m.value], line) <= 3
              && (forall j | 0 <= j < |lines| :: Distance(lines[j], line) >= Distance(lines[m.value], line))
              && (forall j | 0 <= j < m.value :: Distance(lines[j], line) > Distance(lines[m.value], line))
            else forall j | 0 <= j < |lines| :: Distance(lines[j], line) > 3
    decreases 4 - r
  {
    if r <= 3 {
      FirstWithinExact(lines, line, r, 0);
      if FirstWithin(lines, line, r, 0).None? {
        MatchFromClosest(lines, line, r + 1);
      }
    }
  }

  /** The match is the first listed line at the least distance, and that is at most 3; there is
      none exactly when every line is farther away. */
  lemma MatchIsClosest(lines: seq<int>, line: int)
    ensures var m := MatchOf(lines, line);
            if m.Some? then
              && m.value < |lines|
              && Distance(lines[m.value], line) <= 3
              && (forall j | 0 <= j < |lines| :: Distance(lines[j], line) >= Distance(lines[m.value], line))
              && (forall j | 0 <= j < m.value :: Distance(lines[j], line) > Distance(lines[m.value], line))
            else forall j | 0 <= j < |lines| :: Distance(lines[j], line) > 3
  {
    MatchFromClosest(lines, line, 0);
  }
}
