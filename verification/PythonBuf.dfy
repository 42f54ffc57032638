/** The stream buffer that hands C++ output to a Python stream without cutting a character, and
    what exceptions on the way leave in it. */
module PythonBuf {
  import opened Utf8

  const EOF: int := -1

  predicate IsAscii(c: Byte) { c < 0x80 }

  predicate IsLeading(c: Byte) { 0xC0 <= c }

  /** How far from the end the nearest leading byte is, or `limit`. */
  function FindLeading(b: seq<Byte>, i: nat, limit: nat): (d: nat)
    requires i <= limit <= |b|
    ensures i <= d <= limit && (d < limit ==> IsLeading(b[|b| - 1 - d]))
    ensures forall p | |b| - d <= p < |b| - i :: !IsLeading(b[p])
    decreases limit - i
  {
    if i == limit || IsLeading(b[|b| - 1 - i]) then i else FindLeading(b, i + 1, limit)
  }

  /** `utf8_remainder`: the bytes of the incomplete character at the end. */
  function Remainder(b: seq<Byte>): (r: nat)
    requires b != []
    ensures r <= 3 && r <= |b|
  {
    if IsAscii(b[|b| - 1]) then 0
    else
      var dist := FindLeading(b, 0, if |b| >= 3 then 3 else |b|);
      if dist == |b| then 0
      else if dist == 0 then 1
      else if dist == 1 then if b[|b| - 1 - dist] <= 0xDF then 0 else dist + 1
      else if dist == 2 then if b[|b| - 1 - dist] <= 0xEF then 0 else dist + 1
      else 0
  }

  lemma LeadingAt(b: seq<Byte>, d: nat, limit: nat)
    requires d < limit <= |b| && IsLeading(b[|b| - 1 - d])
    requires forall p | |b| - d <= p < |b| :: !IsLeading(b[p])
    ensures FindLeading(b, 0, limit) == d
  {
    hide FindLeading;
  }

  lemma ByteAt(b: seq<Byte>, c: seq<Byte>, e: nat)
    requires |c| <= |b| && b[|b| - |c|..] == c && e < |c|
    ensures b[|b| - |c| + e] == c[e]
  {
    assert b[|b| - |c|..][e] == c[e];
  }

  lemma CharBytes(c: seq<Byte>)
    requires IsChar(c)
    ensures 1 <= |c| <= 4 && (|c| == 1 ==> IsAscii(c[0]))
    ensures |c| >= 2 ==> 0xC0 <= c[0] && Tail(c[1]) && (c[0] <= 0xDF <==> |c| == 2)
    ensures |c| >= 3 ==> Tail(c[2]) && (c[0] <= 0xEF <==> |c| == 3)
    ensures |c| >= 4 ==> Tail(c[3])
  {
  }

  lemma RemainderOne(b: seq<Byte>)
    requires b != [] && 0xC0 <= b[|b| - 1]
    ensures Remainder(b) == 1
  {
    LeadingAt(b, 0, if |b| >= 3 then 3 else |b|);
    hide FindLeading;
  }

  lemma RemainderTwo(b: seq<Byte>)
    requires |b| >= 2 && 0xC0 <= b[|b| - 2] && Tail(b[|b| - 1])
    ensures Remainder(b) == if b[|b| - 2] <= 0xDF then 0 else 2
  {
    LeadingAt(b, 1, if |b| >= 3 then 3 else |b|);
    hide FindLeading;
  }

  lemma RemainderThree(b: seq<Byte>)
    requires |b| >= 3 && 0xC0 <= b[|b| - 3] && Tail(b[|b| - 2]) && Tail(b[|b| - 1])
    ensures Remainder(b) == if b[|b| - 3] <= 0xEF then 0 else 3
  {
    LeadingAt(b, 2, 3);
    hide FindLeading;
  }

  lemma RemainderNone(b: seq<Byte>)
    requires |b| >= 4 && Tail(b[|b| - 3]) && Tail(b[|b| - 2]) && Tail(b[|b| - 1])
    ensures Remainder(b) == 0
  {
    NoLeading(b, 0);
    hide FindLeading;
  }

  lemma NoLeading(b: seq<Byte>, i: nat)
    requires |b| >= 3 && i <= 3 && Tail(b[|b| - 3]) && Tail(b[|b| - 2]) && Tail(b[|b| - 1])
    ensures FindLeading(b, i, 3) == 3
    decreases 3 - i
  {
    if i < 3 { NoLeading(b, i + 1); }
  }

  lemma RemainderOfPartial(b: seq<Byte>, c: seq<Byte>, m: nat)
    requires IsChar(c) && 1 <= m < |c| && m <= |b| && b[|b| - m..] == c[..m]
    ensures Remainder(b) == m
  {
    CharBytes(c);
    hide IsChar, Remainder, FindLeading;
    ByteAt(b, c[..m], 0);
    if m == 1 {
      RemainderOne(b);
    } else if m == 2 {
      ByteAt(b, c[..m], 1);
      RemainderTwo(b);
    } else {
      ByteAt(b, c[..m], 1);
      ByteAt(b, c[..m], 2);
      RemainderThree(b);
    }
  }

  lemma RemainderAscii(b: seq<Byte>)
    requires b != [] && IsAscii(b[|b| - 1])
    ensures Remainder(b) == 0
  {
    hide FindLeading;
  }

  predicate EndsIn(b: seq<Byte>, c: seq<Byte>) {
    |c| <= |b| && forall e | 0 <= e < |c| :: b[|b| - |c| + e] == c[e]
  }

  lemma LongCharEnds(b: seq<Byte>, c: seq<Byte>)
    requires IsChar(c) && |c| >= 2 && EndsIn(b, c)
    ensures Remainder(b) == 0
  {
    CharBytes(c);
    assert b[|b| - |c|] == c[0] && b[|b| - |c| + 1] == c[1];
    hide IsChar, Remainder, FindLeading;
    if |c| == 2 {
      RemainderTwo(b);
    } else if |c| == 3 {
      RemainderThree(b);
    } else {
      RemainderNone(b);
    }
  }

  lemma RemainderOfWhole(b: seq<Byte>, c: seq<Byte>)
    requires IsChar(c) && |c| <= |b| && b[|b| - |c|..] == c
    ensures Remainder(b) == 0
  {
    forall e | 0 <= e < |c| ensures b[|b| - |c| + e] == c[e] {
      ByteAt(b, c, e);
    }
    CharBytes(c);
    hide IsChar, Remainder, FindLeading;
    if |c| == 1 {
      ByteAt(b, c, 0);
      RemainderAscii(b);
    } else {
      LongCharEnds(b, c);
    }
  }

  /** On a valid stream cut anywhere it is exactly the incomplete character. */
  lemma RemainderExact(b: seq<Byte>, k: nat)
    requires b != [] && k <= |b| && ValidUtf8(b[..k]) && Partial(b[k..])
    ensures Remainder(b) == |b| - k
  {
    if k < |b| {
      var c: seq<Byte> :| IsChar(c) && |b| - k < |c| && c[..|b| - k] == b[k..];
      RemainderOfPartial(b, c, |b| - k);
    } else {
      assert b[..k] == b;
      var n := LastChar(b);
      RemainderOfWhole(b, b[|b| - n..]);
    }
  }

  // ---- What a run of puts and syncs does ----

  /** What the Python stream does when it is called: `write` may raise, and writes nothing then,
      or `flush` after it. */
  datatype Python = Returns | WriteRaises | FlushRaises

  /** The bytes in the buffer, and the text of every call of `write` that returned. */
  datatype State = State(held: seq<Byte>, written: seq<seq<Byte>>)

  datatype Op = Put(c: Byte, python: Python) | Sync(python: Python)

  /** How much of the buffer a sync hands over. */
  function Cut(b: seq<Byte>): (n: nat)
    ensures n <= |b| <= n + 3
  {
    if b == [] then 0 else |b| - Remainder(b)
  }

  /** The conversion to a Python string throws on bytes that are not UTF-8. */
  predicate SyncThrows(s: State, python: Python) {
    var n := Cut(s.held);
    n > 0 && (!ValidUtf8(s.held[..n]) || !python.Returns?)
  }

  /** An exception leaves the buffer as it is, although `write` may have returned. */
  function Synced(s: State, python: Python): State {
    var n := Cut(s.held);
    if n == 0 || !ValidUtf8(s.held[..n]) || python.WriteRaises? then s
    else State(if python.FlushRaises? then s.held else s.held[n..], s.written + [s.held[..n]])
  }

  /** The state in which an operation syncs. */
  function Full(s: State, op: Op): State {
    match op
    case Put(c, _) => s.(held := s.held + [c])
    case Sync(_) => s
  }

  predicate Syncs(size: nat, s: State, op: Op) {
    op.Sync? || |s.held| >= size - 1
  }

  function After(size: nat, s: State, op: Op): State {
    if Syncs(size, s, op) then Synced(Full(s, op), op.python) else Full(s, op)
  }

  const START := State([], [])

  function Run(size: nat, ops: seq<Op>): State {
    if ops == [] then START else After(size, Run(size, ops[..|ops| - 1]), ops[|ops| - 1])
  }

  /** Operation `i` throws. */
  predicate Throws(size: nat, ops: seq<Op>, i: nat)
    requires i < |ops|
  {
    var s := Run(size, ops[..i]);
    Syncs(size, s, ops[i]) && SyncThrows(Full(s, ops[i]), ops[i].python)
  }

  function Bytes(ops: seq<Op>): seq<Byte> {
    if ops == [] then []
    else Bytes(ops[..|ops| - 1]) + match ops[|ops| - 1] case Put(c, _) => [c] case Sync(_) => []
  }

  function Flat(chunks: seq<seq<Byte>>): seq<Byte> {
    if chunks == [] then [] else Flat(chunks[..|chunks| - 1]) + chunks[|chunks| - 1]
  }

  lemma OneMoreOp(size: nat, ops: seq<Op>, i: nat)
    requires i < |ops|
    ensures Run(size, ops[..i + 1]) == After(size, Run(size, ops[..i]), ops[i])
    ensures Bytes(ops[..i + 1]) == Bytes(ops[..i]) + match ops[i] case Put(c, _) => [c] case Sync(_) => []
  {
    assert ops[..i + 1][..i] == ops[..i];
  }

  // ---- Conservation ----

  /** All bytes that have come in, as far as the buffer and the texts show. */
  function Accounted(s: State): seq<Byte> {
    Flat(s.written) + s.held
  }

  lemma SyncedAccounts(s: State, python: Python)
    ensures SyncThrows(s, python) && Synced(s, python) != s ==> |Accounted(Synced(s, python))| > |Accounted(s)|
    ensures !(SyncThrows(s, python) && Synced(s, python) != s) ==> Accounted(Synced(s, python)) == Accounted(s)
    ensures |Synced(s, python).held| <= |s.held| && (!SyncThrows(s, python) ==> |Synced(s, python).held| <= 3)
  {
    var n := Cut(s.held);
    if Synced(s, python) != s {
      var chunk := s.held[..n];
      assert (s.written + [chunk])[..|s.written|] == s.written;
      assert Flat(s.written + [chunk]) == Flat(s.written) + chunk;
      assert Flat(s.written) + chunk + s.held[n..] == Flat(s.written) + s.held;
    }
  }

  /** Operation `i` raises after its text has been written. */
  predicate Repeats(size: nat, ops: seq<Op>, i: nat)
    requires i < |ops|
  {
    var s := Full(Run(size, ops[..i]), ops[i]);
    Throws(size, ops, i) && Synced(s, ops[i].python) != s
  }

  ghost predicate NoneRepeats(size: nat, ops: seq<Op>, k: nat)
    requires k <= |ops|
  {
    forall i | 0 <= i < k :: !Repeats(size, ops, i)
  }

  lemma OneMoreAccounted(size: nat, ops: seq<Op>, i: nat)
    requires i < |ops|
    ensures var now := Accounted(Run(size, ops[..i + 1]));
            var before := Accounted(Run(size, ops[..i])) + match ops[i] case Put(c, _) => [c] case Sync(_) => [];
            if Repeats(size, ops, i) then |now| > |before| else now == before
  {
    var s := Run(size, ops[..i]);
    OneMoreOp(size, ops, i);
    FullAccounts(s, ops[i]);
    SyncedAccounts(Full(s, ops[i]), ops[i].python);
    hide Run, Bytes, Accounted, Synced, SyncThrows, Full;
  }

  lemma {:induction false} BytesAccounted(size: nat, ops: seq<Op>, k: nat)
    requires k <= |ops|
    ensures NoneRepeats(size, ops, k) ==> Accounted(Run(size, ops[..k])) == Bytes(ops[..k])
    ensures !NoneRepeats(size, ops, k) ==> |Accounted(Run(size, ops[..k]))| > |Bytes(ops[..k])|
  {
    if k == 0 {
      assert ops[..0] == [];
    } else {
      BytesAccounted(size, ops, k - 1);
      OneMoreAccounted(size, ops, k - 1);
      OneMoreOp(size, ops, k - 1);
      assert NoneRepeats(size, ops, k) <==> NoneRepeats(size, ops, k - 1) && !Repeats(size, ops, k - 1);
      hide *;
    }
  }

  lemma FullAccounts(s: State, op: Op)
    ensures Accounted(Full(s, op)) == Accounted(s) + match op case Put(c, _) => [c] case Sync(_) => []
  {
    if op.Put? {
      assert Flat(s.written) + (s.held + [op.c]) == Flat(s.written) + s.held + [op.c];
    } else {
      assert Accounted(s) + [] == Accounted(s);
    }
  }

  /** What was written, then what is held, is what was put, exactly if no `flush` has raised:
      nothing is lost or reordered, and a text is repeated only after that. */
  lemma ConservedIff(size: nat, ops: seq<Op>)
    ensures Flat(Run(size, ops).written) + Run(size, ops).held == Bytes(ops)
       <==> forall i | 0 <= i < |ops| :: !Repeats(size, ops, i)
  {
    BytesAccounted(size, ops, |ops|);
    assert ops[..|ops|] == ops;
    hide Run, Bytes, Repeats;
  }

  const LETTER: seq<Byte> := [0x61]
  const RAISING_FLUSH := [Put(0x61, Returns), Sync(FlushRaises), Sync(Returns)]

  lemma LetterSynced(written: seq<seq<Byte>>, python: Python)
    requires !python.WriteRaises?
    ensures Synced(State(LETTER, written), python) ==
            State(if python.FlushRaises? then LETTER else [], written + [LETTER])
  {
    assert LETTER[..1] == LETTER && LETTER[1..] == [] && ValidUtf8(LETTER) && Cut(LETTER) == 1;
    hide ValidUtf8, Cut;
  }

  /** A text written twice. */
  lemma RaisingFlushRepeats()
    ensures Run(4, RAISING_FLUSH) == State([], [LETTER, LETTER])
  {
    var ops := RAISING_FLUSH;
    OneMoreOp(4, ops, 0);
    OneMoreOp(4, ops, 1);
    OneMoreOp(4, ops, 2);
    NothingYet(4, ops);
    assert ops[..3] == ops;
    LetterSynced([], FlushRaises);
    LetterSynced([LETTER], Returns);
    hide Run, Bytes, Synced, SyncThrows;
    assert [] + [0x61 as Byte] == LETTER;
    assert [LETTER] + [LETTER] == [LETTER, LETTER] && [] + [LETTER] == [LETTER];
  }

  /** A put writes at most one text, and only when the buffer is full: all of it but the beginning
      of one character. */
  lemma PutWritesWhenFull(size: nat, ops: seq<Op>, i: nat)
    requires i < |ops| && ops[i].Put?
    ensures var before, after := Run(size, ops[..i]), Run(size, ops[..i + 1]);
            after.written == before.written
            || (|before.held| + 1 >= size && exists text :: after.written == before.written + [text] && |text| + 3 >= size)
  {
    OneMoreOp(size, ops, i);
    var full := Full(Run(size, ops[..i]), ops[i]);
    hide Run, Cut, ValidUtf8;
    if Run(size, ops[..i + 1]).written != full.written {
      assert Run(size, ops[..i + 1]).written == full.written + [full.held[..Cut(full.held)]];
    }
  }

  // ---- Valid streams ----

  ghost predicate AllValid(chunks: seq<seq<Byte>>) {
    forall i | 0 <= i < |chunks| :: chunks[i] != [] && ValidUtf8(chunks[i])
  }

  /** Every text that is written is valid UTF-8, whatever is put. */
  lemma {:induction false} WrittenValid(size: nat, ops: seq<Op>)
    ensures AllValid(Run(size, ops).written)
  {
    if ops != [] {
      WrittenValid(size, ops[..|ops| - 1]);
      hide ValidUtf8, Cut;
    }
  }

  lemma {:induction false} FlatValid(chunks: seq<seq<Byte>>)
    requires AllValid(chunks)
    ensures ValidUtf8(Flat(chunks))
  {
    if chunks != [] {
      FlatValid(chunks[..|chunks| - 1]);
      Joined(Flat(chunks[..|chunks| - 1]), chunks[|chunks| - 1]);
    }
  }

  lemma HeldFollows(done: seq<Byte>, held: seq<Byte>, stream: seq<Byte>)
    requires done + held <= stream
    ensures |done| <= |stream| && held <= stream[|done|..] && done + stream[|done|..] == stream
  {
    assert forall i | 0 <= i < |held| :: held[i] == (done + held)[|done| + i];
    assert forall i | 0 <= i < |done| :: done[i] == (done + held)[i];
  }

  /** The Python stream never raises, and the bytes put begin the valid stream. */
  ghost predicate Begins(ops: seq<Op>, stream: seq<Byte>) {
    ValidUtf8(stream) && Bytes(ops) <= stream && forall i | 0 <= i < |ops| :: ops[i].python.Returns?
  }

  /** What is handed over of the beginning of a valid stream is valid, the rest is the beginning
      of one character. */
  lemma CutBetweenCharacters(held: seq<Byte>, rest: seq<Byte>)
    requires ValidUtf8(rest) && held <= rest
    ensures ValidUtf8(held[..Cut(held)]) && Partial(held[Cut(held)..])
  {
    if held != [] {
      var k := PrefixSplits(held, rest);
      RemainderExact(held, k);
    }
  }

  lemma {:induction false} BytesGrow(ops: seq<Op>, k: nat)
    requires k <= |ops|
    ensures Bytes(ops[..k]) <= Bytes(ops)
    decreases |ops| - k
  {
    if k == |ops| {
      assert ops[..k] == ops;
    } else {
      BytesGrow(ops, k + 1);
      assert ops[..k + 1][..k] == ops[..k];
    }
  }

  /** The buffer at any moment follows what has been written, along the stream. */
  lemma FullFollows(size: nat, ops: seq<Op>, stream: seq<Byte>, i: nat)
    requires Begins(ops, stream) && i < |ops| && forall j | 0 <= j < i :: !Repeats(size, ops, j)
    ensures exists rest :: ValidUtf8(rest) && Full(Run(size, ops[..i]), ops[i]).held <= rest
  {
    var s := Run(size, ops[..i]);
    var done := Flat(s.written);
    BytesAccounted(size, ops, i);
    FullAccounts(s, ops[i]);
    OneMoreOp(size, ops, i);
    BytesGrow(ops, i + 1);
    WrittenValid(size, ops[..i]);
    FlatValid(s.written);
    hide Run, Bytes, ValidUtf8, Flat, AllValid;
    HeldFollows(done, Full(s, ops[i]).held, stream);
    RestValid(done, stream[|done|..]);
  }

  /** On such a stream nothing throws: no character is ever cut, wherever the buffer fills up or
      is synced. */
  lemma {:induction false} NothingThrows(size: nat, ops: seq<Op>, stream: seq<Byte>, i: nat)
    requires Begins(ops, stream) && i < |ops|
    ensures !Throws(size, ops, i)
  {
    forall j | 0 <= j < i ensures !Repeats(size, ops, j) {
      NothingThrows(size, ops, stream, j);
    }
    FullFollows(size, ops, stream, i);
    var held := Full(Run(size, ops[..i]), ops[i]).held;
    var rest :| ValidUtf8(rest) && held <= rest;
    CutBetweenCharacters(held, rest);
  }

  /** The sync in the destructor completes a valid stream: all of it has been written. */
  lemma AllWrittenAtTheEnd(size: nat, ops: seq<Op>)
    requires Begins(ops, Bytes(ops))
    ensures var end := Run(size, ops + [Sync(Returns)]); end.held == [] && Flat(end.written) == Bytes(ops)
  {
    var all := ops + [Sync(Returns)];
    assert all[..|ops|] == ops && all[..|all|] == all;
    OneMoreOp(size, all, |ops|);
    assert Bytes(all) == Bytes(ops);
    forall i | 0 <= i < |all| ensures !Repeats(size, all, i) {
      NothingThrows(size, all, Bytes(ops), i);
    }
    ConservedIff(size, all);
    assert forall i | 0 <= i < |ops| :: all[..i] == ops[..i] && all[i] == ops[i];
    BytesAccounted(size, all, |ops|);
    WholeHandedOver(Run(size, ops), Bytes(ops)) by { WrittenValid(size, ops); }
    assert Flat(Run(size, all).written) + [] == Flat(Run(size, all).written);
  }

  lemma WholeHandedOver(s: State, bytes: seq<Byte>)
    requires AllValid(s.written) && ValidUtf8(bytes) && Accounted(s) == bytes
    ensures Synced(s, Returns).held == []
  {
    FlatValid(s.written);
    hide AllValid, ValidUtf8, Synced;
    RestValid(Flat(s.written), s.held);
    ValidHandedOver(s);
  }

  lemma ValidHandedOver(s: State)
    requires ValidUtf8(s.held)
    ensures Synced(s, Returns).held == []
  {
    if s.held != [] {
      assert s.held[..|s.held|] == s.held;
      RemainderExact(s.held, |s.held|);
    }
    hide ValidUtf8, Remainder;
  }

  // ---- The allocation ----

  predicate Fits(size: nat, ops: seq<Op>, i: nat)
    requires i < |ops|
  {
    ops[i].Put? ==> |Run(size, ops[..i]).held| < size
  }

  /** Every store of the run goes into the `size` bytes allocated. */
  ghost predicate InBounds(size: nat, ops: seq<Op>) {
    forall i | 0 <= i < |ops| :: Fits(size, ops, i)
  }

  /** Operation `i` syncs and leaves all bytes in the buffer: it throws, or they are the
      beginning of one character. */
  predicate KeepsAll(size: nat, ops: seq<Op>, i: nat)
    requires i < |ops|
  {
    var s := Run(size, ops[..i]);
    var full := Full(s, ops[i]);
    Syncs(size, s, ops[i]) && (SyncThrows(full, ops[i].python) || Cut(full.held) == 0)
  }

  /** From size 4 on a put that syncs always has text to hand over. */
  lemma KeepsAllIffThrows(size: nat, ops: seq<Op>, i: nat)
    requires size >= 4 && i < |ops| && ops[i].Put?
    ensures KeepsAll(size, ops, i) <==> Throws(size, ops, i)
  {
    hide Run, SyncThrows;
  }

  /** A put has left all bytes in the buffer, and no sync has taken any out since. A buffer
      without room for one byte is stuck from the start. */
  predicate Stuck(size: nat, ops: seq<Op>) {
    if ops == [] then size == 0
    else
      var n := |ops| - 1;
      if ops[n].Put? then Stuck(size, ops[..n]) || KeepsAll(size, ops, n)
      else Stuck(size, ops[..n]) && KeepsAll(size, ops, n)
  }

  /** No byte is put while the buffer is stuck. */
  ghost predicate NoStuckPut(size: nat, ops: seq<Op>) {
    forall i | 0 <= i < |ops| :: PutUnstuck(size, ops, i)
  }

  predicate PutUnstuck(size: nat, ops: seq<Op>, i: nat)
    requires i < |ops|
  {
    ops[i].Put? ==> !Stuck(size, ops[..i])
  }

  /** A stuck buffer is full up to its last byte, any other is not. */
  lemma {:induction false} StuckIsFull(size: nat, ops: seq<Op>)
    requires InBounds(size, ops)
    ensures if Stuck(size, ops) then |Run(size, ops).held| == size else |Run(size, ops).held| < size
  {
    if ops != [] {
      var n := |ops| - 1;
      var s := Run(size, ops[..n]);
      assert InBounds(size, ops[..n]) by { OneMoreInBounds(size, ops); }
      StuckIsFull(size, ops[..n]);
      OneMoreOp(size, ops, n);
      assert ops[..n + 1] == ops;
      SyncedFits(Full(s, ops[n]), ops[n].python);
      assert Fits(size, ops, n);
      hide Synced, SyncThrows, InBounds, Cut;
    }
  }

  lemma SyncedFits(s: State, python: Python)
    ensures if SyncThrows(s, python) || Cut(s.held) == 0 then Synced(s, python).held == s.held
            else |Synced(s, python).held| < |s.held|
  {
    hide ValidUtf8, Cut;
  }

  /** For every size, that is exactly what keeps a run within the allocation. */
  lemma {:induction false} InBoundsIffNotStuck(size: nat, ops: seq<Op>)
    ensures InBounds(size, ops) <==> NoStuckPut(size, ops)
  {
    if ops != [] {
      var n := |ops| - 1;
      InBoundsIffNotStuck(size, ops[..n]);
      OneMoreInBounds(size, ops);
      OneMoreUnstuck(size, ops);
      if InBounds(size, ops[..n]) {
        StuckIsFull(size, ops[..n]);
      }
      hide Run, Stuck, InBounds, NoStuckPut;
    }
  }

  lemma EarlierSame(size: nat, ops: seq<Op>, n: nat, i: nat)
    requires i < n <= |ops|
    ensures Fits(size, ops[..n], i) == Fits(size, ops, i) && PutUnstuck(size, ops[..n], i) == PutUnstuck(size, ops, i)
  {
    assert ops[..n][..i] == ops[..i];
    hide Run, Stuck;
  }

  lemma OneMoreInBounds(size: nat, ops: seq<Op>)
    requires ops != []
    ensures InBounds(size, ops) <==> InBounds(size, ops[..|ops| - 1]) && Fits(size, ops, |ops| - 1)
  {
    var n := |ops| - 1;
    forall i | 0 <= i < n ensures Fits(size, ops[..n], i) == Fits(size, ops, i) {
      EarlierSame(size, ops, n, i);
    }
    hide Fits;
  }

  lemma OneMoreUnstuck(size: nat, ops: seq<Op>)
    requires ops != []
    ensures NoStuckPut(size, ops) <==> NoStuckPut(size, ops[..|ops| - 1]) && PutUnstuck(size, ops, |ops| - 1)
  {
    var n := |ops| - 1;
    forall i | 0 <= i < n ensures PutUnstuck(size, ops[..n], i) == PutUnstuck(size, ops, i) {
      EarlierSame(size, ops, n, i);
    }
    hide PutUnstuck;
  }

  function Stray(n: nat): seq<Byte> {
    seq(n, _ => 0x80)
  }

  function StrayPuts(n: nat): seq<Op> {
    seq(n, _ => Put(0x80, Returns))
  }

  lemma StrayStays(n: nat, written: seq<seq<Byte>>)
    ensures Synced(State(Stray(n), written), Returns) == State(Stray(n), written)
  {
    var b := Stray(n);
    var k := Cut(b);
    hide Cut;
    if k > 0 { assert b[..k][0] == 0x80; }
  }

  /** Bytes that begin no character are refused and fill the buffer. */
  lemma {:induction false} StrayHeld(size: nat, n: nat)
    requires n <= size
    ensures Run(size, StrayPuts(n)).held == Stray(n)
  {
    if n > 0 {
      StrayHeld(size, n - 1);
      assert StrayPuts(n)[..n - 1] == StrayPuts(n - 1);
      assert Stray(n - 1) + [0x80] == Stray(n);
      StrayStays(n, Run(size, StrayPuts(n - 1)).written);
      hide Synced;
    }
  }

  /** So no size stands every run: one more byte than fits, none of which begins a character. */
  lemma StrayBytesOverrun(size: nat)
    ensures !InBounds(size, StrayPuts(size + 1))
  {
    StrayHeld(size, size);
    assert StrayPuts(size + 1)[..size] == StrayPuts(size);
    assert !Fits(size, StrayPuts(size + 1), size);
  }

  /** U+1F600. */
  const EMOJI: seq<Byte> := [0xF0, 0x9F, 0x98, 0x80]
  const EMOJI_PUT := [Put(0xF0, Returns), Put(0x9F, Returns), Put(0x98, Returns), Put(0x80, Returns)]

  lemma EmojiStays(i: nat, written: seq<seq<Byte>>)
    requires 1 <= i <= 3
    ensures Synced(State(EMOJI[..i], written), Returns) == State(EMOJI[..i], written)
  {
    RemainderOfPartial(EMOJI[..i], EMOJI, i);
    hide Remainder, ValidUtf8, IsChar;
  }

  /** Its bytes stay in the buffer until the last, synced or not. */
  lemma {:induction false} EmojiHeld(size: nat, i: nat)
    requires i <= 3
    ensures Run(size, EMOJI_PUT[..i]).held == EMOJI[..i]
  {
    if i == 0 {
      NothingYet(size, EMOJI_PUT);
    } else {
      EmojiHeld(size, i - 1);
      EmojiStays(i, Run(size, EMOJI_PUT[..i - 1]).written);
      OneMoreOp(size, EMOJI_PUT, i - 1);
      assert EMOJI_PUT[i - 1] == Put(EMOJI[i - 1], Returns);
      hide Run, Bytes, Synced;
      assert EMOJI[..i - 1] + [EMOJI[i - 1]] == EMOJI[..i];
    }
  }

  lemma EmojiOverruns(size: nat)
    requires size < 4
    ensures Begins(EMOJI_PUT, EMOJI) && !InBounds(size, EMOJI_PUT)
  {
    assert EMOJI[..4] == EMOJI && EMOJI[4..] == [];
    EmojiBytes(4);
    assert EMOJI_PUT[..4] == EMOJI_PUT;
    EmojiHeld(size, size);
    assert !Fits(size, EMOJI_PUT, size);
  }

  lemma {:induction false} EmojiBytes(i: nat)
    requires i <= 4
    ensures Bytes(EMOJI_PUT[..i]) == EMOJI[..i]
  {
    if i > 0 {
      EmojiBytes(i - 1);
      assert EMOJI_PUT[..i][..i - 1] == EMOJI_PUT[..i - 1];
    }
  }

  lemma OneMoreStuck(size: nat, ops: seq<Op>, k: nat)
    requires k < |ops|
    ensures Stuck(size, ops[..k + 1]) <==>
            if ops[k].Put? then Stuck(size, ops[..k]) || KeepsAll(size, ops, k) else Stuck(size, ops[..k]) && KeepsAll(size, ops, k)
  {
    assert ops[..k + 1][..k] == ops[..k];
    hide Run, Synced, SyncThrows, Cut;
  }

  lemma {:induction false} NotStuck(size: nat, ops: seq<Op>, stream: seq<Byte>, k: nat)
    requires size >= 4 && Begins(ops, stream) && k <= |ops|
    ensures !Stuck(size, ops[..k])
  {
    if k > 0 {
      NotStuck(size, ops, stream, k - 1);
      NothingThrows(size, ops, stream, k - 1);
      OneMoreStuck(size, ops, k - 1);
      if ops[k - 1].Put? { KeepsAllIffThrows(size, ops, k - 1); }
    }
    hide *;
  }

  /** The sizes that stand every beginning of every valid stream are those from 4 on: a shorter
      buffer is overrun by a single four-byte character. */
  lemma ValidInBoundsIffFour(size: nat)
    ensures (forall ops: seq<Op>, stream: seq<Byte> | Begins(ops, stream) :: InBounds(size, ops)) <==> size >= 4
  {
    if size >= 4 {
      forall ops: seq<Op>, stream: seq<Byte> | Begins(ops, stream) ensures InBounds(size, ops) {
        forall i | 0 <= i < |ops| ensures PutUnstuck(size, ops, i) {
          NotStuck(size, ops, stream, i);
        }
        InBoundsIffNotStuck(size, ops);
      }
    } else {
      EmojiOverruns(size);
    }
  }

  // ---- The buffer itself ----

  class PythonBuf {
    const bufSize: nat
    const dBuffer: array<Byte>
    /** The put position; the put area ends at `bufSize - 1`. */
    var pptr: nat
    var written: seq<seq<Byte>>

    ghost predicate Valid()
      reads this
    {
      dBuffer.Length == bufSize && pptr <= bufSize
    }

    ghost function Contents(): (s: State)
      reads this, dBuffer
      requires Valid()
      ensures |s.held| == pptr
    {
      State(dBuffer[..pptr], written)
    }

    function Written(): (texts: seq<seq<Byte>>)
      reads this, dBuffer
      requires Valid()
      ensures texts == Contents().written
    {
      written
    }

    constructor (bufferSize: nat)
      ensures Valid() && Contents() == START && bufSize == bufferSize && fresh(dBuffer)
    {
      bufSize := bufferSize;
      dBuffer := new Byte[bufferSize];
      pptr, written := 0, [];
    }

    method Text(n: nat) returns (text: seq<Byte>)
      requires Valid() && n <= pptr
      ensures text == Contents().held[..n]
    {
      text := dBuffer[..n];
    }

    /** `memmove` of the last `remainder` bytes to the beginning. */
    method MoveTail(remainder: nat)
      requires Valid() && remainder <= pptr
      modifies dBuffer
      ensures dBuffer[..remainder] == old(dBuffer[pptr - remainder..pptr])
    {
      var from := pptr - remainder;
      forall i | 0 <= i < remainder {
        dBuffer[i] := dBuffer[from + i];
      }
    }

    /** Start again with what follows the first `n` bytes. */
    method KeepTail(n: nat)
      requires Valid() && n <= pptr
      modifies this`pptr, dBuffer
      ensures Valid() && Contents() == old(Contents()).(held := old(Contents()).held[n..])
    {
      Suffix(dBuffer[..], pptr, pptr - n);
      MoveTail(pptr - n);
      pptr := pptr - n;
    }

    /** `utf8_remainder`, for a buffer that is not empty. */
    method Utf8Remainder() returns (r: nat)
      requires Valid() && pptr != 0
      ensures r <= pptr && |Contents().held| - r == Cut(Contents().held)
    {
      r := Remainder(dBuffer[..pptr]);
    }

    /** One call of `write` that returns. */
    method Write(text: seq<Byte>)
      requires Valid()
      modifies this`written
      ensures Valid() && pptr == old(pptr)
      ensures Contents() == old(Contents()).(written := old(Contents()).written + [text])
    {
      written := written + [text];
    }

    /** The text is converted, written and flushed, each of which may throw. */
    method HandOver(text: seq<Byte>, python: Python) returns (thrown: bool)
      requires Valid()
      modifies this`written
      ensures Valid() && pptr == old(pptr) && (thrown <==> !ValidUtf8(text) || !python.Returns?)
      ensures var s := old(Contents());
              Contents() == if !ValidUtf8(text) || python.WriteRaises? then s else s.(written := s.written + [text])
    {
      hide Contents;
      if !ValidUtf8(text) { return true; }
      if python.WriteRaises? { return true; }
      Write(text);
      thrown := python.FlushRaises?;
    }

    /** The part of `do_sync` behind the test for an empty buffer. */
    method SyncSome(python: Python) returns (thrown: bool)
      requires Valid() && pptr != 0
      modifies this, dBuffer
      ensures Valid() && thrown == SyncThrows(old(Contents()), python) && Contents() == Synced(old(Contents()), python)
    {
      hide *;
      thrown := false;
      var remainder := Utf8Remainder();
      var n := pptr - remainder;
      SyncedParts(Contents(), python, n);
      if n > 0 {
        var text := Text(n);
        thrown := HandOver(text, python);
        if thrown { return; }
      }
      KeepTail(n);
    }

    method DoSync(python: Python) returns (thrown: bool)
      requires Valid()
      modifies this, dBuffer
      ensures Valid() && thrown == SyncThrows(old(Contents()), python) && Contents() == Synced(old(Contents()), python)
    {
      thrown := false;
      SyncedNothing(Contents(), python);
      hide *;
      if pptr != 0 {
        thrown := SyncSome(python);
      }
    }

    /** `overflow`, whose store needs room for one byte. When it throws there is no result. */
    method Overflow(c: int, python: Python) returns (thrown: bool, r: int)
      requires Valid() && (c == EOF || 0 <= c < 256) && (c != EOF ==> pptr < bufSize)
      modifies this, dBuffer
      ensures Valid() && (!thrown ==> r != EOF && (c != EOF ==> r == c))
      ensures var s := old(Contents());
              var full := if c == EOF then s else s.(held := s.held + [c as Byte]);
              thrown == SyncThrows(full, python) && Contents() == Synced(full, python)
    {
      if c != EOF { Store(c as Byte); }
      thrown := DoSync(python);
      r := if c == EOF then 0 else c;
    }

    /** One byte at the put position. */
    method Store(c: Byte)
      requires Valid() && pptr < bufSize
      modifies this`pptr, dBuffer
      ensures Valid() && Contents() == old(Contents()).(held := old(Contents()).held + [c])
    {
      dBuffer[pptr] := c;
      pptr := pptr + 1;
      assert dBuffer[..pptr] == old(dBuffer[..pptr]) + [c];
    }

    /** `sputc`. */
    method PutByte(c: Byte, python: Python) returns (thrown: bool)
      requires Valid() && pptr < bufSize
      modifies this, dBuffer
      ensures Valid() && Contents() == After(bufSize, old(Contents()), Put(c, python))
      ensures thrown <==> Syncs(bufSize, old(Contents()), Put(c, python)) && SyncThrows(Full(old(Contents()), Put(c, python)), python)
    {
      hide Contents, Synced, SyncThrows;
      thrown := false;
      if pptr < bufSize - 1 {
        Store(c);
      } else {
        var r;
        thrown, r := Overflow(c as int, python);
      }
    }

    method Apply(op: Op) returns (thrown: bool)
      requires Valid() && (op.Put? ==> |Contents().held| < bufSize)
      modifies this, dBuffer
      ensures Valid() && Contents() == After(bufSize, old(Contents()), op)
      ensures thrown <==> Syncs(bufSize, old(Contents()), op) && SyncThrows(Full(old(Contents()), op), op.python)
    {
      hide Contents, Synced, SyncThrows;
      match op {
        case Put(c, python) => thrown := PutByte(c, python);
        case Sync(python) => thrown := DoSync(python);
      }
    }
  }

  lemma Suffix(b: seq<Byte>, n: nat, r: nat)
    requires r <= n <= |b|
    ensures b[n - r..n] == b[..n][n - r..]
  {
  }

  lemma SyncedNothing(s: State, python: Python)
    ensures s.held == [] ==> Synced(s, python) == s && !SyncThrows(s, python)
  {
  }

  lemma SyncedParts(s: State, python: Python, n: nat)
    requires s.held != [] && n == Cut(s.held)
    ensures var text := s.held[..n];
            && (SyncThrows(s, python) <==> n > 0 && (!ValidUtf8(text) || !python.Returns?))
            && Synced(s, python) ==
               if n > 0 && (!ValidUtf8(text) || python.WriteRaises?) then s
               else if n > 0 && python.FlushRaises? then s.(written := s.written + [text])
               else if n > 0 then s.(written := s.written + [text]).(held := s.held[n..])
               else s.(held := s.held[n..])
  {
    if n == 0 { assert s.held[n..] == s.held; }
  }

  /** A whole run on a fresh buffer, in which no byte is put while the buffer is stuck, stores
      nothing outside. */
  method Stream(size: nat, ops: seq<Op>) returns (written: seq<seq<Byte>>, threw: seq<bool>)
    requires NoStuckPut(size, ops)
    ensures written == Run(size, ops).written
    ensures |threw| == |ops| && Told(size, ops, threw)
  {
    InBoundsIffNotStuck(size, ops);
    var buf := new PythonBuf(size);
    NothingYet(size, ops);
    hide *;
    threw := [];
    while |threw| < |ops|
      invariant fresh(buf) && fresh(buf.dBuffer) && buf.bufSize == size
      invariant |threw| <= |ops| && Told(size, ops, threw)
      invariant buf.Valid() && buf.Contents() == Run(size, ops[..|threw|])
    {
      NextOp(size, ops, |threw|);
      var thrown := buf.Apply(ops[|threw|]);
      OneMoreTold(size, ops, threw, thrown);
      threw := threw + [thrown];
    }
    assert ops[..|threw|] == ops;
    written := buf.Written();
  }

  /** Which of the first operations throw. */
  ghost predicate Told(size: nat, ops: seq<Op>, threw: seq<bool>) {
    |threw| <= |ops| && forall i | 0 <= i < |threw| :: threw[i] == Throws(size, ops, i)
  }

  lemma OneMoreTold(size: nat, ops: seq<Op>, threw: seq<bool>, thrown: bool)
    requires Told(size, ops, threw) && |threw| < |ops| && thrown == Throws(size, ops, |threw|)
    ensures Told(size, ops, threw + [thrown])
  {
    hide Throws;
  }

  lemma NextOp(size: nat, ops: seq<Op>, i: nat)
    requires i < |ops| && InBounds(size, ops)
    ensures var s := Run(size, ops[..i]);
            && (ops[i].Put? ==> |s.held| < size)
            && (Throws(size, ops, i) <==> Syncs(size, s, ops[i]) && SyncThrows(Full(s, ops[i]), ops[i].python))
            && Run(size, ops[..i + 1]) == After(size, s, ops[i])
  {
    OneMoreOp(size, ops, i);
    assert Fits(size, ops, i);
  }

  lemma NothingYet(size: nat, ops: seq<Op>)
    ensures Run(size, ops[..0]) == START && Told(size, ops, [])
  {
    assert ops[..0] == [];
  }
}
