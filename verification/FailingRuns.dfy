/** Runs from the start of the module that show each failure of the pipeline:
    the driver can be given these inputs. */
module FailingRuns {
  import opened Machine
  import opened Wire
  import opened Pipeline
  import opened PipelineRing
  import opened PipelineSessions
  import opened PipelinePages
  import opened Delivery
  import opened GoodRuns

  lemma NothingReady()
    ensures Ready([], [], []) && Quiet(At([]), 0, 0) && Free(At([])) && Split([]) == Files([], [])
    ensures Sleepers([]) == 0
  {
    assert Bytes([]) == [];
  }

  /** A byte sent in any run, good or not. */
  lemma SendAny(ls: seq<Label>, b: byte)
    requires AllTyped(ls) && At(ls).toggle && !At(ls).wild && !At(ls).lockHeld
    requires At(ls).sHead + At(ls).sCount <= INT_MAX
    ensures var more := ls + [HighSample(b)] + [LowSample(b)];
            AllTyped(more) && At(more) == Deliver(At(ls).(top := b as bv8))
  {
    hide Deliver, At, Step, HighSample, LowSample;
    SamplesAre(b);
    SendStep(At(ls), b);
    More(ls, HighSample(b));
    More(ls + [HighSample(b)], LowSample(b));
  }

  // ----- the lock ------------------------------------------------------------

  /** One byte, and the page it needs is refused: the lock is lost. */
  lemma LockLostByRefusal(b: byte) returns (ls: seq<Label>)
    requires b != 0
    ensures AllTyped(ls) && |ls| == 3 && At(ls).lockHeld && RefusedPage(At(ls[..2]), ls[2])
  {
    hide At, Ready, Split, Delivers, Shape, Deliver, HighSample, LowSample, Step, RefusedPage, Drops, Continues;
    NothingReady();
    SendGood([], [], [], b);
    ReadyFacts([], [], []);
    var two := [HighSample(b)] + [LowSample(b)];
    assert [] + [HighSample(b)] + [LowSample(b)] == two;
    RoomAtStart();
    Queues(At([]), b);
    ReadyFacts(two, [] + [b], []);
    var refused := Tasklet(NoPage);
    More(two, refused);
    LockStep(At(two), refused);
    FirstRefused(At(two), refused);
    ls := two + [refused];
    assert ls[..2] == two;
  }

  lemma RoomAtStart()
    ensures var s := At([]); 0 <= Slot(s) && s.cCount == 0 && s.writeOff == 0 && !s.lockHeld && !s.wild
  {
  }

  lemma FirstRefused(s: State, l: Label)
    requires l == Tasklet(NoPage) && s.cCount == 1 && s.writeOff == 0 && !s.lockHeld && !s.wild
    ensures RefusedPage(s, l)
  {
  }

  /** Bytes that no tasklet drains. */
  lemma {:induction false} Undrained(bytes: seq<byte>) returns (ls: seq<Label>)
    requires |bytes| <= BUFFER_CAPACITY && NulFree(bytes)
    ensures Ready(ls, bytes, []) && At(ls).cCount == |bytes| && forall l <- ls :: l.Sample?
  {
    hide At, Ready, Deliver, Split, Delivers, HighSample, LowSample, Slot, Shape, Continues, Bytes, Received, GoodRun;
    if bytes == [] {
      NothingReady();
      EmptyRing();
      ls := [];
    } else {
      var n := |bytes| - 1;
      ls := Undrained(bytes[..n]);
      OneOpenFile(bytes[..n]);
      ReadyFacts(ls, bytes[..n], []);
      SlotOf(At(ls), Split(bytes[..n]), []);
      SendGood(ls, bytes[..n], [], bytes[n]);
      SamplesAre(bytes[n]);
      Grows(At(ls), bytes[n]);
      ls := ls + [HighSample(bytes[n])] + [LowSample(bytes[n])];
      assert bytes[..n] + [bytes[n]] == bytes;
    }
  }

  lemma OneOpenFile(bytes: seq<byte>)
    requires NulFree(bytes)
    ensures Split(bytes) == Files([], bytes)
  {
    NothingReady();
    SplitClean([], bytes);
    assert [] + bytes == bytes;
  }

  lemma EmptyRing()
    ensures At([]).cCount == 0
  {
  }

  lemma Grows(s: State, b: byte)
    requires Shape(s) && s.cCount < BUFFER_CAPACITY && b != 0 && 0 <= Slot(s)
    ensures Deliver(s.(top := b as bv8)).cCount == s.cCount + 1
  {
    ByteBack(b);
  }

  lemma Overflows(s: State, b: byte)
    requires Shape(s) && s.cCount == BUFFER_CAPACITY && b != 0
    ensures Deliver(s.(top := b as bv8)).lockHeld
  {
    ByteBack(b);
  }

  /** Sixty-five bytes in a row: the last one is dropped and the lock is lost. */
  lemma LockLostByDrop(bytes: seq<byte>) returns (ls: seq<Label>)
    requires |bytes| == 65 && NulFree(bytes)
    ensures AllTyped(ls) && At(ls).lockHeld && (forall l <- ls :: l.Sample?) && Bytes(Samples(ls)) == bytes
    ensures ls != [] && Drops(At(ls[..|ls| - 1]), ls[|ls| - 1])
    ensures Assembled(At(ls[..|ls| - 1]), ls[|ls| - 1]) == bytes[64]
  {
    hide At, Ready, Drops, HighSample, LowSample, Samples, Bytes, Assembled;
    var n := BUFFER_CAPACITY;
    var b := bytes[n];
    var full := Undrained(bytes[..n]);
    SamplesAre(b);
    DroppedByte(full, bytes[..n], b);
    SentBytes(full, bytes[..n], b);
    var half := full + [HighSample(b)];
    ls := half + [LowSample(b)];
    assert ls[..|ls| - 1] == half && bytes[..n] + [b] == bytes;
  }

  /** A byte that finds the ring full. */
  lemma DroppedByte(ls: seq<Label>, sent: seq<byte>, b: byte)
    requires Ready(ls, sent, []) && At(ls).cCount == BUFFER_CAPACITY && b != 0
    ensures var half := ls + [HighSample(b)];
            && AllTyped(half) && AllTyped(half + [LowSample(b)])
            && Drops(At(half), LowSample(b)) && Assembled(At(half), LowSample(b)) == b
            && At(half + [LowSample(b)]).lockHeld
  {
    hide At, Ready, Deliver, HighSample, LowSample, Step, Split, Delivers, Shape, GoodRun, Sleepers, Samples, Bytes,
      Received, Assembles, Assembled;
    ReadyFacts(ls, sent, []);
    SendAny(ls, b);
    Overflows(At(ls), b);
    SamplesAre(b);
    SendStep(At(ls), b);
    More(ls, HighSample(b));
  }

  /** What the samples of one more byte add. */
  lemma SentBytes(ls: seq<Label>, sent: seq<byte>, b: byte)
    requires Ready(ls, sent, [])
    ensures Bytes(Samples(ls + [HighSample(b)] + [LowSample(b)])) == sent + [b]
  {
    hide Bytes, HighSample, LowSample, At, GoodRun, Received;
    SamplesAre(b);
    var half := ls + [HighSample(b)];
    More(ls, HighSample(b));
    More(half, LowSample(b));
    BytesAppend(Samples(ls), HighSample(b).pins);
    BytesAppend(Samples(half), LowSample(b).pins);
  }

  // ----- an empty session ------------------------------------------------------

  /** An empty file, one byte of the next, and a read: the read returns nothing
      and frees the page with the byte on it, which is then nowhere. */
  lemma EmptyReadLosesByte(b: byte, count: int) returns (ls: seq<Label>)
    requires b != 0 && 0 <= count < U32_MOD
    ensures AllTyped(ls) && StreamOk(At(ls)) && Stream(At(ls)) == [b] && Contents(At(ls)) == []
    ensures ReadCall(At(ls), count).1 == Data([])
    ensures ReadCall(At(ls), count).0.pages == []
  {
    hide At, Ready, Quiet, Split, Frame, Stream, StreamOk, Contents, Bytes, Samples, Received, GoodRun, ReadCall,
      Delivers, Shape;
    NothingReady();
    FrameNothing();
    var files: seq<seq<byte>> := [[]];
    ls := CloseGood([], [], [], 0, 0);
    FrameAppend([], []);
    assert [] + [[]] == files && Frame([]) + [] + [0] == [] + [0];
    SplitOfFrame(files);
    SplitAppend(Frame(files), b);
    ls := StoreGood(ls, Frame(files), [], b, 0, 0);
    var sent := Frame(files) + [b];
    ReadyFacts(ls, sent, []);
    QuietFacts(At(ls), 1, 0);
    OpenGood(ls, sent, []);
    ls := ls + [Open(0)];
    ReadyFacts(ls, sent, []);
    assert Split(sent) == Files([[]], [b]);
    LoseByte(At(ls), b, count);
  }

  lemma FrameNothing()
    ensures Frame([]) + [] == []
  {
  }

  lemma QuietFacts(s: State, used: nat, read: nat)
    requires Quiet(s, used, read)
    ensures s.cCount == 0 && s.readOff == read % PAGE_SIZE && s.writeOff == used % PAGE_SIZE
    ensures read < PAGE_SIZE ==> s.dataSize == used
  {
  }

  lemma LoseByte(s: State, b: byte, count: int)
    requires Delivers(s, Files([[]], [b]), []) && s.cCount == 0 && s.readOff == 0 && s.dataSize == 1 && !s.fin
    requires 0 <= count < U32_MOD
    ensures StreamOk(s) && Stream(s) == [b] && Contents(s) == []
    ensures ReadCall(s, count).1 == Data([]) && ReadCall(s, count).0.pages == []
  {
    hide Contents, TakeSession, Stream, Shape;
    CalmIs(s);
    ContentsLength(s);
    var f := Files([[]], [b]);
    assert f.closed[0..] == f.closed;
    ConcatFirst(f.closed);
    assert f.closed[1..] == [] && Concat<byte>([]) == [];
    assert Outstanding(f, 0) == [b];
    NextSize(s, Files([[]], [b]), []);
    EmptyRead(s, count);
  }

  // ----- a session longer than a page ----------------------------------------------

  /** One page is full, and one more byte arrives and is drained. */
  lemma SecondPage(bytes: seq<byte>) returns (ls: seq<Label>)
    requires |bytes| == PAGE_SIZE + 1 && NulFree(bytes)
    ensures AllTyped(ls) && StreamOk(At(ls)) && Stream(At(ls)) == bytes && LongSession(At(ls))
    ensures Accepted(ls) == bytes
  {
    hide At, Ready, Quiet, Split, Frame, Stream, Bytes, Samples, Received, GoodRun, Deliver, DrainOne, Shape, Delivers,
      ZeroPage, HighSample, LowSample, LongSession, Accepted;
    NothingReady();
    FrameNothing();
    var part, b := bytes[..PAGE_SIZE], bytes[PAGE_SIZE];
    ls := SendFile([], [], part, 0);
    assert Frame([]) + part == part;
    SplitClean([], part);
    assert [] + part == part;
    ReadyFacts(ls, part, []);
    QuietFacts(At(ls), PAGE_SIZE, 0);
    SlotOf(At(ls), Split(part), []);
    SendGood(ls, part, [], b);
    Queues(At(ls), b);
    ls := ls + [HighSample(b)] + [LowSample(b)];
    ReadyFacts(ls, part + [b], []);
    SplitAppend(part, b);
    PageFull(At(ls), part, b);
    var l := Tasklet(ZeroPage());
    TaskletIs(At(ls), ZeroPage());
    More(ls, l);
    AllAccepted(ls);
    AcceptsNothing(ls, l);
    ls := ls + [l];
    assert part + [b] == bytes;
  }

  lemma AcceptsNothing(ls: seq<Label>, l: Label)
    requires AllTyped(ls) && Typed(l) && !l.Sample?
    ensures AllTyped(ls + [l]) && Accepted(ls + [l]) == Accepted(ls)
  {
    hide At;
    assert (ls + [l])[..|ls|] == ls;
    OnlySamples(At(ls), l);
    assert Accepted(ls) + [] == Accepted(ls);
  }

  /** A session of 4097 bytes on two pages, none of it read. */
  predicate LongSession(s: State) {
    && Shape(s) && s.toggle && !s.wild && !s.lockHeld && PageArith(s)
    && s.cCount == 0 && s.readOff == 0 && s.dataSize == PAGE_SIZE + 1
    && s.sHead == 0 && s.sCount == 0 && s.sizes[0] == PAGE_SIZE + 1 && s.nprocs < s.maxProcs
  }

  lemma PageFull(s: State, part: seq<byte>, b: byte)
    requires Delivers(s, Files([], part + [b]), []) && |part| == PAGE_SIZE && s.cCount == 1 && s.toggle
    requires s.readOff == 0 && s.writeOff == 0 && s.dataSize == PAGE_SIZE && s.nprocs < s.maxProcs
    ensures Shape(s) && !s.wild && !s.lockHeld
    ensures var t := DrainOne(s, ZeroPage());
            StreamOk(t) && Stream(t) == part + [b] && LongSession(t)
  {
    hide Contents, DrainOne, Stream, ZeroPage, Shape, PageArith, Concat;
    CalmIs(s);
    ContentsLength(s);
    HeadByte(s);
    OnPage(s, part, b);
    DrainOneFacts(s, ZeroPage());
    DrainOneArith(s, ZeroPage());
    DrainedByteIff(s, ZeroPage());
    DrainOneFrame(s, ZeroPage());
    ShapeFacts(s);
  }

  lemma OnPage(s: State, part: seq<byte>, b: byte)
    requires Delivers(s, Files([], part + [b]), []) && |part| == PAGE_SIZE && s.cCount == 1
    requires s.readOff == 0 && s.dataSize == PAGE_SIZE
    ensures Shape(s) && 0 <= s.cHead < |s.cBuf| && s.cBuf[s.cHead] == b
    ensures StreamOk(s) && Stream(s) == part && |s.pages| == 1 && s.numPages == 1
    ensures |s.sizes| == MAX_SESSIONS && s.sizes[0] == PAGE_SIZE + 1 && s.sHead == 0 && s.sCount == 0
  {
    hide Concat;
    CalmIs(s);
    ContentsLength(s);
    HeadByte(s);
    assert Outstanding(Files([], part + [b]), 0) == part + [b] by {
      assert Concat<byte>([]) == [];
    }
    var stream := Stream(s);
    assert |stream| == PAGE_SIZE;
    assert (stream + Contents(s))[..PAGE_SIZE] == stream;
    assert (part + [b])[..PAGE_SIZE] == part;
    assert (stream + Contents(s))[PAGE_SIZE] == Contents(s)[0];
  }

  /** A further byte that differs from the second one of the session: it is
      accepted and drained, but the tasklet stores it over that second byte, on
      the first page, and not behind the others. */
  lemma OverwrittenByte(bytes: seq<byte>, b: byte) returns (ls: seq<Label>)
    requires |bytes| == 4097 && NulFree(bytes) && b != 0 && b != bytes[1]
    ensures AllTyped(ls) && Accepted(ls) == bytes + [b] && Contents(At(ls)) == [] && StreamOk(At(ls))
    ensures |Stream(At(ls))| == |bytes| + 1 && Stream(At(ls))[..|bytes|] == bytes[1 := b]
    ensures Stream(At(ls)) != bytes + [b]
  {
    hide At, Stream, StreamOk, Deliver, DrainOne, Shape, HighSample, LowSample, LongSession, ZeroPage, Accepted,
      Contents;
    ls := SecondPage(bytes);
    LongFacts(At(ls));
    SendAny(ls, b);
    SendAccepted(ls, b);
    ByteAtHead(At(ls), b);
    var t := Deliver(At(ls).(top := b as bv8));
    Queues(At(ls), b);
    SamePages(At(ls), t);
    ls := ls + [HighSample(b)] + [LowSample(b)];
    WrongPlace(t, bytes, b);
    TaskletIs(t, ZeroPage());
    More(ls, Tasklet(ZeroPage()));
    AcceptsNothing(ls, Tasklet(ZeroPage()));
    ls := ls + [Tasklet(ZeroPage())];
    ContentsLength(At(ls));
    assert (bytes + [b])[1] == bytes[1] && bytes[1 := b][1] == b;
  }

  lemma LongFacts(s: State)
    requires LongSession(s)
    ensures Shape(s) && s.toggle && !s.wild && !s.lockHeld && s.sHead + s.sCount <= INT_MAX && 0 <= Slot(s)
    ensures s.sHead == 0 && PageArith(s) && s.cCount == s.sCount == 0 && s.readOff == 0 && s.dataSize == PAGE_SIZE + 1
  {
  }

  lemma ByteAtHead(s: State, b: byte)
    requires LongSession(s) && b != 0
    ensures Shape(s.(top := b as bv8))
    ensures var t := Deliver(s.(top := b as bv8));
            Shape(t) && 0 <= t.cHead < |t.cBuf| && t.cBuf[t.cHead] == b
  {
    ByteBack(b);
  }

  lemma SamePages(s: State, t: State)
    requires StreamOk(s) && PageArith(s) && Shape(t) && t.pages == s.pages && t.numPages == s.numPages
    requires t.readOff == s.readOff && t.writeOff == s.writeOff && t.dataSize == s.dataSize
    ensures StreamOk(t) && Stream(t) == Stream(s) && PageArith(t)
  {
    hide Concat;
  }

  lemma WrongPlace(t: State, bytes: seq<byte>, b: byte)
    requires StreamOk(t) && Stream(t) == bytes && PageArith(t) && t.cCount == 1 && !t.lockHeld && !t.wild
    requires t.readOff == 0 && t.dataSize == PAGE_SIZE + 1 == |bytes| && b != bytes[1]
    requires 0 <= t.cHead < |t.cBuf| && t.cBuf[t.cHead] == b
    ensures var u := DrainOne(t, ZeroPage());
            StreamOk(u) && u.cCount == 0 && |Stream(u)| == |bytes| + 1 && Stream(u)[..|bytes|] == bytes[1 := b]
  {
    hide DrainOne, Concat, ZeroPage;
    DrainOneFacts(t, ZeroPage());
    DrainOnePages(t, ZeroPage());
    var u := DrainOne(t, ZeroPage());
    ConcatUpdate(t.pages, 1, b);
    PagesLength(t.pages);
    PagesLength(u.pages);
    var all := Concat(t.pages);
    assert all[0..|bytes|] == bytes;
    SliceTake(all[1 := b], 0, |bytes| + 1, |bytes|);
    assert all[1 := b][0..|bytes|] == all[0..|bytes|][1 := b];
  }

  /** A session of 4097 bytes, closed and drained, is not delivered although it
      is asked for in full. */
  lemma LongSessionNotDelivered(bytes: seq<byte>) returns (ls: seq<Label>)
    requires |bytes| == 4097 && NulFree(bytes)
    ensures AllTyped(ls) && StreamOk(At(ls)) && Stream(At(ls)) == bytes
    ensures At(ls).sCount == 1 && At(ls).sHead == 0 && At(ls).sizes[0] == |bytes| && !At(ls).fin
    ensures ReadCall(At(ls), |bytes|).1 != Data(bytes) && Accepted(ls) == bytes + [0]
  {
    hide At, Stream, StreamOk, Deliver, DrainOne, Shape, HighSample, LowSample, LongSession, ReadCall, Accepted;
    ls := SecondPage(bytes);
    LongFacts(At(ls));
    SendAny(ls, 0);
    SendAccepted(ls, 0);
    Closes(At(ls));
    var t := At(ls).(top := 0, sCount := At(ls).sCount + 1);
    ClosedLong(At(ls), t, bytes);
    ls := ls + [HighSample(0)] + [LowSample(0)];
    OpenIs(t);
    More(ls, Open(0));
    AcceptsNothing(ls, Open(0));
    ls := ls + [Open(0)];
  }

  lemma OpenIs(t: State)
    requires Shape(t) && !t.wild && t.nprocs < t.maxProcs
    ensures Step(t, Open(0)) == (t.(fin := false, nprocs := t.nprocs + 1), Code(0))
  {
  }

  lemma ClosedLong(s: State, t: State, bytes: seq<byte>)
    requires LongSession(s) && StreamOk(s) && Stream(s) == bytes && |bytes| == PAGE_SIZE + 1
    requires t == s.(top := 0, sCount := s.sCount + 1)
    ensures Shape(t) && !t.wild && t.nprocs < t.maxProcs
    ensures var u := t.(fin := false, nprocs := t.nprocs + 1);
            && StreamOk(u) && Stream(u) == bytes && u.sCount == 1 && u.sHead == 0 && u.sizes[0] == |bytes|
            && ReadCall(u, |bytes|).1 != Data(bytes)
  {
    hide Concat, TakeSession, Walk;
    var u := t.(fin := false, nprocs := t.nprocs + 1);
    ReadPromiseIff(u, |bytes|);
    assert Stream(u)[..|bytes|] == bytes;
  }

  // ----- a slot used twice ---------------------------------------------------------------

  function Zeros(n: nat): (r: seq<byte>)
    ensures |r| == n
  {
    if n == 0 then [] else Zeros(n - 1) + [0]
  }

  lemma {:induction false} SplitZeros(b: byte, n: nat)
    requires b != 0 && n > 0
    ensures var f := Split([b] + Zeros(n)); |f.closed| == n && f.open == [] && f.closed[0] == [b]
  {
    hide Split;
    if n == 1 {
      SplitAppend([], b);
      NothingReady();
      assert [] + [b] == [b] && [b] + Zeros(0) == [b] && Zeros(1) == [] + [0];
      SplitAppend([b], 0);
      assert [b] + Zeros(1) == [b] + [0];
    } else {
      SplitZeros(b, n - 1);
      SplitAppend([b] + Zeros(n - 1), 0);
      assert [b] + Zeros(n) == [b] + Zeros(n - 1) + [0];
    }
  }

  /** One byte and then n NULs, with no tasklet. */
  lemma {:induction false} ByteAndZeros(b: byte, n: nat) returns (ls: seq<Label>)
    requires b != 0 && n <= MAX_SESSIONS
    ensures Ready(ls, [b] + Zeros(n), []) && At(ls).cCount == 1
  {
    hide At, Ready, Deliver, Split, HighSample, LowSample, Shape, Delivers;
    if n == 0 {
      ls := Undrained([b]);
      assert [b] + Zeros(0) == [b];
    } else {
      ls := ByteAndZeros(b, n - 1);
      ClosedZeros(b, n - 1);
      ReadyFacts(ls, [b] + Zeros(n - 1), []);
      CountSmall(At(ls), Split([b] + Zeros(n - 1)), []);
      SendGood(ls, [b] + Zeros(n - 1), [], 0);
      Closes(At(ls));
      ls := ls + [HighSample(0)] + [LowSample(0)];
      assert [b] + Zeros(n) == [b] + Zeros(n - 1) + [0];
    }
  }

  lemma ClosedZeros(b: byte, n: nat)
    requires b != 0
    ensures |Split([b] + Zeros(n)).closed| == n
  {
    hide Split;
    if n > 0 {
      SplitZeros(b, n);
    } else {
      NothingReady();
      SplitAppend([], b);
      assert [b] + Zeros(0) == [] + [b];
    }
  }

  /** The 101st session uses the slot of the first again: with one byte in each
      the slot is wrong for both. */
  lemma SlotUsedTwice(b: byte, c: byte) returns (ls: seq<Label>)
    requires b != 0 && c != 0
    ensures AllTyped(ls) && Accepted(ls) == [b] + Zeros(100) + [c]
    ensures |Sessions(Accepted(ls))| == 101
    ensures At(ls).sizes[0] != |Sessions(Accepted(ls))[0]| && At(ls).sizes[0] != |Sessions(Accepted(ls))[100]|
  {
    hide At, Ready, Deliver, Split, HighSample, LowSample, Shape, Delivers, Accepted, Sessions, SlotUnshared;
    var n := MAX_SESSIONS;
    ls := ByteAndZeros(b, n);
    var sent := [b] + Zeros(n);
    ReadyFacts(ls, sent, []);
    AllAccepted(ls);
    CountSmall(At(ls), Split(sent), []);
    RoomForOne(At(ls), Split(sent), []);
    SendAccepted(ls, c);
    ls := ls + [HighSample(c)] + [LowSample(c)];
    TwoSessions(b, c);
    SlotHoldsIff(ls, 0);
    SlotHoldsIff(ls, n);
  }

  lemma RoomForOne(s: State, f: Files, out: seq<seq<byte>>)
    requires Delivers(s, f, out)
    ensures s.sHead + s.sCount >= 0
  {
    hide Contents, Concat;
  }

  /** A byte sent in any run with room for it is accepted. */
  lemma SendAccepted(ls: seq<Label>, b: byte)
    requires AllTyped(ls) && At(ls).toggle && !At(ls).wild && !At(ls).lockHeld
    requires 0 <= At(ls).sHead + At(ls).sCount <= INT_MAX
    requires if b == 0 then At(ls).sCount < INT_MAX else At(ls).cCount < BUFFER_CAPACITY
    ensures var more := ls + [HighSample(b)] + [LowSample(b)];
            AllTyped(more) && Accepted(more) == Accepted(ls) + [b]
  {
    hide Deliver, At, Step, HighSample, LowSample, Assembles, Assembled;
    SamplesAre(b);
    SendStep(At(ls), b);
    More(ls, HighSample(b));
    var half := ls + [HighSample(b)];
    var more := half + [LowSample(b)];
    assert half[..|ls|] == ls && more[..|half|] == half;
    FirstTakesNothing(At(ls), HighSample(b));
    assert Accepted(ls) + [] == Accepted(ls);
    assert AllTyped(more);
  }

  lemma FirstTakesNothing(s: State, l: Label)
    requires s.toggle
    ensures Taken(s, l) == []
  {
  }

  lemma TwoSessions(b: byte, c: byte)
    requires b != 0 && c != 0
    ensures var n, sessions := MAX_SESSIONS, Sessions([b] + Zeros(MAX_SESSIONS) + [c]);
            && |sessions| == n + 1 && sessions[0] == [b] && sessions[n] == [c]
            && !SlotUnshared(sessions, 0) && !SlotUnshared(sessions, n)
  {
    hide Split, Zeros;
    var n := MAX_SESSIONS;
    SplitZeros(b, n);
    SplitAppend([b] + Zeros(n), c);
    var sessions := Sessions([b] + Zeros(n) + [c]);
    assert [] + [c] == [c];
    assert sessions[n] != [] && n % MAX_SESSIONS == 0 && sessions[0] != [];
  }

  // ----- more than one session in an open --------------------------------------------------

  lemma SameReply(a: seq<Label>, c: seq<Label>, k: nat)
    requires AllTyped(a) && AllTyped(c) && a <= c && k < |a|
    ensures c[k] == a[k] && Reply(c, k) == Reply(a, k)
  {
    hide At, Step;
    assert c[..k] == a[..k];
  }

  lemma LastReply(ls: seq<Label>, l: Label)
    requires AllTyped(ls) && Typed(l)
    ensures AllTyped(ls + [l]) && Reply(ls + [l], |ls|) == Step(At(ls), l).1
  {
    hide At, Step;
    assert (ls + [l])[..|ls|] == ls;
  }

  /** A read that goes to sleep. */
  lemma WaitGood(ls: seq<Label>, sent: seq<byte>, out: seq<seq<byte>>)
    requires Ready(ls, sent, out) && Sleeps(At(ls)) && !At(ls).fin
    ensures Ready(ls + [Read(1)], sent, out) && At(ls + [Read(1)]) == At(ls)
    ensures Sleepers(ls + [Read(1)]) == Sleepers(ls) + 1 && Reply(ls + [Read(1)], |ls|) == Waiting
  {
    hide Split, Bytes, At, Received, GoodRun, Delivers, Samples, Shape, Sleepers, TakeSession, Reply;
    ReadyFacts(ls, sent, out);
    GoodMore(ls, Read(1));
    More(ls, Read(1));
    LastReply(ls, Read(1));
    assert out + [] == out && Samples(ls) + [] == Samples(ls);
  }

  /** The next file, all of it drained, can be read. */
  lemma FairNext(s: State, f: Files, out: seq<seq<byte>>, count: int)
    requires Delivers(s, f, out) && s.cCount == 0 && f.open == [] && |out| < |f.closed|
    requires |f.closed[|out|]| <= count
    requires f.closed[|out|] == [] ==> s.dataSize == 0
    ensures Shape(s) && FairRead(s, count) && s.sizes[s.sHead] == |f.closed[|out|]|
    ensures f.closed[|out|] == [] ==> s.pages == []
  {
    hide Contents;
    CalmIs(s);
    ContentsLength(s);
    NextSize(s, f, out);
    var rest := f.closed[|out|..];
    ConcatFirst(rest);
    assert rest[0] == f.closed[|out|];
    assert |Stream(s)| == |Outstanding(f, |out|)|;
  }

  /** A step that takes a session: a sleeper that goes on, or a read. */
  lemma TakeGood(ls: seq<Label>, sent: seq<byte>, f: Files, out: seq<seq<byte>>, l: Label)
    requires Ready(ls, sent, out) && Split(sent) == f && Typed(l) && Takes(At(ls), l)
    requires At(ls).cCount == 0 && f.open == [] && |out| < |f.closed| && |f.closed[|out|]| <= l.count
    requires f.closed[|out|] == [] ==> At(ls).dataSize == 0
    requires l.Woken? ==> Sleepers(ls) > 0
    ensures Ready(ls + [l], sent, out + [f.closed[|out|]]) && At(ls + [l]).cCount == 0
    ensures Reply(ls + [l], |ls|) == Data(f.closed[|out|])
    ensures Sleepers(ls + [l]) == Sleepers(ls) - if l.Woken? then 1 else 0
    ensures f.closed[|out|] == [] ==> At(ls + [l]).dataSize == At(ls).dataSize && At(ls + [l]).fin == At(ls).fin
  {
    hide Split, Bytes, At, Received, GoodRun, Delivers, Samples, Shape, Sleepers, TakeSession, Reply, FairRead;
    ReadyFacts(ls, sent, out);
    FairNext(At(ls), f, out, l.count);
    TakeStep(At(ls), f, out, l);
    GoodMore(ls, l);
    More(ls, l);
    LastReply(ls, l);
    assert Samples(ls) + [] == Samples(ls);
  }

  lemma TakeStep(s: State, f: Files, out: seq<seq<byte>>, l: Label)
    requires Delivers(s, f, out) && Shape(s) && Typed(l) && Takes(s, l) && FairRead(s, l.count) && s.cCount == 0
    requires |out| < |f.closed| && s.sizes[s.sHead] == |f.closed[|out|]|
    requires f.closed[|out|] == [] ==> s.pages == []
    ensures Respects(s, l, |f.closed|)
    ensures var (t, r) := Step(s, l);
            && r == Data(f.closed[|out|]) && t.cCount == 0
            && (f.closed[|out|] == [] ==> t.dataSize == s.dataSize && t.fin == s.fin)
  {
    hide TakeSession, Contents, Concat, Delivers;
    ReadDelivers(s, f, out, l.count);
    TakeFrame(s, l.count);
    if f.closed[|out|] == [] {
      EmptyRead(s, l.count);
    }
  }

  lemma WokenTakes(ls: seq<Label>, sent: seq<byte>, out: seq<seq<byte>>)
    requires Ready(ls, sent, out)
    ensures AllTyped(ls) && Takes(At(ls), Woken(1)) && Typed(Woken(1))
  {
    hide At;
    ReadyFacts(ls, sent, out);
  }

  lemma SplitTwo(b: byte, c: byte)
    requires b != 0 && c != 0
    ensures Split([b, 0, c, 0]) == Files([[b], [c]], [])
    ensures |Split([]).closed| == |Split([b]).closed| == 0
    ensures |Split([b, 0]).closed| == |Split([b, 0, c]).closed| == 1
  {
    hide Split;
    NothingReady();
    SplitNext([], Files([], []), b, [b]);
    SplitNext([b], Files([], [b]), 0, [b, 0]);
    SplitNext([b, 0], Files([[b]], []), c, [b, 0, c]);
    SplitNext([b, 0, c], Files([[b]], [c]), 0, [b, 0, c, 0]);
  }

  lemma SplitNext(bytes: seq<byte>, f: Files, b: byte, more: seq<byte>)
    requires Split(bytes) == f && more == bytes + [b]
    ensures Split(more) == if b == 0 then Files(f.closed + [f.open], []) else Files(f.closed, f.open + [b])
  {
    SplitAppend(bytes, b);
  }

  /** The device is opened, and two reads wait. */
  lemma BothAsleep() returns (ls: seq<Label>)
    ensures ls == [Open(0), Read(1), Read(1)] && Ready(ls, [], []) && Quiet(At(ls), 0, 0) && Sleepers(ls) == 2
    ensures AllTyped(ls) && Reply(ls, 1) == Reply(ls, 2) == Waiting
  {
    hide At, Ready, Sleepers, Reply, Start, Sleeps, Quiet, Split, Delivers, GoodRun, Shape, Bytes, Samples, Received;
    NothingReady();
    FreeAtStart();
    OpenGood([], [], []);
    ls := [Open(0)];
    assert [] + [Open(0)] == ls;
    AtStart();
    NoSession(At([]).(fin := false, nprocs := At([]).nprocs + 1));
    WaitGood(ls, [], []);
    var one := ls + [Read(1)];
    WaitGood(one, [], []);
    ls := one + [Read(1)];
    ReadyFacts(ls, [], []);
    ReadyFacts(one, [], []);
    SameReply(one, ls, 1);
  }

  lemma FreeAtStart()
    ensures At([]).nprocs < At([]).maxProcs && !At([]).fin
  {
  }

  lemma AtStart()
    ensures At([]) == Start()
  {
  }

  lemma NoSession(s: State)
    requires s == Start().(fin := false, nprocs := Start().nprocs + 1)
    ensures Sleeps(s) && !s.fin && Quiet(s, 0, 0)
  {
  }

  /** Two files of one byte each arrive and are drained. */
  lemma TwoFiles(ls: seq<Label>, b: byte, c: byte) returns (full: seq<Label>)
    requires Ready(ls, [], []) && Quiet(At(ls), 0, 0) && b != 0 && c != 0
    ensures Ready(full, [b, 0, c, 0], []) && Quiet(At(full), 2, 0) && Continues(ls, full)
  {
    hide At, Ready, Quiet, Split, Sleepers, Continues;
    SplitTwo(b, c);
    var one := StoreGood(ls, [], [], b, 0, 0);
    assert [] + [b] == [b];
    var two := CloseGood(one, [b], [], 1, 0);
    assert [b] + [0] == [b, 0];
    var three := StoreGood(two, [b, 0], [], c, 1, 0);
    assert [b, 0] + [c] == [b, 0, c];
    full := CloseGood(three, [b, 0, c], [], 2, 0);
    assert [b, 0, c] + [0] == [b, 0, c, 0];
    ContinuesOn(ls, one, two);
    ContinuesOn(ls, two, three);
    ContinuesOn(ls, three, full);
  }

  /** Two reads of one open go to sleep; two files arrive; both reads go on, and
      the one open has yielded two sessions. */
  lemma TwoSessionsInOneOpen(b: byte, c: byte) returns (ls: seq<Label>)
    requires b != 0 && c != 0
    ensures AllTyped(ls) && GoodRun(ls) && |ls| > 4 && ls[0] == Open(0) && NoOpen(ls, 1, |ls|)
    ensures ls[1] == ls[2] == Read(1) && Reply(ls, 1) == Reply(ls, 2) == Waiting
    ensures ls[|ls| - 2] == ls[|ls| - 1] == Woken(1)
    ensures Reply(ls, |ls| - 2) == Data([b]) && Reply(ls, |ls| - 1) == Data([c])
  {
    hide At, Ready, Quiet, Split, Sleepers, Reply, GoodRun, Shape, Takes, SameUse;
    var start := BothAsleep();
    var full := TwoFiles(start, b, c);
    var sent := [b, 0, c, 0];
    var f := Files([[b], [c]], []);
    SplitTwo(b, c);
    QuietFacts(At(full), 2, 0);
    WokenTakes(full, sent, []);
    TakeGood(full, sent, f, [], Woken(1));
    var once := full + [Woken(1)];
    assert [] + [f.closed[0]] == [[b]];
    WokenTakes(once, sent, [[b]]);
    TakeGood(once, sent, f, [[b]], Woken(1));
    ls := once + [Woken(1)];
    ReadyFacts(ls, sent, [[b]] + [[c]]);
    SameReply(start, ls, 1);
    SameReply(start, ls, 2);
    SameReply(once, ls, |full|);
    assert forall k | 0 <= k < |full| :: ls[k] == full[k];
  }

  /** An empty file is sent: nothing is stored and the device stays free. */
  lemma EmptyFile(ls: seq<Label>, sent: seq<byte>)
    requires Ready(ls, sent, []) && Quiet(At(ls), 0, 0) && Free(At(ls)) && |Split(sent).closed| < MAX_SESSIONS
    ensures var more := ls + [HighSample(0)] + [LowSample(0)];
            Ready(more, sent + [0], []) && Quiet(At(more), 0, 0) && Free(At(more))
  {
    hide At, Ready, Split, Sleepers, Continues, Delivers, Shape, Deliver, HighSample, LowSample;
    ReadyFacts(ls, sent, []);
    CountSmall(At(ls), Split(sent), []);
    SendGood(ls, sent, [], 0);
    Closes(At(ls));
  }

  /** A session is there for a read that starts. */
  lemma ReadTakes(ls: seq<Label>, sent: seq<byte>, out: seq<seq<byte>>)
    requires Ready(ls, sent, out) && !At(ls).fin && |out| < |Split(sent).closed|
    ensures AllTyped(ls) && Takes(At(ls), Read(1)) && Typed(Read(1))
  {
    hide At, Contents, Concat;
    ReadyFacts(ls, sent, out);
  }

  lemma SplitZeroZero()
    ensures Split([0, 0]) == Files([[], []], []) && Split([0]) == Files([[]], [])
  {
    hide Split;
    NothingReady();
    SplitNext([], Files([], []), 0, [0]);
    SplitNext([0], Files([[]], []), 0, [0, 0]);
  }

  /** Two empty files are sent, and the device is opened. */
  lemma TwoEmptyFiles() returns (ls: seq<Label>)
    ensures Ready(ls, [0, 0], []) && AllTyped(ls) && |ls| == 5 && ls[4] == Open(0)
    ensures At(ls).cCount == 0 && At(ls).dataSize == 0 && !At(ls).fin
  {
    hide At, Ready, Quiet, Split, Sleepers, GoodRun, Shape, HighSample, LowSample, Delivers, Bytes, Samples, Received;
    NothingReady();
    SplitZeroZero();
    EmptyFile([], []);
    var one := [HighSample(0)] + [LowSample(0)];
    assert [] + [HighSample(0)] + [LowSample(0)] == one && [] + [0] == [0] && [0] + [0] == [0, 0];
    EmptyFile(one, [0]);
    var two := one + [HighSample(0)] + [LowSample(0)];
    ReadyTyped(two, [0, 0], []);
    QuietFacts(At(two), 0, 0);
    OpenGood(two, [0, 0], []);
    ls := two + [Open(0)];
    ReadyFacts(ls, [0, 0], []);
  }

  /** Two empty files and one open: the first read returns nothing and leaves the
      open as it was, and the second takes the second file. */
  lemma EmptyFilesInOneOpen() returns (ls: seq<Label>)
    ensures AllTyped(ls) && GoodRun(ls) && |ls| == 7 && ls[4..] == [Open(0), Read(1), Read(1)]
    ensures Reply(ls, 5) == Reply(ls, 6) == Data([])
  {
    hide At, Ready, Split, Sleepers, Reply, GoodRun, Shape, Takes, Delivers, Bytes, Samples, Received;
    var f := Files([[], []], []);
    SplitZeroZero();
    var start := TwoEmptyFiles();
    ReadTakes(start, [0, 0], []);
    TakeGood(start, [0, 0], f, [], Read(1));
    var once := start + [Read(1)];
    var first := [f.closed[0]];
    assert [] + first == first;
    ReadTakes(once, [0, 0], first);
    TakeGood(once, [0, 0], f, first, Read(1));
    ls := once + [Read(1)];
    ReadyFacts(ls, [0, 0], first + [f.closed[1]]);
    SameReply(once, ls, 5);
  }
}
