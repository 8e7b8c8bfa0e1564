/** Good runs exist: for every list of files that fits the limits of the driver
    there is a run that delivers all of them. */
module GoodRuns {
  import opened Machine
  import opened Wire
  import opened Pipeline
  import opened PipelineRing
  import opened PipelineSessions
  import opened PipelinePages
  import opened Delivery

  // ----- sending a byte --------------------------------------------------------

  function HighSample(b: byte): Label {
    Sample(Pins(High(b), 0))
  }

  function LowSample(b: byte): Label {
    Sample(Pins(Low(b), 0))
  }

  /** A whole byte reaches the locked section of the interrupt. */
  lemma SendStep(s: State, b: byte)
    requires Shape(s) && s.toggle && !s.wild && !s.lockHeld && s.sHead + s.sCount <= INT_MAX
    ensures var t := s.(toggle := false, top := High(b) << 4);
            && Step(s, HighSample(b)) == (t, Nothing)
            && Shape(t) && Assembles(t, LowSample(b)) && Assembled(t, LowSample(b)) == b
            && Step(t, LowSample(b)) == (Deliver(s.(top := b as bv8)), Nothing)
  {
    hide Deliver, Step, High, Low, HighSample, LowSample;
    TopShape(s, false, High(b) << 4);
    SendHigh(s, b);
    SendLow(s, b);
  }

  lemma SendHigh(s: State, b: byte)
    requires Shape(s) && s.toggle && !s.wild && s.sHead + s.sCount <= INT_MAX
    ensures Step(s, HighSample(b)) == (s.(toggle := false, top := High(b) << 4), Nothing)
  {
    hide Deliver, HalfByte, Pins, Shape;
    HighFits(b);
    PinsCarryHalfByte(High(b), 0);
  }

  lemma SendLow(s: State, b: byte)
    requires Shape(s) && s.toggle && !s.wild && !s.lockHeld && s.sHead + s.sCount <= INT_MAX
    ensures var t := s.(toggle := false, top := High(b) << 4);
            && Shape(t) && Assembles(t, LowSample(b)) && Assembled(t, LowSample(b)) == b
            && Step(t, LowSample(b)) == (Deliver(s.(top := b as bv8)), Nothing)
  {
    hide Deliver, HalfByte, Pins, Shape, High, Low;
    TopShape(s, false, High(b) << 4);
    TopShape(s, true, b as bv8);
    LowFits(b);
    PinsCarryHalfByte(Low(b), 0);
    JoinHalves(b);
    ByteBack(b);
  }

  lemma HighFits(b: byte)
    ensures High(b) < 16
  {
  }

  lemma LowFits(b: byte)
    ensures Low(b) < 16
  {
  }

  lemma JoinBits(x: bv8)
    ensures ((x >> 4) << 4) | (x & 15) == x
  {
  }

  lemma JoinHalves(b: byte)
    ensures (High(b) << 4) | Low(b) == b as bv8
  {
    JoinBits(b as bv8);
  }

  lemma ByteBack(b: byte)
    ensures (b as bv8) as byte == b
  {
    hide HalfByte, Pins, High, Low;
    Halves(b, 0, 0);
    HighFits(b);
    LowFits(b);
    PinsCarryHalfByte(High(b), 0);
    PinsCarryHalfByte(Low(b), 0);
    JoinHalves(b);
  }

  // ----- one more step of a good run -------------------------------------------

  lemma More(ls: seq<Label>, l: Label)
    requires AllTyped(ls) && Typed(l)
    ensures AllTyped(ls + [l]) && At(ls + [l]) == Step(At(ls), l).0
    ensures Received(ls + [l]) == Received(ls) + Handed(Step(At(ls), l).1)
    ensures Samples(ls + [l]) == Samples(ls) + if l.Sample? then [l.pins] else []
    ensures Sleepers(ls + [l]) == Sleepers(ls) + SleepChange(l, Step(At(ls), l).1)
  {
    hide Step, Handed;
    assert (ls + [l])[..|ls|] == ls;
  }

  lemma GoodMore(ls: seq<Label>, l: Label)
    requires AllTyped(ls) && Typed(l) && GoodRun(ls)
    requires Respects(At(ls), l, |Split(Bytes(Samples(ls))).closed|) && (l.Woken? ==> Sleepers(ls) > 0)
    ensures AllTyped(ls + [l]) && GoodRun(ls + [l])
  {
    hide Respects, At, Sleepers;
    assert (ls + [l])[..|ls|] == ls;
  }

  /** A good run that has sent whole bytes and handed `out` to readers. */
  ghost predicate Ready(ls: seq<Label>, sent: seq<byte>, out: seq<seq<byte>>) {
    && AllTyped(ls) && GoodRun(ls) && |Samples(ls)| % 2 == 0
    && Bytes(Samples(ls)) == sent && Received(ls) == out
  }

  /** The driver between two bytes: `used` bytes have been stored and `read` of
      them handed over. */
  predicate Quiet(s: State, used: nat, read: nat) {
    && s.cCount == 0 && Held(s, used, read)
  }

  predicate Held(s: State, used: nat, read: nat) {
    && read <= used <= PAGE_SIZE
    && s.writeOff == used % PAGE_SIZE && s.readOff == read % PAGE_SIZE
    && (used < PAGE_SIZE || read < PAGE_SIZE ==> s.dataSize == used)
  }

  /** What reading and opening see of a state. */
  predicate SameUse(s: State, t: State) {
    t.nprocs == s.nprocs && t.maxProcs == s.maxProcs && t.fin == s.fin
  }

  /** `more` goes on from `ls` without an open, and nobody falls asleep or goes on. */
  ghost predicate Continues(ls: seq<Label>, more: seq<Label>) {
    && AllTyped(ls) && AllTyped(more) && ls <= more && NoOpen(more, |ls|, |more|)
    && Sleepers(more) == Sleepers(ls) && SameUse(At(ls), At(more))
  }

  lemma ContinuesOn(a: seq<Label>, b: seq<Label>, c: seq<Label>)
    requires Continues(a, b) && Continues(b, c)
    ensures Continues(a, c)
  {
    hide At, Sleepers;
    assert forall k | |a| <= k < |b| :: c[k] == b[k];
  }

  lemma ContinuesSame(ls: seq<Label>)
    requires AllTyped(ls)
    ensures Continues(ls, ls)
  {
  }

  /** One step that opens nothing and lets nobody sleep. */
  lemma ContinuesStep(ls: seq<Label>, l: Label)
    requires AllTyped(ls) && Typed(l) && (l.Sample? || l.Tasklet?)
    ensures Step(At(ls), l).1 != Waiting && SameUse(At(ls), Step(At(ls), l).0)
    ensures Continues(ls, ls + [l])
  {
    hide At, Sleepers;
    More(ls, l);
    UseKept(At(ls), l);
  }

  lemma UseKept(s: State, l: Label)
    requires Shape(s) && Typed(l) && (l.Sample? || l.Tasklet?)
    ensures Step(s, l).1 != Waiting && SameUse(s, Step(s, l).0)
  {
    hide Drain, Interrupt;
    if l.Tasklet? {
      DrainFrame(s, l.alloc);
    } else {
      InterruptUse(s, l.pins);
    }
  }

  lemma InterruptUse(s: State, pins: bv32)
    requires Shape(s)
    ensures SameUse(s, Interrupt(s, pins))
  {
    hide HalfByte, Rem;
  }

  lemma ReadyFacts(ls: seq<Label>, sent: seq<byte>, out: seq<seq<byte>>)
    requires Ready(ls, sent, out)
    ensures AllTyped(ls) && GoodRun(ls) && Bytes(Samples(ls)) == sent && Received(ls) == out
    ensures At(ls).toggle && Delivers(At(ls), Split(sent), out)
    ensures Shape(At(ls)) && !At(ls).wild && !At(ls).lockHeld && At(ls).sHead + At(ls).sCount <= INT_MAX
  {
    hide Split, Bytes, At, Contents, Concat;
    DeliveryInvariant(ls);
    CalmIs(At(ls));
  }

  /** Sending a byte keeps the run good. */
  lemma SendGood(ls: seq<Label>, sent: seq<byte>, out: seq<seq<byte>>, b: byte)
    requires Ready(ls, sent, out) && |Split(sent).closed| < MAX_SESSIONS && At(ls).cCount < BUFFER_CAPACITY
    ensures var more := ls + [HighSample(b)] + [LowSample(b)];
            && Ready(more, sent + [b], out) && At(more) == Deliver(At(ls).(top := b as bv8))
            && Continues(ls, more)
  {
    hide Split, Bytes, At, Received, GoodRun, Delivers, Deliver, HighSample, LowSample, Step, Samples, Sleepers,
      Continues;
    ReadyFacts(ls, sent, out);
    var s := At(ls);
    SendStep(s, b);
    SamplesAre(b);
    FirstRespects(s, b, |Split(sent).closed|);
    GoodMore(ls, HighSample(b));
    More(ls, HighSample(b));
    var half := ls + [HighSample(b)];
    BytesAppend(Samples(ls), HighSample(b).pins);
    SecondRespects(s, b, |Split(sent).closed|);
    GoodMore(half, LowSample(b));
    More(half, LowSample(b));
    BytesAppend(Samples(half), LowSample(b).pins);
    Halves(b, 0, 0);
    ContinuesStep(ls, HighSample(b));
    ContinuesStep(half, LowSample(b));
    ContinuesOn(ls, half, half + [LowSample(b)]);
    assert out + [] == out;
  }

  lemma SamplesAre(b: byte)
    ensures HighSample(b).Sample? && LowSample(b).Sample? && Typed(HighSample(b)) && Typed(LowSample(b))
    ensures Combine(HighSample(b).pins, LowSample(b).pins) == b
  {
    Halves(b, 0, 0);
  }

  lemma FirstRespects(s: State, b: byte, closed: nat)
    requires Shape(s) && s.toggle
    ensures Respects(s, HighSample(b), closed)
  {
  }

  lemma SecondRespects(s: State, b: byte, closed: nat)
    requires Shape(s) && s.cCount < BUFFER_CAPACITY && closed < MAX_SESSIONS
    ensures var t := s.(toggle := false, top := High(b) << 4);
            Shape(t) && Respects(t, LowSample(b), closed)
  {
    hide HalfByte, Pins;
    TopShape(s, false, High(b) << 4);
  }

  // ----- storing a byte ------------------------------------------------------------

  /** The page the allocator hands out; any contents would do. */
  function ZeroPage(): (a: Alloc)
    ensures a.NewPage? && WholePage(a)
  {
    NewPage(seq(PAGE_SIZE, _ => 0))
  }

  lemma DrainSingle(s: State, alloc: Alloc)
    requires Shape(s) && WholePage(alloc) && s.cCount == 1 && !s.lockHeld && !s.wild
    ensures Drain(s, alloc) == DrainOne(s, alloc)
  {
    hide DrainOne;
  }

  /** A queued byte, and the rest as it was. */
  lemma Queues(s: State, b: byte)
    requires Shape(s) && !s.wild && s.cCount == 0 && b != 0 && 0 <= Slot(s)
    ensures var t := Deliver(s.(top := b as bv8));
            && t.cCount == 1 && t.nprocs == s.nprocs && t.maxProcs == s.maxProcs && t.writeOff == s.writeOff
            && t.readOff == s.readOff && t.dataSize == s.dataSize && t.pages == s.pages && t.lockHeld == s.lockHeld
            && t.wild == s.wild && t.numPages == s.numPages
  {
    ByteBack(b);
  }

  /** Sending and storing one byte of a file. */
  lemma StoreGood(ls: seq<Label>, sent: seq<byte>, out: seq<seq<byte>>, b: byte, used: nat, read: nat)
    returns (more: seq<Label>)
    requires Ready(ls, sent, out) && Quiet(At(ls), used, read) && used < PAGE_SIZE
    requires |Split(sent).closed| < MAX_SESSIONS && b != 0
    ensures Ready(more, sent + [b], out) && Quiet(At(more), used + 1, read) && Continues(ls, more)
  {
    hide Split, Bytes, At, Received, GoodRun, Delivers, Deliver, HighSample, LowSample, Step, Samples, Drain, Shape,
      Sleepers, Continues;
    ReadyFacts(ls, sent, out);
    SlotOf(At(ls), Split(sent), out);
    SendGood(ls, sent, out, b);
    var full := ls + [HighSample(b)] + [LowSample(b)];
    Queues(At(ls), b);
    ReadyFacts(full, sent + [b], out);
    var t := At(full);
    StoreFits(t, Split(sent + [b]), out, used, read);
    var l := Tasklet(ZeroPage());
    GoodMore(full, l);
    More(full, l);
    more := full + [l];
    TaskletIs(t, ZeroPage());
    StoredHeld(t, used, read);
    ContinuesStep(full, l);
    ContinuesOn(ls, full, more);
    assert out + [] == out && Samples(full) + [] == Samples(full);
  }

  lemma TaskletIs(t: State, alloc: Alloc)
    requires Shape(t) && WholePage(alloc) && t.cCount == 1 && !t.lockHeld && !t.wild
    ensures Step(t, Tasklet(alloc)) == (DrainOne(t, alloc), Nothing)
  {
    hide DrainOne;
    DrainSingle(t, alloc);
  }

  lemma SlotOf(s: State, f: Files, out: seq<seq<byte>>)
    requires Delivers(s, f, out) && |f.closed| < MAX_SESSIONS
    ensures Slot(s) == |f.closed|
  {
    hide Contents, Concat;
  }

  lemma StoreFits(t: State, f: Files, out: seq<seq<byte>>, used: nat, read: nat)
    requires Delivers(t, f, out) && Held(t, used, read) && used < PAGE_SIZE && t.cCount == 1
    ensures FitsOnPage(t) && (t.writeOff != 0 ==> t.pages != []) && t.numPages < MAX_FRAMES
  {
    hide Contents, Concat, Stream, Outstanding, Calm, PageArith;
    CalmIs(t);
    PageHeld(t);
    assert used % PAGE_SIZE == used;
  }

  lemma PageHeld(t: State)
    requires Calm(t)
    ensures t.numPages == |t.pages| <= 1 && (t.pages == [] <==> t.dataSize == 0)
  {
    hide Concat, Contents;
  }

  lemma StoredHeld(t: State, used: nat, read: nat)
    requires Shape(t) && Held(t, used, read) && used < PAGE_SIZE && t.cCount == 1
    requires (t.writeOff != 0 ==> t.pages != []) && t.numPages < MAX_FRAMES
    ensures Quiet(DrainOne(t, ZeroPage()), used + 1, read)
  {
    hide Shape, ZeroPage;
  }

  // ----- a whole file -----------------------------------------------------------------

  lemma {:induction false} SendFile(ls: seq<Label>, files: seq<seq<byte>>, part: seq<byte>, used: nat)
    returns (more: seq<Label>)
    requires Ready(ls, Frame(files), files) && Quiet(At(ls), used, used) && used + |part| <= PAGE_SIZE
    requires |files| < MAX_SESSIONS && NulFree(part) && forall f <- files :: NulFree(f)
    ensures Ready(more, Frame(files) + part, files) && Quiet(At(more), used + |part|, used)
    ensures Continues(ls, more)
    decreases |part|
  {
    hide Split, Frame, Ready, Quiet, At, Continues, NulFree;
    PartFree(part);
    if part == [] {
      ReadyTyped(ls, Frame(files), files);
      more := ls;
      ContinuesSame(ls);
      assert Frame(files) + part == Frame(files);
    } else {
      var init, b := part[..|part| - 1], part[|part| - 1];
      var before := SendFile(ls, files, init, used);
      SplitOfFrame(files);
      SplitClean(Frame(files), init);
      more := StoreGood(before, Frame(files) + init, files, b, used + |init|, used);
      ContinuesOn(ls, before, more);
      assert Frame(files) + part == Frame(files) + init + [b];
    }
  }

  lemma PartFree(part: seq<byte>)
    requires NulFree(part)
    ensures part != [] ==> NulFree(part[..|part| - 1]) && part[|part| - 1] != 0
  {
  }

  lemma ReadyTyped(ls: seq<Label>, sent: seq<byte>, out: seq<seq<byte>>)
    requires Ready(ls, sent, out)
    ensures AllTyped(ls)
  {
  }

  lemma Closes(s: State)
    requires Shape(s) && s.sCount < INT_MAX
    ensures Deliver(s.(top := 0)) == s.(top := 0, sCount := s.sCount + 1)
  {
  }

  /** The NUL that ends a file. */
  lemma CloseGood(ls: seq<Label>, sent: seq<byte>, out: seq<seq<byte>>, used: nat, read: nat)
    returns (more: seq<Label>)
    requires Ready(ls, sent, out) && Quiet(At(ls), used, read) && |Split(sent).closed| < MAX_SESSIONS
    ensures Ready(more, sent + [0], out) && Quiet(At(more), used, read) && Continues(ls, more)
  {
    hide Split, Bytes, At, Received, GoodRun, Delivers, Deliver, Samples, Shape, Sleepers, Continues;
    ReadyFacts(ls, sent, out);
    CountSmall(At(ls), Split(sent), out);
    SendGood(ls, sent, out, 0);
    Closes(At(ls));
    more := ls + [HighSample(0)] + [LowSample(0)];
  }

  lemma CountSmall(s: State, f: Files, out: seq<seq<byte>>)
    requires Delivers(s, f, out)
    ensures s.sCount <= MAX_SESSIONS
  {
    hide Contents, Concat;
  }

  // ----- reading it --------------------------------------------------------------------

  /** An open when the device is free. */
  lemma OpenGood(ls: seq<Label>, sent: seq<byte>, out: seq<seq<byte>>)
    requires Ready(ls, sent, out) && At(ls).nprocs < At(ls).maxProcs
    ensures Ready(ls + [Open(0)], sent, out) && Sleepers(ls + [Open(0)]) == Sleepers(ls)
    ensures At(ls + [Open(0)]) == At(ls).(fin := false, nprocs := At(ls).nprocs + 1)
  {
    hide Split, Bytes, At, Received, GoodRun, Delivers, Samples, Shape, Sleepers;
    ReadyFacts(ls, sent, out);
    GoodMore(ls, Open(0));
    More(ls, Open(0));
    assert out + [] == out && Samples(ls) + [] == Samples(ls);
  }

  lemma ReleaseGood(ls: seq<Label>, sent: seq<byte>, out: seq<seq<byte>>)
    requires Ready(ls, sent, out)
    ensures Ready(ls + [Release], sent, out)
    ensures At(ls + [Release]) == At(ls).(nprocs := At(ls).nprocs - 1)
  {
    hide Split, Bytes, At, Received, GoodRun, Delivers, Samples, Shape, Sleepers;
    ReadyFacts(ls, sent, out);
    GoodMore(ls, Release);
    More(ls, Release);
    assert out + [] == out && Samples(ls) + [] == Samples(ls);
  }

  /** The read takes the file and leaves nothing unread. */
  lemma ReadTakesAll(s: State, files: seq<seq<byte>>, file: seq<byte>, used: nat, read: nat)
    requires Delivers(s, Files(files + [file], []), files) && !s.fin && Quiet(s, used, read)
    requires file != [] && read + |file| == used
    ensures Shape(s) && Respects(s, Read(PAGE_SIZE), |files| + 1)
    ensures var (t, r) := Step(s, Read(PAGE_SIZE));
            r == Data(file) && Quiet(t, used, used) && t.nprocs == s.nprocs && t.maxProcs == s.maxProcs
  {
    hide Concat, Contents, Shape, Walk, TakeSession, Stream;
    CalmIs(s);
    ContentsLength(s);
    ShapeFacts(s);
    NextSize(s, Files(files + [file], []), files);
    StreamLength(s, files, file);
    ReadDelivers(s, Files(files + [file], []), files, PAGE_SIZE);
    ReadWithinPage(s, PAGE_SIZE);
    TakeFrame(s, PAGE_SIZE);
  }

  lemma StreamLength(s: State, files: seq<seq<byte>>, file: seq<byte>)
    requires Delivers(s, Files(files + [file], []), files) && s.cCount == 0
    ensures StreamOk(s) && |Stream(s)| == |file| == s.dataSize - s.readOff
  {
    hide Contents;
    CalmIs(s);
    ContentsLength(s);
    assert (files + [file])[|files|..] == [file];
    ConcatFirst([file]);
    assert Outstanding(Files(files + [file], []), |files|) == file;
  }

  /** No descriptor is open, and one may be. */
  predicate Free(s: State) {
    s.nprocs == 0 && s.maxProcs == 1
  }

  /** Open, read, release: the file is handed over. */
  lemma ReadGood(ls: seq<Label>, files: seq<seq<byte>>, file: seq<byte>, used: nat, read: nat)
    returns (more: seq<Label>)
    requires Ready(ls, Frame(files + [file]), files) && Quiet(At(ls), used, read) && Free(At(ls))
    requires file != [] && read + |file| == used && forall f <- files + [file] :: NulFree(f)
    ensures Ready(more, Frame(files + [file]), files + [file]) && Quiet(At(more), used, used) && Free(At(more))
  {
    hide Split, Frame, Bytes, At, Received, GoodRun, Delivers, Samples, Shape, Stream, Step, TakeSession, FairRead,
      Respects, Sleepers;
    var sent := Frame(files + [file]);
    SplitOfFrame(files + [file]);
    OpenGood(ls, sent, files);
    var ready := ls + [Open(0)];
    ReadyFacts(ready, sent, files);
    ReadTakesAll(At(ready), files, file, used, read);
    GoodMore(ready, Read(PAGE_SIZE));
    More(ready, Read(PAGE_SIZE));
    more := ready + [Read(PAGE_SIZE)];
    assert Samples(ready) + [] == Samples(ready);
    ReleaseGood(more, sent, files + [file]);
    more := more + [Release];
  }

  // ----- all files ------------------------------------------------------------------------

  /** Files the wire can carry and a page can hold apart. */
  predicate Sendable(files: seq<seq<byte>>) {
    forall i | 0 <= i < |files| :: files[i] != [] && NulFree(files[i])
  }

  lemma {:induction false} ServeAll(files: seq<seq<byte>>) returns (ls: seq<Label>)
    requires |files| <= MAX_SESSIONS && |Concat(files)| <= PAGE_SIZE
    requires Sendable(files)
    ensures Ready(ls, Frame(files), files) && Quiet(At(ls), |Concat(files)|, |Concat(files)|) && Free(At(ls))
  {
    hide Frame, At, Ready, Quiet, Concat, Split, Sendable, NulFree, Continues, Free;
    if files == [] {
      ls := [];
      NothingSent();
    } else {
      var init, file := files[..|files| - 1], files[|files| - 1];
      ConcatLast(files);
      SendableParts(files);
      var before := ServeAll(init);
      ls := SendFile(before, init, file, |Concat(init)|);
      StaysFree(before, ls);
      SplitOfFrame(init);
      SplitClean(Frame(init), file);
      before := ls;
      ls := CloseGood(before, Frame(init) + file, init, |Concat(files)|, |Concat(init)|);
      StaysFree(before, ls);
      FrameAppend(init, file);
      ls := ReadGood(ls, init, file, |Concat(files)|, |Concat(init)|);
    }
  }

  lemma SendableParts(files: seq<seq<byte>>)
    requires Sendable(files) && files != []
    ensures var init, file := files[..|files| - 1], files[|files| - 1];
            && files == init + [file] && Sendable(init) && file != [] && NulFree(file)
            && (forall f <- init :: NulFree(f)) && (forall f <- files :: NulFree(f))
  {
    hide NulFree;
  }

  lemma StaysFree(ls: seq<Label>, more: seq<Label>)
    requires Continues(ls, more) && Free(At(ls))
    ensures AllTyped(more) && Free(At(more))
  {
    hide At, Sleepers;
  }

  lemma NothingSent()
    ensures Ready([], Frame([]), []) && Quiet(At([]), |Concat<byte>([])|, |Concat<byte>([])|) && Free(At([]))
  {
    assert Bytes([]) == [];
  }

  lemma ConcatLast(parts: seq<seq<byte>>)
    requires parts != []
    ensures |Concat(parts)| == |Concat(parts[..|parts| - 1])| + |parts[|parts| - 1]|
  {
  }

  /** For every list of at most 100 nonempty files without NULs that fit on one
      page there is a good run that sends exactly these files and hands all of
      them over. */
  lemma GoodRunExists(files: seq<seq<byte>>) returns (ls: seq<Label>)
    requires |files| <= 100 && |Concat(files)| <= 4096
    requires Sendable(files)
    ensures AllTyped(ls) && GoodRun(ls)
    ensures Bytes(Samples(ls)) == Frame(files) && Received(ls) == files
  {
    hide Frame, At, Quiet, Concat, Bytes, Samples, Received, GoodRun;
    ls := ServeAll(files);
  }

  // ----- nothing is lost on the wire ---------------------------------------------------------

  /** In a good run every byte sent is accepted. */
  lemma {:induction false} AllAccepted(ls: seq<Label>)
    requires AllTyped(ls) && GoodRun(ls)
    ensures Accepted(ls) == Bytes(Samples(ls))
  {
    hide Step, At, Bytes, Taken, Respects, Split, Delivers, Linked, Received;
    if ls == [] {
      NoBytes();
    } else {
      var init, l := ls[..|ls| - 1], ls[|ls| - 1];
      AllAccepted(init);
      DeliveryInvariant(init);
      AcceptsSent(At(init), l, Samples(init), Received(init));
      assert l.Sample? || Samples(init) + [] == Samples(init);
    }
  }

  lemma NoBytes()
    ensures Bytes([]) == []
  {
  }

  lemma AcceptsSent(s: State, l: Label, samples: seq<bv32>, out: seq<seq<byte>>)
    requires Linked(s, samples) && Delivers(s, Split(Bytes(samples)), out)
    requires Respects(s, l, |Split(Bytes(samples)).closed|)
    ensures Bytes(samples + if l.Sample? then [l.pins] else []) == Bytes(samples) + Taken(s, l)
  {
    hide Bytes, Split, HalfByte, Combine, Contents, Concat;
    if l.Sample? {
      BytesAppend(samples, l.pins);
      if !s.toggle {
        SameCombine(s, l.pins, samples);
        ContentsLength(s);
      }
      assert Bytes(samples) + [] == Bytes(samples);
    } else {
      OnlySamples(s, l);
      assert samples + [] == samples && Bytes(samples) + [] == Bytes(samples);
    }
  }
}
