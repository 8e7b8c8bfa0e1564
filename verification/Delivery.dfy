/** End to end: what goes in on the wire comes out of the reads, file by file
    and in order, in every run that respects the limits of the driver. */
module Delivery {
  import opened Machine
  import opened Wire
  import opened Pipeline
  import opened PipelineRing
  import opened PipelineSessions
  import opened PipelinePages

  /** The samples of a run. */
  function Samples(ls: seq<Label>): seq<bv32> {
    if ls == [] then []
    else
      var l := ls[|ls| - 1];
      Samples(ls[..|ls| - 1]) + if l.Sample? then [l.pins] else []
  }

  /** What a step hands to a reader. */
  function Handed(out: Out): seq<seq<byte>> {
    if out.Data? then [out.bytes] else []
  }

  /** The replies of all reads that took a session. */
  ghost function Received(ls: seq<Label>): seq<seq<byte>>
    requires AllTyped(ls)
  {
    if ls == [] then []
    else
      var n := |ls| - 1;
      Received(ls[..n]) + Handed(Step(At(ls[..n]), ls[n]).1)
  }

  // ----- the limits of the driver ---------------------------------------------

  /** The ring's bytes fit on the page being filled. */
  predicate FitsOnPage(s: State) {
    s.cCount == 0 || s.pages == [] || (s.writeOff != 0 && s.writeOff + s.cCount <= PAGE_SIZE)
  }

  /** A read finds the head session closed, drained and asked for in full; an
      empty one only where it frees no page. */
  predicate FairRead(s: State, count: int)
    requires Shape(s)
  {
    var total := s.sizes[s.sHead];
    && s.sCount >= 1 && s.readOff + total <= s.dataSize && total <= count
    && (total == 0 ==> s.pages == [] || s.readOff != 0)
  }

  /** `closed` is the number of NULs sent so far. */
  predicate Respects(s: State, l: Label, closed: nat)
    requires Shape(s)
  {
    match l
    case Sample(_) => Assembles(s, l) ==> closed < MAX_SESSIONS && !Drops(s, l)
    case Tasklet(alloc) => alloc.NewPage? && FitsOnPage(s)
    case Read(count) => Takes(s, l) ==> FairRead(s, count)
    case Woken(count) => FairRead(s, count)
    case _ => true
  }

  /** A read goes to sleep, or a sleeper goes on. */
  function SleepChange(l: Label, out: Out): int {
    if out == Waiting then 1 else if l.Woken? then -1 else 0
  }

  /** How many reads are asleep. */
  ghost function Sleepers(ls: seq<Label>): int
    requires AllTyped(ls)
  {
    if ls == [] then 0
    else
      var n := |ls| - 1;
      Sleepers(ls[..n]) + SleepChange(ls[n], Step(At(ls[..n]), ls[n]).1)
  }

  /** Only a read that is asleep goes on. */
  ghost predicate GoodRun(ls: seq<Label>)
    requires AllTyped(ls)
  {
    ls == [] ||
    var n := |ls| - 1;
    && GoodRun(ls[..n]) && Respects(At(ls[..n]), ls[n], |Split(Bytes(Samples(ls[..n]))).closed|)
    && (ls[n].Woken? ==> Sleepers(ls[..n]) > 0)
  }

  // ----- the invariant -----------------------------------------------------------

  /** The half byte waiting for its other half. */
  predicate Linked(s: State, samples: seq<bv32>) {
    && (s.toggle <==> |samples| % 2 == 0)
    && (!s.toggle ==> s.top == HalfByte(samples[|samples| - 1]) << 4)
  }

  /** The slots are the sizes of the files. */
  predicate Sized(s: State, f: Files)
    requires |s.sizes| == MAX_SESSIONS
  {
    forall j | 0 <= j < MAX_SESSIONS ::
      s.sizes[j] == if j < |f.closed| then |f.closed[j]| else if j == |f.closed| then |f.open| else 0
  }

  /** At most one page is held. */
  predicate Calm(s: State) {
    StreamOk(s) && PageArith(s) && |s.pages| <= 1 && !s.lockHeld && !s.wild
  }

  predicate Numbered(s: State, f: Files, out: seq<seq<byte>>) {
    && out <= f.closed && |f.closed| <= MAX_SESSIONS && (|f.closed| == MAX_SESSIONS ==> f.open == [])
    && s.sHead == |out| % MAX_SESSIONS && s.sCount == |f.closed| - |out|
  }

  /** The bytes sent and not yet handed to a reader. */
  function Outstanding(f: Files, n: nat): seq<byte>
    requires n <= |f.closed|
  {
    Concat(f.closed[n..]) + f.open
  }

  ghost predicate Delivers(s: State, f: Files, out: seq<seq<byte>>) {
    && Calm(s) && Sized(s, f) && Numbered(s, f, out)
    && Stream(s) + Contents(s) == Outstanding(f, |out|)
  }

  // ----- samples -------------------------------------------------------------------

  lemma CloseFile(f: Files, n: nat)
    requires n <= |f.closed|
    ensures Outstanding(Files(f.closed + [f.open], []), n) == Outstanding(f, n)
  {
    assert (f.closed + [f.open])[n..] == f.closed[n..] + [f.open];
    ConcatAppend(f.closed[n..], [f.open]);
    assert Concat([f.open]) == f.open;
  }

  lemma DeliverNul(t: State, f: Files, out: seq<seq<byte>>)
    requires Delivers(t, f, out) && t.top as byte == 0 && |f.closed| < MAX_SESSIONS
    ensures Delivers(Deliver(t), Files(f.closed + [f.open], []), out)
  {
    hide Contents, Concat;
    SameRing(t, Deliver(t));
    CloseFile(f, |out|);
  }

  lemma CountBound(t: State, f: Files, out: seq<seq<byte>>)
    requires Delivers(t, f, out)
    ensures |f.open| <= PAGE_SIZE + BUFFER_CAPACITY
  {
    hide Concat, Contents;
    ContentsLength(t);
  }

  lemma DeliverByte(t: State, f: Files, out: seq<seq<byte>>)
    requires Delivers(t, f, out) && t.top as byte != 0 && |f.closed| < MAX_SESSIONS && t.cCount < BUFFER_CAPACITY
    ensures Delivers(Deliver(t), Files(f.closed, f.open + [t.top as byte]), out)
  {
    hide Contents, Concat, Deliver, Shape, Slot;
    CountBound(t, f, out);
    SlotsLength(t);
    SlotIsFile(t, f, out);
    DeliverIs(t, |f.closed|);
    Enqueue(t);
    var b := t.top as byte;
    assert Stream(Deliver(t)) == Stream(t);
    assert Stream(t) + (Contents(t) + [b]) == Outstanding(f, |out|) + [b]
        == Outstanding(Files(f.closed, f.open + [b]), |out|);
  }

  lemma SlotIsFile(t: State, f: Files, out: seq<seq<byte>>)
    requires Numbered(t, f, out) && |f.closed| < MAX_SESSIONS
    ensures Slot(t) == |f.closed|
  {
  }

  /** A byte is queued and counted. */
  lemma DeliverIs(t: State, n: nat)
    requires Shape(t) && Slot(t) == n < MAX_SESSIONS && t.top as byte != 0 && t.cCount < BUFFER_CAPACITY
    requires t.sizes[n] < U32_MOD - 1
    ensures var u := Deliver(t);
            u == t.(cBuf := u.cBuf, cCount := t.cCount + 1, sizes := t.sizes[n := t.sizes[n] + 1])
  {
  }

  // ----- the tasklet ------------------------------------------------------------------

  lemma DrainOneCalm(s: State, alloc: Alloc)
    requires Calm(s) && s.cCount > 0 && WholePage(alloc) && alloc.NewPage? && FitsOnPage(s)
    ensures var t := DrainOne(s, alloc);
            && Calm(t) && FitsOnPage(t) && Stream(t) + Contents(t) == Stream(s) + Contents(s)
  {
    hide Concat, Contents, DrainOne, Shape, PageArith, FitsOnPage;
    FitsStep(s, alloc);
    ShapeFacts(s);
    CalmStep(s, alloc);
    Dequeue(s, alloc);
    HeadByte(s);
    var b := s.cBuf[s.cHead];
    assert Stream(s) + [b] + Contents(s)[1..] == Stream(s) + Contents(s);
  }

  /** The byte is stored, and the rest of the ring still fits. */
  lemma FitsStep(s: State, alloc: Alloc)
    requires Calm(s) && s.cCount > 0 && WholePage(alloc) && alloc.NewPage? && FitsOnPage(s)
    ensures var t := DrainOne(s, alloc); !t.lockHeld && !t.wild && |t.pages| <= 1 && FitsOnPage(t)
  {
    hide Stream, U32;
    DrainOneFacts(s, alloc);
    ShapeFacts(s);
    hide Shape, PageArith;
    OnePageHeld(s);
  }

  /** At most one page, and what that says about the write offset. */
  lemma OnePageHeld(s: State)
    requires Calm(s)
    ensures s.numPages == |s.pages| && (s.pages == [] ==> s.writeOff == 0) && s.cCount <= BUFFER_CAPACITY
    ensures 0 <= s.writeOff < PAGE_SIZE
  {
  }

  lemma CalmStep(s: State, alloc: Alloc)
    requires Calm(s) && s.cCount > 0 && WholePage(alloc) && alloc.NewPage? && FitsOnPage(s)
    requires var t := DrainOne(s, alloc); !t.lockHeld && !t.wild && |t.pages| <= 1
    ensures var t := DrainOne(s, alloc);
            Calm(t) && 0 <= s.cHead < |s.cBuf| && Stream(t) == Stream(s) + [s.cBuf[s.cHead]]
  {
    hide Concat, DrainOne, Shape, PageArith, FitsOnPage, Stream;
    ShapeFacts(s);
    OneIsWellPlaced(s);
    DrainedByteIff(s, alloc);
    DrainOneArith(s, alloc);
  }

  lemma OneIsWellPlaced(s: State)
    requires Shape(s) && |s.pages| <= 1 && 0 <= s.cHead < |s.cBuf|
    ensures WellPlaced(s, s.cBuf[s.cHead])
  {
  }

  lemma HeadByte(s: State)
    requires Shape(s) && s.cCount > 0
    ensures 0 <= s.cHead < |s.cBuf| && Contents(s) != [] && Contents(s)[0] == s.cBuf[s.cHead]
    ensures [s.cBuf[s.cHead]] + Contents(s)[1..] == Contents(s)
  {
  }

  lemma {:induction false} DrainCalm(s: State, alloc: Alloc)
    requires Calm(s) && WholePage(alloc) && alloc.NewPage? && FitsOnPage(s)
    ensures var t := Drain(s, alloc);
            Calm(t) && Stream(t) + Contents(t) == Stream(s) + Contents(s)
    decreases s.cCount
  {
    hide DrainOne, Concat, Contents, FitsOnPage, Stream, Shape;
    ContentsLength(s);
    if s.cCount > 0 {
      DrainOneCalm(s, alloc);
      DrainCalm(DrainOne(s, alloc), alloc);
    }
  }

  // ----- reads ------------------------------------------------------------------------

  lemma NextFile(f: Files, n: nat, stream: seq<byte>, ring: seq<byte>)
    requires n < |f.closed| && stream + ring == Outstanding(f, n) && |f.closed[n]| <= |stream|
    ensures stream[..|f.closed[n]|] == f.closed[n]
    ensures stream[|f.closed[n]|..] + ring == Outstanding(f, n + 1)
  {
    var rest := f.closed[n..];
    ConcatFirst(rest);
    assert rest[1..] == f.closed[n + 1..];
    var k := |f.closed[n]|;
    assert Outstanding(f, n) == f.closed[n] + (Concat(f.closed[n + 1..]) + f.open);
    assert (stream + ring)[..k] == stream[..k];
    assert (stream + ring)[k..] == stream[k..] + ring;
  }

  /** A fair read hands over the next file. */
  lemma ReadDelivers(s: State, f: Files, out: seq<seq<byte>>, count: int)
    requires Delivers(s, f, out) && FairRead(s, count) && 0 <= count < U32_MOD
    ensures |out| < |f.closed|
    ensures var (t, r) := TakeSession(s, count);
            && r == Data(f.closed[|out|]) && Delivers(t, f, out + [f.closed[|out|]])
            && (f.closed[|out|] != [] ==> t.fin)
  {
    hide TakeSession, Concat, Contents, Shape;
    ShapeFacts(s);
    assert s.sHead == |out|;
    var (t, r) := TakeSession(s, count);
    NextFile(f, |out|, Stream(s), Contents(s));
    if s.sizes[s.sHead] == 0 {
      EmptySessionIff(s, count);
      EmptyRead(s, count);
      assert Stream(s)[0..] == Stream(s);
    } else {
      ReadWithinPage(s, count);
      ReadOnePage(s, count);
    }
    SameRing(s, t);
    ShapeFacts(t);
    assert out + [f.closed[|out|]] <= f.closed;
  }

  // ----- every run ---------------------------------------------------------------------

  /** One step of a good run. */
  lemma DeliveryStep(s: State, l: Label, samples: seq<bv32>, out: seq<seq<byte>>)
    requires Typed(l) && Linked(s, samples) && Delivers(s, Split(Bytes(samples)), out)
    requires Respects(s, l, |Split(Bytes(samples)).closed|)
    ensures var (t, r) := Step(s, l);
            var more := samples + if l.Sample? then [l.pins] else [];
            Linked(t, more) && Delivers(t, Split(Bytes(more)), out + Handed(r))
  {
    hide Delivers, Split, Bytes, HalfByte, Walk, Interrupt, Drain, TakeSession, Respects;
    assert out + [] == out && samples + [] == samples;
    match l {
      case Sample(_) => SampleDelivery(s, l, samples, out);
      case Tasklet(alloc) => TaskletDelivery(s, alloc, samples, out);
      case Read(_) => ReadDelivery(s, l, samples, out);
      case Woken(_) => ReadDelivery(s, l, samples, out);
      case _ => CallDelivery(s, l, samples, out);
    }
  }

  lemma SampleDelivery(s: State, l: Label, samples: seq<bv32>, out: seq<seq<byte>>)
    requires l.Sample? && Linked(s, samples) && Delivers(s, Split(Bytes(samples)), out)
    requires Respects(s, l, |Split(Bytes(samples)).closed|)
    ensures var t := Step(s, l).0;
            var more := samples + [l.pins];
            Linked(t, more) && Delivers(t, Split(Bytes(more)), out) && Step(s, l).1 == Nothing
  {
    hide Deliver, Contents, Concat, Split, Bytes, HalfByte, Combine;
    if s.toggle {
      BytesAppend(samples, l.pins);
      var t := Step(s, l).0;
      assert t == s.(toggle := false, top := HalfByte(l.pins) << 4);
      SameRing(s, t);
    } else {
      SecondHalf(s, l, samples, out);
    }
  }

  lemma SecondHalf(s: State, l: Label, samples: seq<bv32>, out: seq<seq<byte>>)
    requires l.Sample? && !s.toggle && Linked(s, samples) && Delivers(s, Split(Bytes(samples)), out)
    requires Respects(s, l, |Split(Bytes(samples)).closed|)
    ensures var t := Step(s, l).0;
            var more := samples + [l.pins];
            Linked(t, more) && Delivers(t, Split(Bytes(more)), out) && Step(s, l).1 == Nothing
  {
    hide Deliver, Delivers, Shape, Split, Bytes, HalfByte, Combine;
    var t := s.(toggle := true, top := s.top | HalfByte(l.pins));
    var b := t.top as byte;
    TopDelivers(s, t.top, Split(Bytes(samples)), out);
    SampleStep(s, l);
    BytesAppend(samples, l.pins);
    SameCombine(s, l.pins, samples);
    SplitAppend(Bytes(samples), b);
    DeliverToggle(t);
    if b == 0 {
      DeliverNul(t, Split(Bytes(samples)), out);
    } else {
      DeliverByte(t, Split(Bytes(samples)), out);
    }
  }

  lemma TopDelivers(s: State, top: bv8, f: Files, out: seq<seq<byte>>)
    requires Delivers(s, f, out)
    ensures Shape(s) && !s.wild && !s.lockHeld && s.sHead + s.sCount <= INT_MAX && s.cCount <= BUFFER_CAPACITY
    ensures Shape(s.(toggle := true, top := top)) && Delivers(s.(toggle := true, top := top), f, out)
  {
    hide Contents, Concat;
    TopShape(s, true, top);
    SameRing(s, s.(toggle := true, top := top));
  }

  lemma SameCombine(s: State, pins: bv32, samples: seq<bv32>)
    requires Linked(s, samples) && !s.toggle
    ensures (s.top | HalfByte(pins)) as byte == Combine(samples[|samples| - 1], pins)
  {
  }

  lemma DeliverToggle(t: State)
    requires Shape(t)
    ensures Deliver(t).toggle == t.toggle && Deliver(t).top == t.top
  {
  }

  lemma TaskletDelivery(s: State, alloc: Alloc, samples: seq<bv32>, out: seq<seq<byte>>)
    requires WholePage(alloc) && Linked(s, samples) && Delivers(s, Split(Bytes(samples)), out)
    requires Respects(s, Tasklet(alloc), |Split(Bytes(samples)).closed|)
    ensures var t := Step(s, Tasklet(alloc)).0;
            Linked(t, samples) && Delivers(t, Split(Bytes(samples)), out)
  {
    hide Split, Bytes, HalfByte, Drain, Concat, Contents, Calm, Shape;
    DrainCalm(s, alloc);
    assert Shape(s) && !s.wild by { CalmIs(s); }
    DrainFrame(s, alloc);
  }

  lemma CalmIs(s: State)
    requires Calm(s)
    ensures Shape(s) && !s.wild && !s.lockHeld && |s.pages| <= 1 && StreamOk(s)
  {
  }

  lemma ReadDelivery(s: State, l: Label, samples: seq<bv32>, out: seq<seq<byte>>)
    requires (l.Read? || l.Woken?) && 0 <= l.count < U32_MOD
    requires Linked(s, samples) && Delivers(s, Split(Bytes(samples)), out)
    requires Respects(s, l, |Split(Bytes(samples)).closed|)
    ensures var (t, r) := Step(s, l);
            Linked(t, samples) && Delivers(t, Split(Bytes(samples)), out + Handed(r))
  {
    hide Split, Bytes, HalfByte, Walk, Concat, Contents;
    if Takes(s, l) {
      hide TakeSession;
      ReadDelivers(s, Split(Bytes(samples)), out, l.count);
      TakeFrame(s, l.count);
    } else {
      assert out + [] == out;
    }
  }

  lemma CallDelivery(s: State, l: Label, samples: seq<bv32>, out: seq<seq<byte>>)
    requires l.Open? || l.Release? || l.SetMax?
    requires Linked(s, samples) && Delivers(s, Split(Bytes(samples)), out)
    ensures var (t, r) := Step(s, l);
            Linked(t, samples) && Delivers(t, Split(Bytes(samples)), out) && !r.Data?
  {
    hide Split, Bytes, HalfByte, Concat, Contents;
    SameRing(s, Step(s, l).0);
  }

  lemma ToggleStep(s: State, l: Label)
    requires Shape(s) && Typed(l) && !Step(s, l).0.wild
    ensures !s.wild && (Step(s, l).0.toggle <==> s.toggle != l.Sample?)
  {
    hide TakeSession, Drain, HalfByte, Deliver, Shape;
    match l {
      case Sample(pins) =>
        TopShape(s, true, s.top | HalfByte(pins));
        DeliverToggle(s.(toggle := true, top := s.top | HalfByte(pins)));
      case Tasklet(alloc) => DrainFrame(s, alloc);
      case Read(count) => TakeFrame(s, count);
      case Woken(count) => TakeFrame(s, count);
      case _ =>
    }
  }

  /** In every run, good or not, the next sample is a high half exactly after
      an even number of samples. */
  lemma {:induction false} ToggleParity(ls: seq<Label>)
    requires AllTyped(ls) && !At(ls).wild
    ensures At(ls).toggle <==> |Samples(ls)| % 2 == 0
  {
    hide Step, Shape;
    if ls != [] {
      var n := |ls| - 1;
      AtLast(ls);
      ToggleStep(At(ls[..n]), ls[n]);
      ToggleParity(ls[..n]);
    }
  }

  lemma {:induction false} DeliveryInvariant(ls: seq<Label>)
    requires AllTyped(ls) && GoodRun(ls)
    ensures Linked(At(ls), Samples(ls)) && Delivers(At(ls), Split(Bytes(Samples(ls))), Received(ls))
  {
    hide Step, Linked, Delivers, Respects, Split, Bytes, Handed;
    if ls == [] {
      DeliversAtStart();
    } else {
      var init, l := ls[..|ls| - 1], ls[|ls| - 1];
      DeliveryInvariant(init);
      AtLast(ls);
      DeliveryStep(At(init), l, Samples(init), Received(init));
    }
  }

  lemma DeliversAtStart()
    ensures Linked(Start(), []) && Delivers(Start(), Split(Bytes([])), [])
  {
    assert Bytes([]) == [];
    var f := Split([]);
    assert f == Files([], []);
    assert Stream(Start()) == [] && Contents(Start()) == [] && Outstanding(f, 0) == [];
  }

  /** Every good run delivers in order and loses nothing: the reads so far have
      returned the first files sent, each exactly, and what is on the page and
      in the ring is the rest of what was sent. */
  lemma FifoDelivery(ls: seq<Label>)
    requires AllTyped(ls) && GoodRun(ls)
    ensures var s, f := At(ls), Split(Bytes(Samples(ls)));
            && Received(ls) <= f.closed
            && StreamOk(s) && Stream(s) + Contents(s) == Outstanding(f, |Received(ls)|)
            && !s.lockHeld && !s.wild && s.sCount == |f.closed| - |Received(ls)|
  {
    hide Split, Bytes, Contents, Concat, Exec;
    DeliveryInvariant(ls);
  }

  /** From pins to reader: if the samples of a good run encode the files,
      whatever the other pins show, then the reads return the files one by one,
      and all of them once as many sessions have been read. */
  lemma PinsToReader(ls: seq<Label>, files: seq<seq<byte>>, noise: seq<bv32>)
    requires AllTyped(ls) && GoodRun(ls)
    requires (forall f <- files :: NulFree(f)) && |noise| == 2 * |Frame(files)|
    requires Samples(ls) == Encode(Frame(files), noise)
    ensures Received(ls) <= files
    ensures |Received(ls)| == |files| ==> Received(ls) == files
    ensures StreamOk(At(ls)) && Stream(At(ls)) + Contents(At(ls)) == Concat(files[|Received(ls)|..])
  {
    hide Split, Bytes, Contents, Concat, Exec, Encode;
    WireRoundTrip(files, noise);
    FifoDelivery(ls);
  }

  // ----- one session per open -------------------------------------------------------------

  /** The reply to step k of a run. */
  ghost function Reply(ls: seq<Label>, k: nat): Out
    requires AllTyped(ls) && k < |ls|
  {
    Step(At(ls[..k]), ls[k]).1
  }

  predicate NoOpen(ls: seq<Label>, i: nat, j: nat)
    requires i <= j <= |ls|
  {
    forall k | i <= k < j :: !ls[k].Open?
  }

  lemma {:induction false} FinStays(ls: seq<Label>, i: nat, j: nat)
    requires AllTyped(ls) && i <= j <= |ls| && NoOpen(ls, i, j) && At(ls[..i]).fin
    ensures At(ls[..j]).fin
  {
    hide Step, At;
    if i < j {
      FinStays(ls, i, j - 1);
      OneStep(ls, j - 1);
      FinStep(At(ls[..j - 1]), ls[j - 1]);
    }
  }

  lemma OneStep(ls: seq<Label>, k: nat)
    requires AllTyped(ls) && k < |ls|
    ensures At(ls[..k + 1]) == Step(At(ls[..k]), ls[k]).0
  {
    hide Step;
    assert ls[..k + 1][..k] == ls[..k];
  }

  lemma FinStep(s: State, l: Label)
    requires Shape(s) && Typed(l) && s.fin && !l.Open?
    ensures Step(s, l).0.fin
  {
    hide Drain, Interrupt, TakeSession;
    match l {
      case Sample(_) => SamplePages(s, l);
      case Tasklet(alloc) => DrainFrame(s, alloc);
      case Woken(count) => TakeFrame(s, count);
      case _ =>
    }
  }

  /** Once a session has been read, every read that starts before the next open
      gets the end of file, in every run. */
  lemma EofUntilOpen(ls: seq<Label>, i: nat, j: nat)
    requires AllTyped(ls) && i <= j < |ls| && NoOpen(ls, i, j) && At(ls[..i]).fin
    requires ls[j].Read? && !At(ls[..j]).wild
    ensures Reply(ls, j) == Eof
  {
    hide At;
    FinStays(ls, i, j);
  }

  lemma {:induction false} GoodPrefix(ls: seq<Label>, k: nat)
    requires AllTyped(ls) && GoodRun(ls) && k <= |ls|
    ensures GoodRun(ls[..k])
    ensures k < |ls| ==> Respects(At(ls[..k]), ls[k], |Split(Bytes(Samples(ls[..k]))).closed|)
    ensures k < |ls| && ls[k].Woken? ==> Sleepers(ls[..k]) > 0
    decreases |ls|
  {
    hide Respects, At, Sleepers;
    if k == |ls| {
      assert ls[..k] == ls;
    } else if k < |ls| - 1 {
      var init := ls[..|ls| - 1];
      GoodPrefix(init, k);
      assert init[..k] == ls[..k] && init[k] == ls[k];
    }
  }

  /** Step i takes a session that is not empty. */
  ghost predicate TakesFile(ls: seq<Label>, i: nat)
    requires AllTyped(ls) && i < |ls|
  {
    Takes(At(ls[..i]), ls[i]) && At(ls[..i]).sizes[At(ls[..i]).sHead] != 0
  }

  /** The files sent before step i. */
  function Sent(ls: seq<Label>, i: nat): seq<seq<byte>>
    requires i <= |ls|
  {
    Split(Bytes(Samples(ls[..i]))).closed
  }

  /** Each open yields one session.  In a good run a step that takes a session
      hands over the next file sent; after that and until the next open, every
      read that starts gets the end of file, and a further session is handed
      over exactly when a reader goes on that was asleep when this one was taken. */
  lemma OneSessionPerOpen(ls: seq<Label>, i: nat, j: nat)
    requires AllTyped(ls) && GoodRun(ls) && i < j < |ls| && TakesFile(ls, i) && NoOpen(ls, i, j)
    ensures |Received(ls[..i])| < |Sent(ls, i)| && Reply(ls, i) == Data(Sent(ls, i)[|Received(ls[..i])|])
    ensures ls[j].Read? ==> Reply(ls, j) == Eof
    ensures Reply(ls, j).Data? <==> ls[j].Woken?
    ensures ls[j].Woken? ==> Sleepers(ls[..i + 1]) > 0
  {
    hide Split, Bytes, At, TakeSession, Contents, Concat, Respects, Step, Delivers, Sleepers;
    GoodPrefix(ls, i);
    GoodPrefix(ls, j);
    DeliveryInvariant(ls[..i]);
    DeliveryInvariant(ls[..j]);
    NextRead(At(ls[..i]), ls[i], Split(Bytes(Samples(ls[..i]))), Received(ls[..i]));
    OneStep(ls, i);
    FinStays(ls, i + 1, j);
    SleepersFall(ls, i + 1, j);
    AfterSession(At(ls[..j]), ls[j], Split(Bytes(Samples(ls[..j]))), Received(ls[..j]));
  }

  lemma NextRead(s: State, l: Label, f: Files, out: seq<seq<byte>>)
    requires Delivers(s, f, out) && Typed(l) && Shape(s) && Respects(s, l, |f.closed|)
    requires Takes(s, l) && s.sizes[s.sHead] != 0
    ensures |out| < |f.closed| && Step(s, l).1 == Data(f.closed[|out|]) && Step(s, l).0.fin
  {
    hide TakeSession, Contents, Concat, Calm, Walk;
    NextSize(s, f, out);
    ReadDelivers(s, f, out, l.count);
  }

  /** After the session nobody goes to sleep. */
  lemma {:induction false} SleepersFall(ls: seq<Label>, i: nat, j: nat)
    requires AllTyped(ls) && i <= j <= |ls| && NoOpen(ls, i, j) && At(ls[..i]).fin
    ensures Sleepers(ls[..j]) <= Sleepers(ls[..i])
  {
    hide At, Step, Sleepers;
    if i < j {
      SleepersFall(ls, i, j - 1);
      FinStays(ls, i, j - 1);
      NoneSleeps(At(ls[..j - 1]), ls[j - 1]);
      SleepersStep(ls, j - 1);
    }
  }

  lemma NoneSleeps(s: State, l: Label)
    requires Shape(s) && Typed(l) && s.fin
    ensures Step(s, l).1 != Waiting
  {
    hide Drain, Interrupt, TakeSession;
    if l.Woken? {
      TakeReplies(s, l.count);
    }
  }

  lemma TakeReplies(s: State, count: int)
    requires Shape(s)
    ensures TakeSession(s, count).1.Data? || TakeSession(s, count).1.Wild?
  {
    hide Turn, RoundSize, Walk;
    if s.sCount != INT_MIN {
      var total := s.sizes[s.sHead];
      WalkReplies(s.(sHead := (s.sHead + 1) % MAX_SESSIONS, sCount := s.sCount - 1), [], s.pages, s.readOff, [],
                  total, Min(count, total));
    }
  }

  lemma {:induction false} WalkReplies(s: State, kept: seq<seq<byte>>, rest: seq<seq<byte>>, bo: nat,
                                       data: seq<byte>, total: int, actual: int)
    requires WholePages(rest)
    ensures var r := Walk(s, kept, rest, bo, data, total, actual).1; r.Data? || r.Wild?
    decreases |rest|
  {
    hide Turn, RoundSize;
    if rest != [] {
      var size := RoundSize(bo, |data|, total, actual);
      if bo + size <= PAGE_SIZE {
        var (t, kept', more) := Turn(s, kept, rest[0], bo, size, data, total);
        if |more| != total {
          WalkReplies(t, kept', rest[1..], bo + size, more, total, actual);
        }
      }
    }
  }

  lemma SleepersStep(ls: seq<Label>, k: nat)
    requires AllTyped(ls) && k < |ls|
    ensures Sleepers(ls[..k + 1]) == Sleepers(ls[..k]) + SleepChange(ls[k], Reply(ls, k))
  {
    hide Step, At;
    assert ls[..k + 1][..k] == ls[..k];
  }

  /** With the session read, who still gets data. */
  lemma AfterSession(s: State, l: Label, f: Files, out: seq<seq<byte>>)
    requires Delivers(s, f, out) && Typed(l) && Shape(s) && Respects(s, l, |f.closed|) && s.fin
    ensures l.Read? ==> Step(s, l).1 == Eof
    ensures Step(s, l).1.Data? <==> l.Woken?
  {
    hide TakeSession, Contents, Concat, Drain, Interrupt, Shape;
    if l.Woken? {
      ReadDelivers(s, f, out, l.count);
    }
  }

  lemma NextSize(s: State, f: Files, out: seq<seq<byte>>)
    requires Delivers(s, f, out) && Shape(s) && s.sCount >= 1
    ensures |out| < |f.closed| && s.sizes[s.sHead] == |f.closed[|out|]|
  {
    hide Contents, Concat;
  }

  /** When a session ends the open.  In a good run a read that takes a session
      sets the end-of-file mark exactly when the session is not empty or a page
      is held: an empty session read while no page is held is handed over as
      no bytes at all, and the same open goes on to the next session. */
  lemma OpenEndsIff(ls: seq<Label>, i: nat)
    requires AllTyped(ls) && GoodRun(ls) && i < |ls| && ls[i].Read? && Takes(At(ls[..i]), ls[i])
    ensures Reply(ls, i).Data?
    ensures At(ls[..i + 1]).fin <==> At(ls[..i]).sizes[At(ls[..i]).sHead] != 0 || At(ls[..i]).pages != []
  {
    hide Split, Bytes, At, TakeSession, Contents, Concat, Respects, Step, Delivers, Sleepers;
    GoodPrefix(ls, i);
    DeliveryInvariant(ls[..i]);
    OneStep(ls, i);
    ReadEnds(At(ls[..i]), ls[i], Split(Bytes(Samples(ls[..i]))), Received(ls[..i]));
  }

  lemma ReadEnds(s: State, l: Label, f: Files, out: seq<seq<byte>>)
    requires Delivers(s, f, out) && Typed(l) && Shape(s) && Respects(s, l, |f.closed|)
    requires l.Read? && Takes(s, l)
    ensures var (t, r) := Step(s, l);
            r.Data? && (t.fin <==> s.sizes[s.sHead] != 0 || s.pages != [])
  {
    hide TakeSession, Contents, Concat, Calm, Walk;
    CalmIs(s);
    NextSize(s, f, out);
    ReadDelivers(s, f, out, l.count);
    if s.sizes[s.sHead] == 0 {
      EmptyRead(s, l.count);
    }
  }
}
