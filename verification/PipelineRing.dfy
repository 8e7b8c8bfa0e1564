/** The 64-slot ring between the interrupt and the tasklet is a bounded queue,
    in every run; and how the spin lock gets lost. */
module PipelineRing {
  import opened Machine
  import opened Wire
  import opened Pipeline

  /** The queue, from the head. */
  function Contents(s: State): seq<byte>
    requires Shape(s)
  {
    seq(s.cCount, i requires 0 <= i < s.cCount => s.cBuf[(s.cHead + i) % BUFFER_CAPACITY])
  }

  // ----- what arrives ------------------------------------------------------

  /** The label completes a byte. */
  predicate Assembles(s: State, l: Label) {
    l.Sample? && !s.wild && !s.toggle && s.sHead + s.sCount <= INT_MAX
  }

  function Assembled(s: State, l: Label): byte
    requires Assembles(s, l)
  {
    (s.top | HalfByte(l.pins)) as byte
  }

  /** The byte is dropped because the ring is full; the lock is not released. */
  predicate Drops(s: State, l: Label) {
    Assembles(s, l) && !s.lockHeld && Assembled(s, l) != 0 && s.cCount >= BUFFER_CAPACITY
  }

  /** The byte is taken: a NUL closes a session, another byte is queued. */
  predicate Accepts(s: State, l: Label) {
    && Assembles(s, l) && !s.lockHeld
    && if Assembled(s, l) == 0 then s.sCount < INT_MAX
       else s.cCount < BUFFER_CAPACITY && Rem(s.sHead + s.sCount, MAX_SESSIONS) >= 0
  }

  /** What a step takes from the wire. */
  function Taken(s: State, l: Label): seq<byte> {
    if Accepts(s, l) then [Assembled(s, l)] else []
  }

  /** What a step puts into the ring. */
  function Queued(s: State, l: Label): seq<byte> {
    if Accepts(s, l) && Assembled(s, l) != 0 then [Assembled(s, l)] else []
  }

  /** How many bytes a step takes out of the ring. */
  function Removed(s: State, l: Label): (n: nat)
    requires Shape(s) && Typed(l)
    ensures n <= s.cCount
  {
    if l.Tasklet? && !s.wild then
      DrainOnlyRemoves(s, l.alloc);
      s.cCount - Drain(s, l.alloc).cCount
    else 0
  }

  lemma {:induction false} DrainOnlyRemoves(s: State, alloc: Alloc)
    requires Shape(s) && WholePage(alloc)
    ensures 0 <= Drain(s, alloc).cCount <= s.cCount
    decreases s.cCount
  {
    hide DrainOne;
    if s.cCount > 0 && !s.lockHeld && !s.wild {
      DrainOnlyRemoves(DrainOne(s, alloc), alloc);
    }
  }

  /** The bytes taken in a run, NULs included. */
  ghost function Accepted(ls: seq<Label>): seq<byte>
    requires AllTyped(ls)
  {
    if ls == [] then []
    else Accepted(ls[..|ls| - 1]) + Taken(At(ls[..|ls| - 1]), ls[|ls| - 1])
  }

  function NonNul(bytes: seq<byte>): seq<byte> {
    if bytes == [] then []
    else NonNul(bytes[..|bytes| - 1]) + if bytes[|bytes| - 1] == 0 then [] else [bytes[|bytes| - 1]]
  }

  /** How many bytes tasklets have taken out of the ring. */
  ghost function Drained(ls: seq<Label>): nat
    requires AllTyped(ls)
  {
    if ls == [] then 0
    else Drained(ls[..|ls| - 1]) + Removed(At(ls[..|ls| - 1]), ls[|ls| - 1])
  }

  /** A run and its last step. */
  lemma AtLast(ls: seq<Label>)
    requires AllTyped(ls) && ls != []
    ensures At(ls) == Step(At(ls[..|ls| - 1]), ls[|ls| - 1]).0
  {
  }

  // ----- one step ----------------------------------------------------------

  lemma Enqueue(s: State)
    requires Shape(s) && s.cCount < BUFFER_CAPACITY && s.top != 0
    requires Rem(s.sHead + s.sCount, MAX_SESSIONS) >= 0
    ensures Contents(Deliver(s)) == Contents(s) + [s.top as byte]
  {
    Pushes(s);
    hide Deliver;
    var t := Deliver(s);
    forall i | 0 <= i < s.cCount
      ensures Contents(t)[i] == Contents(s)[i]
    {
      OtherSlot(s.cHead, i, s.cCount);
    }
  }

  lemma Pushes(s: State)
    requires Shape(s) && s.cCount < BUFFER_CAPACITY && s.top != 0
    requires Rem(s.sHead + s.sCount, MAX_SESSIONS) >= 0
    ensures var t := Deliver(s);
            && t.cHead == s.cHead && t.cCount == s.cCount + 1 && |t.cBuf| == |s.cBuf|
            && t.cBuf == s.cBuf[(s.cHead + s.cCount) % BUFFER_CAPACITY := s.top as byte]
  {
    hide Rem, U32;
  }

  lemma OtherSlot(head: nat, i: nat, n: nat)
    requires i < n < BUFFER_CAPACITY
    ensures (head + i) % BUFFER_CAPACITY != (head + n) % BUFFER_CAPACITY
  {
  }

  /** A dequeue takes the head and leaves the tail index as it was, so a tail
      index computed before the lock stays right. */
  lemma Dequeue(s: State, alloc: Alloc)
    requires Shape(s) && s.cCount > 0 && WholePage(alloc)
    ensures var t := DrainOne(s, alloc);
            && Contents(t) == Contents(s)[1..]
            && (t.cHead + t.cCount) % BUFFER_CAPACITY == (s.cHead + s.cCount) % BUFFER_CAPACITY
  {
    Pops(s, alloc);
    hide DrainOne;
    var t := DrainOne(s, alloc);
    NextSlot(s.cHead, t.cCount);
    forall i | 0 <= i < t.cCount
      ensures Contents(t)[i] == Contents(s)[1..][i]
    {
      NextSlot(s.cHead, i);
    }
  }

  lemma Pops(s: State, alloc: Alloc)
    requires Shape(s) && s.cCount > 0 && WholePage(alloc)
    ensures var t := DrainOne(s, alloc);
            t.cBuf == s.cBuf && t.cHead == (s.cHead + 1) % BUFFER_CAPACITY && t.cCount == s.cCount - 1
  {
    hide Shape, U32;
  }

  lemma NextSlot(head: nat, i: nat)
    ensures ((head + 1) % BUFFER_CAPACITY + i) % BUFFER_CAPACITY == (head + (i + 1)) % BUFFER_CAPACITY
  {
  }

  lemma {:induction false} Dequeues(s: State, alloc: Alloc)
    requires Shape(s) && WholePage(alloc)
    ensures var t := Drain(s, alloc);
            && t.cCount <= s.cCount
            && Contents(t) == Contents(s)[s.cCount - t.cCount..]
            && (t.cHead + t.cCount) % BUFFER_CAPACITY == (s.cHead + s.cCount) % BUFFER_CAPACITY
    decreases s.cCount
  {
    hide DrainOne, Contents;
    ContentsLength(s);
    ContentsLength(Drain(s, alloc));
    if s.cCount > 0 && !s.lockHeld && !s.wild {
      Dequeue(s, alloc);
      Dequeues(DrainOne(s, alloc), alloc);
    }
  }

  lemma ContentsLength(s: State)
    requires Shape(s)
    ensures |Contents(s)| == s.cCount <= BUFFER_CAPACITY
  {
  }

  /** What a page walk leaves alone. */
  predicate SameButPages(s: State, t: State) {
    t == s.(readOff := t.readOff, fin := t.fin, pages := t.pages, numPages := t.numPages,
            dataSize := t.dataSize, wild := t.wild)
  }

  lemma TurnFrame(s: State, kept: seq<seq<byte>>, page: seq<byte>, bo: nat, size: nat,
                  data: seq<byte>, total: int)
    requires bo + size <= |page|
    ensures var (t, kept', more) := Turn(s, kept, page, bo, size, data, total);
            SameButPages(s, t) && t.pages == s.pages && |kept'| <= |kept| + 1 && (s.fin ==> t.fin)
  {
  }

  lemma {:induction false} WalkFrame(s: State, kept: seq<seq<byte>>, rest: seq<seq<byte>>, bo: nat,
                                     data: seq<byte>, total: int, actual: int)
    requires WholePages(rest)
    ensures var t := Walk(s, kept, rest, bo, data, total, actual).0;
            SameButPages(s, t) && |t.pages| <= |kept| + |rest| && (s.fin ==> t.fin)
    decreases |rest|
  {
    hide Turn, RoundSize;
    if rest != [] {
      var size := RoundSize(bo, |data|, total, actual);
      if bo + size <= PAGE_SIZE {
        TurnFrame(s, kept, rest[0], bo, size, data, total);
        var (t, kept', more) := Turn(s, kept, rest[0], bo, size, data, total);
        if |more| != total {
          WalkFrame(t, kept', rest[1..], bo + size, more, total, actual);
        }
      }
    }
  }

  /** Taking a session moves the session head and the pages, nothing else. */
  lemma TakeFrame(s: State, count: int)
    requires Shape(s)
    ensures var t := TakeSession(s, count).0;
            && SameButPages(s.(sHead := t.sHead, sCount := t.sCount), t) && (s.fin ==> t.fin)
            && |t.pages| <= |s.pages|
            && (t.sHead + t.sCount) % MAX_SESSIONS == (s.sHead + s.sCount) % MAX_SESSIONS
  {
    hide Walk, Turn, RoundSize;
    if s.sCount != INT_MIN {
      var total := s.sizes[s.sHead];
      var t := s.(sHead := (s.sHead + 1) % MAX_SESSIONS, sCount := s.sCount - 1);
      WalkFrame(t, [], s.pages, s.readOff, [], total, Min(count, total));
    }
  }

  // ----- every run -----------------------------------------------------------

  lemma OnlySamples(s: State, l: Label)
    ensures !l.Sample? ==> Taken(s, l) == [] && Queued(s, l) == []
  {
  }

  lemma NonNulTaken(bytes: seq<byte>, s: State, l: Label)
    ensures NonNul(bytes + Taken(s, l)) == NonNul(bytes) + Queued(s, l)
  {
    hide Accepts, Assembled;
    if Taken(s, l) == [] {
      assert bytes + Taken(s, l) == bytes;
    } else {
      assert (bytes + Taken(s, l))[..|bytes|] == bytes;
    }
  }

  lemma SameRing(s: State, t: State)
    requires Shape(s) && Shape(t) && t.cHead == s.cHead && t.cCount == s.cCount && t.cBuf == s.cBuf
    ensures Contents(t) == Contents(s)
  {
  }

  /** What a sample does, by the byte it completes. */
  lemma SampleStep(s: State, l: Label)
    requires Shape(s) && l.Sample?
    ensures var t := Step(s, l).0;
            && (!Assembles(s, l) || s.lockHeld ==>
                  t == s.(toggle := t.toggle, top := t.top, wild := t.wild))
            && (Assembles(s, l) && !s.lockHeld ==>
                  t == Deliver(s.(toggle := true, top := s.top | HalfByte(l.pins))))
  {
    hide Deliver, HalfByte;
  }

  /** What the locked section of the interrupt queues. */
  function Delivered(t: State): seq<byte> {
    if t.top as byte != 0 && t.cCount < BUFFER_CAPACITY && Rem(t.sHead + t.sCount, MAX_SESSIONS) >= 0
    then [t.top as byte] else []
  }

  lemma QueuedIsDelivered(s: State, l: Label)
    requires Shape(s) && l.Sample?
    ensures Queued(s, l) ==
            if Assembles(s, l) && !s.lockHeld
            then Delivered(s.(toggle := true, top := s.top | HalfByte(l.pins))) else []
  {
    hide HalfByte;
  }

  lemma DeliverQueue(t: State)
    requires Shape(t)
    ensures Contents(Deliver(t)) == Contents(t) + Delivered(t)
  {
    hide Contents;
    if Delivered(t) != [] {
      Enqueue(t);
    } else {
      SameRing(t, Deliver(t));
      assert Contents(t) + [] == Contents(t);
    }
  }

  /** The effect of a sample on the queue. */
  lemma SampleQueue(s: State, l: Label)
    requires Shape(s) && l.Sample?
    ensures Contents(Step(s, l).0) == Contents(s) + Queued(s, l)
  {
    hide Step, HalfByte, Contents, Queued, Deliver, Delivered;
    SampleStep(s, l);
    QueuedIsDelivered(s, l);
    if Assembles(s, l) && !s.lockHeld {
      var t := s.(toggle := true, top := s.top | HalfByte(l.pins));
      SameRing(s, t);
      DeliverQueue(t);
    } else {
      SameRing(s, Step(s, l).0);
      assert Contents(s) + [] == Contents(s);
    }
  }

  /** The effect of any step on the queue: bytes go in at the end and come out
      at the front. */
  lemma QueueStep(s: State, l: Label)
    requires Shape(s) && Typed(l)
    ensures Removed(s, l) <= |Contents(s) + Queued(s, l)|
    ensures Contents(Step(s, l).0) == (Contents(s) + Queued(s, l))[Removed(s, l)..]
  {
    hide Contents, Accepts, Walk, Drain, Interrupt;
    ContentsLength(s);
    OnlySamples(s, l);
    match l {
      case Sample(_) => SampleQueue(s, l);
      case Tasklet(alloc) =>
        Dequeues(s, alloc);
        assert Contents(s) + Queued(s, l) == Contents(s);
      case Read(count) =>
        TakeFrame(s, count);
        SameRing(s, Step(s, l).0);
        assert Contents(s) + Queued(s, l) == Contents(s);
      case Woken(count) =>
        TakeFrame(s, count);
        SameRing(s, Step(s, l).0);
        assert Contents(s) + Queued(s, l) == Contents(s);
      case _ =>
        SameRing(s, Step(s, l).0);
        assert Contents(s) + Queued(s, l) == Contents(s);
    }
  }

  lemma QueueAlgebra(all: seq<byte>, d: nat, more: seq<byte>, k: nat)
    requires d <= |all| && d + k <= |all + more|
    ensures (all[d..] + more)[k..] == (all + more)[d + k..]
  {
  }

  /** The ring holds, in order, the bytes taken and not yet drained, at most 64
      of them, in every run. */
  lemma {:induction false} RingIsQueue(ls: seq<Label>)
    requires AllTyped(ls)
    ensures Drained(ls) <= |NonNul(Accepted(ls))| <= Drained(ls) + 64
    ensures Contents(At(ls)) == NonNul(Accepted(ls))[Drained(ls)..]
  {
    hide Step, Contents, Removed, Taken, Queued;
    if ls != [] {
      var init, l := ls[..|ls| - 1], ls[|ls| - 1];
      var s := At(init);
      RingIsQueue(init);
      AtLast(ls);
      QueueStep(s, l);
      ContentsLength(s);
      ContentsLength(At(ls));
      NonNulTaken(Accepted(init), s, l);
      QueueAlgebra(NonNul(Accepted(init)), Drained(init), Queued(s, l), Removed(s, l));
    } else {
      ContentsLength(Start());
    }
  }

  // ----- bursts and drops ------------------------------------------------------

  /** How many bytes were queued since the last tasklet. */
  ghost function Since(ls: seq<Label>): nat
    requires AllTyped(ls)
  {
    if ls == [] then 0
    else
      var n := |ls| - 1;
      var s := At(ls[..n]);
      if ls[n].Tasklet? then 0 else Since(ls[..n]) + |Queued(s, ls[n])|
  }

  lemma {:induction false} DrainEmpties(s: State, alloc: Alloc)
    requires Shape(s) && WholePage(alloc)
    ensures var t := Drain(s, alloc); t.lockHeld || t.wild || t.cCount == 0
    decreases s.cCount
  {
    if s.cCount > 0 && !s.lockHeld && !s.wild {
      DrainEmpties(DrainOne(s, alloc), alloc);
    }
  }

  /** A step never gives the lock back and never comes back from nowhere. */
  lemma Monotone(s: State, l: Label)
    requires Shape(s) && Typed(l)
    ensures s.lockHeld ==> Step(s, l).0.lockHeld
    ensures s.wild ==> Step(s, l).0.wild
  {
    hide Walk, HalfByte;
    match l {
      case Read(count) => TakeFrame(s, count);
      case Woken(count) => TakeFrame(s, count);
      case _ =>
    }
  }

  lemma {:induction false} CountIsSince(ls: seq<Label>)
    requires AllTyped(ls)
    ensures !At(ls).lockHeld && !At(ls).wild ==> At(ls).cCount == Since(ls)
  {
    if ls != [] {
      var n := |ls| - 1;
      var s, l := At(ls[..n]), ls[n];
      CountIsSince(ls[..n]);
      AtLast(ls);
      Monotone(s, l);
      QueueStep(s, l);
      ContentsLength(s);
      ContentsLength(At(ls));
      hide Step, Contents, Queued;
      if l.Tasklet? && !s.wild && !s.lockHeld {
        TaskletEmpties(s, l.alloc);
      }
    }
  }

  lemma TaskletEmpties(s: State, alloc: Alloc)
    requires Shape(s) && WholePage(alloc)
    ensures var t := Step(s, Tasklet(alloc)).0; t.lockHeld || t.wild || t.cCount == 0
  {
    DrainEmpties(s, alloc);
  }

  /** A byte is dropped only when 64 bytes have been queued since the last
      tasklet: at most 64 bytes between tasklets lose nothing. */
  lemma DropNeedsBurst(ls: seq<Label>, l: Label)
    requires AllTyped(ls) && Drops(At(ls), l)
    ensures Since(ls) == 64
  {
    CountIsSince(ls);
  }

  // ----- the lock ----------------------------------------------------------------

  /** The tasklet comes to a byte that needs a page and is refused one: the
      (4096 - writeOff) mod 4096-th byte of the ring. */
  predicate RefusedPage(s: State, l: Label) {
    && l.Tasklet? && !s.lockHeld && !s.wild
    && (PAGE_SIZE - s.writeOff) % PAGE_SIZE < s.cCount
    && (s.writeOff == 0 || s.pages != [])
    && (l.alloc.NoPage? || s.numPages >= MAX_FRAMES)
  }

  lemma DrainOneFacts(s: State, alloc: Alloc)
    requires Shape(s) && s.cCount > 0 && WholePage(alloc) && !s.lockHeld && !s.wild
    ensures var t := DrainOne(s, alloc);
            && (t.lockHeld <==> s.writeOff == 0 && (alloc.NoPage? || s.numPages >= MAX_FRAMES))
            && (t.wild <==> s.writeOff != 0 && s.pages == [])
            && (!t.lockHeld && !t.wild ==>
                  t.writeOff == (s.writeOff + 1) % PAGE_SIZE && t.pages != []
                  && t.numPages == s.numPages + if s.writeOff == 0 then 1 else 0)
  {
  }

  lemma {:induction false} DrainRefused(s: State, alloc: Alloc)
    requires Shape(s) && WholePage(alloc) && !s.lockHeld && !s.wild
    ensures Drain(s, alloc).lockHeld <==> RefusedPage(s, Tasklet(alloc))
    decreases s.cCount
  {
    hide DrainOne;
    if s.cCount > 0 {
      DrainOneFacts(s, alloc);
      var t := DrainOne(s, alloc);
      if !t.lockHeld && !t.wild {
        DrainRefused(t, alloc);
      }
    }
  }

  predicate Leaks(s: State, l: Label) {
    Drops(s, l) || RefusedPage(s, l)
  }

  lemma LockStep(s: State, l: Label)
    requires Shape(s) && Typed(l)
    ensures Step(s, l).0.lockHeld <==> s.lockHeld || Leaks(s, l)
  {
    hide Walk, HalfByte, Interrupt, Drain;
    match l {
      case Tasklet(alloc) =>
        if !s.lockHeld && !s.wild {
          DrainRefused(s, alloc);
        } else {
          LockedDrain(s, alloc);
        }
      case Read(count) => TakeFrame(s, count);
      case Woken(count) => TakeFrame(s, count);
      case Sample(pins) => SampleLock(s, l);
      case _ =>
    }
  }

  lemma LockedDrain(s: State, alloc: Alloc)
    requires Shape(s) && WholePage(alloc) && (s.lockHeld || s.wild)
    ensures Drain(s, alloc) == s
  {
  }

  lemma SampleLock(s: State, l: Label)
    requires Shape(s) && l.Sample?
    ensures Step(s, l).0.lockHeld <==> s.lockHeld || Drops(s, l)
  {
    hide Step, HalfByte, Deliver, Shape, Drops, Assembles;
    TopShape(s, true, s.top | HalfByte(l.pins));
    DropsIs(s, l);
    SampleStep(s, l);
    if Assembles(s, l) && !s.lockHeld {
      DeliverLock(s.(toggle := true, top := s.top | HalfByte(l.pins)));
    }
  }

  lemma DropsIs(s: State, l: Label)
    requires l.Sample?
    ensures Drops(s, l) <==> Assembles(s, l) && !s.lockHeld
                             && (s.top | HalfByte(l.pins)) as byte != 0 && s.cCount >= BUFFER_CAPACITY
  {
    hide HalfByte, Assembles;
  }

  lemma DeliverLock(t: State)
    requires Shape(t)
    ensures Deliver(t).lockHeld <==> t.lockHeld || (t.top as byte != 0 && t.cCount >= BUFFER_CAPACITY)
  {
  }

  lemma {:induction false} FindLeak(ls: seq<Label>) returns (i: nat)
    requires AllTyped(ls) && ls != [] && At(ls).lockHeld
    ensures i < |ls| && Leaks(At(ls[..i]), ls[i])
  {
    hide Step, Leaks, Shape;
    var n := |ls| - 1;
    AtLast(ls);
    LockStep(At(ls[..n]), ls[n]);
    if At(ls[..n]).lockHeld {
      UnlockedAtStart();
      i := FindLeak(ls[..n]);
      assert ls[..n][..i] == ls[..i];
    } else {
      i := n;
    }
  }

  lemma UnlockedAtStart()
    ensures !At([]).lockHeld
  {
  }

  lemma {:induction false} LeakStays(ls: seq<Label>, i: nat)
    requires AllTyped(ls) && i < |ls| && Leaks(At(ls[..i]), ls[i])
    ensures At(ls).lockHeld
  {
    hide Step, Leaks, Shape;
    var n := |ls| - 1;
    AtLast(ls);
    LockStep(At(ls[..n]), ls[n]);
    if i < n {
      assert ls[..n][..i] == ls[..i];
      LeakStays(ls[..n], i);
    }
  }

  /** The lock is found held exactly when some earlier step dropped a byte or
      was refused a page. */
  lemma LockLostIff(ls: seq<Label>)
    requires AllTyped(ls)
    ensures At(ls).lockHeld <==> exists i :: 0 <= i < |ls| && Leaks(At(ls[..i]), ls[i])
  {
    hide Step, Leaks, Shape, At;
    UnlockedAtStart();
    if At(ls).lockHeld {
      var i := FindLeak(ls);
    } else if i :| 0 <= i < |ls| && Leaks(At(ls[..i]), ls[i]) {
      LeakStays(ls, i);
    }
  }

  lemma FrozenStep(s: State, l: Label)
    requires Shape(s) && Typed(l) && s.lockHeld
    ensures var t := Step(s, l).0;
            && t.lockHeld && Contents(t) == Contents(s) && t.sizes == s.sizes
            && t.writeOff == s.writeOff && |t.pages| <= |s.pages|
  {
    hide Walk, HalfByte, Contents;
    if l.Read? || l.Woken? {
      TakeFrame(s, l.count);
    }
    SameRing(s, Step(s, l).0);
  }

  /** Once the lock is lost no byte is ever queued, counted or stored again. */
  lemma {:induction false} FrozenByLostLock(s: State, ls: seq<Label>)
    requires Shape(s) && AllTyped(ls) && s.lockHeld
    ensures var t := Exec(s, ls).0;
            && t.lockHeld && Contents(t) == Contents(s) && t.sizes == s.sizes
            && t.writeOff == s.writeOff && |t.pages| <= |s.pages|
  {
    hide Step, Contents;
    if ls != [] {
      var n := |ls| - 1;
      FrozenByLostLock(s, ls[..n]);
      FrozenStep(Exec(s, ls[..n]).0, ls[n]);
    }
  }
}
