/** Session accounting: what the size slots hold in every run, when a slot is
    the size of its session, and what becomes of the session counter. */
module PipelineSessions {
  import opened Machine
  import opened Wire
  import opened Pipeline
  import opened PipelineRing

  /** The sessions of a stream, the one being received last. */
  function Sessions(bytes: seq<byte>): seq<seq<byte>> {
    Split(bytes).closed + [Split(bytes).open]
  }

  /** The bytes of all sessions whose number is j modulo MAX_SESSIONS. */
  function SlotSum(sessions: seq<seq<byte>>, j: nat): nat {
    if sessions == [] then 0
    else
      var n := |sessions| - 1;
      SlotSum(sessions[..n], j) + if n % MAX_SESSIONS == j then |sessions[n]| else 0
  }

  lemma SlotSumAppend(sessions: seq<seq<byte>>, last: seq<byte>, j: nat)
    ensures SlotSum(sessions + [last], j)
         == SlotSum(sessions, j) + if |sessions| % MAX_SESSIONS == j then |last| else 0
  {
    assert (sessions + [last])[..|sessions|] == sessions;
  }

  /** A byte counts for the slot of the session being received. */
  lemma SlotSumByte(bytes: seq<byte>, b: byte, j: nat)
    ensures SlotSum(Sessions(bytes + [b]), j) == SlotSum(Sessions(bytes), j)
            + if b != 0 && |Split(bytes).closed| % MAX_SESSIONS == j then 1 else 0
    ensures |Split(bytes + [b]).closed| == |Split(bytes).closed| + if b == 0 then 1 else 0
  {
    SplitAppend(bytes, b);
    var f := Split(bytes);
    SlotSumAppend(f.closed, f.open, j);
    if b == 0 {
      SlotSumAppend(f.closed + [f.open], [], j);
    } else {
      SlotSumAppend(f.closed, f.open + [b], j);
    }
  }

  // ----- one step ------------------------------------------------------------

  /** The slot in which the session being received is counted. */
  function Slot(s: State): int {
    Rem(s.sHead + s.sCount, MAX_SESSIONS)
  }

  /** What the locked section of the interrupt takes. */
  function TakenBy(t: State): seq<byte> {
    if t.top as byte == 0 && t.sCount < INT_MAX then [0] else Delivered(t)
  }

  /** Taking a byte counts it, or closes a session. */
  predicate Counted(s: State, b: seq<byte>, t: State)
    requires |s.sizes| == MAX_SESSIONS
  {
    && |b| <= 1
    && (b == [] || b[0] == 0 ==> t.sizes == s.sizes)
    && (b != [] && b[0] != 0 ==>
          0 <= Slot(s) < MAX_SESSIONS && t.sizes == s.sizes[Slot(s) := U32(s.sizes[Slot(s)] + 1)])
  }

  lemma DeliverSession(t: State)
    requires Shape(t)
    ensures var u, b := Deliver(t), TakenBy(t);
            Counted(t, b, u)
            && u.sHead == t.sHead && u.sCount == t.sCount + if b != [] && b[0] == 0 then 1 else 0
  {
    hide Shape;
    SlotsLength(t);
    NulIs(t);
  }

  lemma NulIs(t: State)
    ensures t.top as byte == 0 <==> t.top == 0
  {
  }

  lemma SlotsLength(s: State)
    requires Shape(s)
    ensures |s.sizes| == MAX_SESSIONS && s.sCount <= INT_MAX
  {
  }

  lemma TakenIs(s: State, l: Label)
    requires Shape(s) && l.Sample?
    ensures Taken(s, l) ==
            if Assembles(s, l) && !s.lockHeld
            then TakenBy(s.(toggle := true, top := s.top | HalfByte(l.pins))) else []
  {
    hide HalfByte;
  }

  lemma SampleSession(s: State, l: Label)
    requires Shape(s) && l.Sample?
    ensures var t, b := Step(s, l).0, Taken(s, l);
            Counted(s, b, t)
            && t.sHead == s.sHead && t.sCount == s.sCount + if b != [] && b[0] == 0 then 1 else 0
  {
    hide Step, Taken, TakenBy, Deliver, HalfByte, Shape;
    SampleStep(s, l);
    TakenIs(s, l);
    if Assembles(s, l) && !s.lockHeld {
      var t := s.(toggle := true, top := s.top | HalfByte(l.pins));
      TopShape(s, true, t.top);
      SlotsLength(s);
      DeliverSession(t);
      assert Slot(t) == Slot(s);
    }
  }

  /** The effect of any step on the slots and on the session numbering. */
  lemma SessionStep(s: State, l: Label)
    requires Shape(s) && Typed(l)
    ensures Shape(Step(s, l).0) && |Taken(s, l)| <= 1
    ensures var t, b := Step(s, l).0, Taken(s, l);
            && Counted(s, b, t)
            && (t.sHead + t.sCount) % MAX_SESSIONS
               == (s.sHead + s.sCount + if b != [] && b[0] == 0 then 1 else 0) % MAX_SESSIONS
  {
    hide Walk, Turn, RoundSize, HalfByte, Interrupt;
    match l {
      case Sample(_) => SampleSession(s, l);
      case Tasklet(alloc) => DrainFrame(s, alloc);
      case Read(count) => TakeFrame(s, count);
      case Woken(count) => TakeFrame(s, count);
      case _ =>
    }
  }

  /** The tasklet touches no session counter. */
  lemma {:induction false} DrainFrame(s: State, alloc: Alloc)
    requires Shape(s) && WholePage(alloc)
    ensures var t := Drain(s, alloc);
            t == s.(cHead := t.cHead, cCount := t.cCount, writeOff := t.writeOff, pages := t.pages,
                    numPages := t.numPages, dataSize := t.dataSize, lockHeld := t.lockHeld, wild := t.wild)
    decreases s.cCount
  {
    hide DrainOne;
    if s.cCount > 0 && !s.lockHeld && !s.wild {
      DrainOneFrame(s, alloc);
      DrainFrame(DrainOne(s, alloc), alloc);
    }
  }

  lemma DrainOneFrame(s: State, alloc: Alloc)
    requires Shape(s) && WholePage(alloc) && s.cCount > 0
    ensures var t := DrainOne(s, alloc);
            t == s.(cHead := t.cHead, cCount := t.cCount, writeOff := t.writeOff, pages := t.pages,
                    numPages := t.numPages, dataSize := t.dataSize, lockHeld := t.lockHeld, wild := t.wild)
  {
    hide Shape, U32;
  }

  // ----- every run -------------------------------------------------------------

  /** The accounts of a state that has taken `bytes`. */
  ghost predicate Accounts(s: State, bytes: seq<byte>) {
    && Shape(s)
    && (s.sHead + s.sCount) % MAX_SESSIONS == |Split(bytes).closed| % MAX_SESSIONS
    && forall j | 0 <= j < MAX_SESSIONS :: s.sizes[j] == U32(SlotSum(Sessions(bytes), j))
  }

  /** In every run, head plus count is the number of NULs taken, modulo the
      number of slots, and each slot holds the bytes of all sessions that ever
      used it (a slot is never cleared), in 32 bits. */
  lemma {:induction false} Accounting(ls: seq<Label>)
    requires AllTyped(ls)
    ensures Accounts(At(ls), Accepted(ls))
  {
    hide Step, Taken, Accounts;
    if ls == [] {
      AccountsAtStart();
    } else {
      var init, l := ls[..|ls| - 1], ls[|ls| - 1];
      Accounting(init);
      AtLast(ls);
      AccountingStep(At(init), l, Accepted(init));
    }
  }

  lemma AccountsAtStart()
    ensures Accounts(Start(), [])
  {
    forall j | 0 <= j < MAX_SESSIONS
      ensures Start().sizes[j] == U32(SlotSum(Sessions([]), j))
    {
      SlotSumAppend([], [], j);
      assert [] + [[]] == Sessions([]);
    }
  }

  lemma AccountingStep(s: State, l: Label, bytes: seq<byte>)
    requires Accounts(s, bytes) && Typed(l)
    ensures Accounts(Step(s, l).0, bytes + Taken(s, l))
  {
    hide Step, Taken, Accounts, Shape, Counted;
    AccountsShape(s, bytes);
    SessionStep(s, l);
    var t, taken := Step(s, l).0, Taken(s, l);
    if taken == [] {
      assert bytes + taken == bytes;
      AccountsSame(s, t, bytes);
    } else {
      assert taken == [taken[0]];
      AccountingByte(s, t, bytes, taken[0]);
    }
  }

  lemma AccountsShape(s: State, bytes: seq<byte>)
    requires Accounts(s, bytes)
    ensures Shape(s)
  {
  }

  lemma AccountsSame(s: State, t: State, bytes: seq<byte>)
    requires Accounts(s, bytes) && Shape(t) && Counted(s, [], t)
    requires (t.sHead + t.sCount) % MAX_SESSIONS == (s.sHead + s.sCount) % MAX_SESSIONS
    ensures Accounts(t, bytes)
  {
  }

  lemma AccountingByte(s: State, t: State, bytes: seq<byte>, b: byte)
    requires Accounts(s, bytes) && Shape(t)
    requires Counted(s, [b], t)
    requires (t.sHead + t.sCount) % MAX_SESSIONS
          == (s.sHead + s.sCount + if b == 0 then 1 else 0) % MAX_SESSIONS
    ensures Accounts(t, bytes + [b])
  {
    hide Slot, U32, SlotSum, Sessions, Split, Shape;
    var n := |Split(bytes).closed|;
    SlotIndex(s, n);
    SlotsLength(s);
    SlotsLength(t);
    SlotSumByte(bytes, b, 0);
    SameResidue(s.sHead + s.sCount, n);
    forall j | 0 <= j < MAX_SESSIONS
      ensures t.sizes[j] == U32(SlotSum(Sessions(bytes + [b]), j))
    {
      SlotSumByte(bytes, b, j);
      U32Plus(SlotSum(Sessions(bytes), j));
    }
  }

  lemma SameResidue(x: int, y: int)
    requires x % MAX_SESSIONS == y % MAX_SESSIONS
    ensures (x + 1) % MAX_SESSIONS == (y + 1) % MAX_SESSIONS
  {
  }

  lemma U32Plus(x: nat)
    ensures U32(U32(x) + 1) == U32(x + 1)
  {
  }

  /** A slot that is not negative is the session number modulo the slots. */
  lemma SlotIndex(s: State, n: nat)
    requires (s.sHead + s.sCount) % MAX_SESSIONS == n % MAX_SESSIONS
    ensures Slot(s) >= 0 ==> Slot(s) == n % MAX_SESSIONS
  {
  }

  // ----- when a slot is right ------------------------------------------------

  /** Every other session that used the slot of session n was empty. */
  predicate SlotUnshared(sessions: seq<seq<byte>>, n: nat) {
    forall m | 0 <= m < |sessions| && m != n && m % 100 == n % 100 :: sessions[m] == []
  }

  lemma {:induction false} SlotSumZero(sessions: seq<seq<byte>>, j: nat)
    ensures SlotSum(sessions, j) == 0 <==>
            forall m | 0 <= m < |sessions| && m % MAX_SESSIONS == j :: sessions[m] == []
  {
    if sessions != [] {
      var n := |sessions| - 1;
      SlotSumZero(sessions[..n], j);
      assert forall m | 0 <= m < n :: sessions[..n][m] == sessions[m];
    }
  }

  /** The slot sum is the length of session n exactly when every other session
      in the slot is empty. */
  lemma {:induction false} SlotExactIff(sessions: seq<seq<byte>>, n: nat)
    requires n < |sessions|
    ensures SlotSum(sessions, n % MAX_SESSIONS) >= |sessions[n]|
    ensures SlotSum(sessions, n % MAX_SESSIONS) == |sessions[n]| <==> SlotUnshared(sessions, n)
  {
    var last := |sessions| - 1;
    var init := sessions[..last];
    assert forall m | 0 <= m < last :: init[m] == sessions[m];
    if n == last {
      SlotSumZero(init, n % MAX_SESSIONS);
    } else {
      SlotExactIff(init, n);
      assert SlotUnshared(sessions, n) <==>
             SlotUnshared(init, n) && (last % MAX_SESSIONS == n % MAX_SESSIONS ==> sessions[last] == []);
    }
  }

  lemma {:induction false} SlotSumBound(bytes: seq<byte>, j: nat)
    ensures SlotSum(Sessions(bytes), j) <= |bytes|
  {
    if bytes == [] {
      SlotSumAppend([], [], j);
      assert [] + [[]] == Sessions([]);
    } else {
      var n := |bytes| - 1;
      SlotSumBound(bytes[..n], j);
      SlotSumByte(bytes[..n], bytes[n], j);
      assert bytes[..n] + [bytes[n]] == bytes;
    }
  }

  /** In every run that has taken less than 4 GiB: the slot of session n is its
      length exactly when every other session of that slot, earlier or later,
      is empty. */
  lemma SlotHoldsIff(ls: seq<Label>, n: nat)
    requires AllTyped(ls) && n < |Sessions(Accepted(ls))| && |Accepted(ls)| < U32_MOD
    ensures At(ls).sizes[n % 100] == |Sessions(Accepted(ls))[n]|
            <==> SlotUnshared(Sessions(Accepted(ls)), n)
  {
    hide At, Accepted, SlotSum, Sessions, SlotUnshared;
    Accounting(ls);
    SlotExactIff(Sessions(Accepted(ls)), n);
    SlotSumBound(Accepted(ls), n % MAX_SESSIONS);
  }

  /** Before any slot is used again, the slots are the NUL-split of the stream
      taken: the length of every closed session and of the one being received. */
  lemma SizesBeforeReuse(ls: seq<Label>, n: nat)
    requires AllTyped(ls)
    requires n < |Sessions(Accepted(ls))| <= 100
    ensures At(ls).sizes[n] == U32(|Sessions(Accepted(ls))[n]|)
  {
    hide At, Accepted;
    Accounting(ls);
    SizeOf(At(ls), Accepted(ls), n);
  }

  lemma SizeOf(s: State, bytes: seq<byte>, n: nat)
    requires Accounts(s, bytes) && n < |Sessions(bytes)| <= MAX_SESSIONS
    ensures s.sizes[n] == U32(|Sessions(bytes)[n]|)
  {
    hide U32, SlotSum, Sessions, Split;
    SlotExactIff(Sessions(bytes), n);
    assert n % MAX_SESSIONS == n;
    assert SlotUnshared(Sessions(bytes), n);
  }
}
