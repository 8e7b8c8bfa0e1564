/** The calls of the pipeline: who may open it, when a read waits, and what one
    that does not wait takes. */
module PipelineCalls {
  import opened Machine
  import opened Wire
  import opened Pipeline
  import opened PipelineRing
  import opened PipelineSessions
  import opened PipelinePages
  import opened Delivery
  import opened GoodRuns
  import TW = TaskletWake

  // ----- opens ---------------------------------------------------------------

  /** An open succeeds exactly for reading and below the limit; it then clears
      the end-of-file mark and counts.  A refused open changes nothing: -13 is
      EACCES for the two modes that write, -16 is EBUSY at the limit. */
  lemma OpenIff(s: State, mode: int)
    ensures var (t, code) := OpenCall(s, mode);
            && (code == Code(0) <==> mode != 1 && mode != 2 && s.nprocs < s.maxProcs)
            && (code == Code(0) ==> t == s.(fin := false, nprocs := s.nprocs + 1))
            && (code != Code(0) ==> t == s && code == if mode == 1 || mode == 2 then Code(-13) else Code(-16))
  {
  }

  /** Step k of a run is an open that succeeds. */
  ghost predicate Opens(ls: seq<Label>, k: nat)
    requires AllTyped(ls) && k < |ls|
  {
    ls[k].Open? && Reply(ls, k) == Code(0)
  }

  ghost function Opened(ls: seq<Label>, n: nat): nat
    requires AllTyped(ls) && n <= |ls|
  {
    if n == 0 then 0 else Opened(ls, n - 1) + if Opens(ls, n - 1) then 1 else 0
  }

  function Released(ls: seq<Label>, n: nat): nat
    requires n <= |ls|
  {
    if n == 0 then 0 else Released(ls, n - 1) + if ls[n - 1].Release? then 1 else 0
  }

  /** What a step does to the process count and the limit. */
  lemma UseStep(s: State, l: Label)
    requires Shape(s) && Typed(l) && !s.wild
    ensures var (t, r) := Step(s, l);
            && t.nprocs == s.nprocs + (if l.Open? && r == Code(0) then 1 else 0) - (if l.Release? then 1 else 0)
            && (l.Open? && r == Code(0) ==> s.nprocs < s.maxProcs)
            && t.maxProcs == if l.SetMax? && l.n >= 0 then l.n else s.maxProcs
  {
    hide Interrupt, Drain, TakeSession;
    match l {
      case Sample(pins) => InterruptUse(s, pins);
      case Tasklet(alloc) => DrainFrame(s, alloc);
      case Read(count) => TakeFrame(s, count);
      case Woken(count) => TakeFrame(s, count);
      case _ =>
    }
  }

  /** In every run the process count is the number of opens that succeeded less
      the number of releases; and while nobody sets another limit, it is at most
      one. */
  lemma {:induction false} OpenBalance(ls: seq<Label>, n: nat)
    requires AllTyped(ls) && n <= |ls| && !At(ls[..n]).wild
    ensures At(ls[..n]).nprocs == Opened(ls, n) - Released(ls, n)
    ensures (forall k | 0 <= k < n :: !ls[k].SetMax?) ==> At(ls[..n]).nprocs <= At(ls[..n]).maxProcs == 1
  {
    hide Step, At;
    if n == 0 {
      NobodyAtStart();
    } else {
      OneStep(ls, n - 1);
      Monotone(At(ls[..n - 1]), ls[n - 1]);
      OpenBalance(ls, n - 1);
      UseStep(At(ls[..n - 1]), ls[n - 1]);
    }
  }

  lemma NobodyAtStart()
    ensures At([]).nprocs == 0 && At([]).maxProcs == 1 && !At([]).wild
  {
  }

  /** With every release preceded by its open, exactly zero or one file is open. */
  lemma OneOpenAtATime(ls: seq<Label>)
    requires AllTyped(ls) && !At(ls).wild && forall k | 0 <= k < |ls| :: !ls[k].SetMax?
    requires Released(ls, |ls|) <= Opened(ls, |ls|)
    ensures 0 <= At(ls).nprocs == Opened(ls, |ls|) - Released(ls, |ls|) <= 1
  {
    hide At, Step;
    assert ls[..|ls|] == ls;
    OpenBalance(ls, |ls|);
  }

  // ----- when a read waits ------------------------------------------------------

  /** A read waits exactly when no session is closed and the two offsets are
      equal; after the end-of-file mark it returns nothing; otherwise it takes
      the session at the head, finished or not. */
  lemma ReadWaitsIff(s: State, count: int)
    requires Shape(s)
    ensures var (t, r) := ReadCall(s, count);
            && (r == Eof <==> s.fin)
            && (r == Waiting <==> !s.fin && s.sCount == 0 && s.readOff == s.writeOff)
            && (r == Eof || r == Waiting ==> t == s)
            && (r != Eof && r != Waiting ==>
                  if s.sCount == -0x8000_0000 then t.wild && r == Wild
                  else t.sHead == (s.sHead + 1) % 100 && t.sCount == s.sCount - 1)
  {
    hide TakeSession, Shape;
    TakeReplies(s, count);
    TakeMoves(s, count);
  }

  /** C's remainder goes with the sign of its first operand. */
  lemma RemSign(x: int)
    ensures -100 < Rem(x, 100) < 100 && (x - Rem(x, 100)) % 100 == 0
    ensures if x >= 0 then Rem(x, 100) >= 0 else Rem(x, 100) <= 0
  {
  }

  /** The locked section of the interrupt reaches outside the driver's data
      exactly when it counts past the largest `int`, or has a byte to queue, room
      for it, and a head plus count below zero and not a multiple of 100. */
  lemma DeliverWildIff(s: State)
    requires Shape(s)
    ensures Deliver(s).wild <==>
            || s.wild
            || (s.top == 0 && s.sCount == 0x7fff_ffff)
            || (s.top != 0 && s.cCount < 64 && s.sHead + s.sCount < 0 && (s.sHead + s.sCount) % 100 != 0)
  {
    RemSign(s.sHead + s.sCount);
    hide Shape;
  }

  lemma TakeMoves(s: State, count: int)
    requires Shape(s)
    ensures var (t, r) := TakeSession(s, count);
            if s.sCount == INT_MIN then t.wild && r == Wild
            else t.sHead == (s.sHead + 1) % MAX_SESSIONS && t.sCount == s.sCount - 1
  {
    hide Walk, Turn, RoundSize;
    if s.sCount != INT_MIN {
      var total := s.sizes[s.sHead];
      WalkFrame(s.(sHead := (s.sHead + 1) % MAX_SESSIONS, sCount := s.sCount - 1), [], s.pages, s.readOff, [],
                total, Min(count, total));
    }
  }

  /** The wake-up protocol starts a read in the same way: it looks at the count
      exactly when the call here waits. */
  lemma WaitsLikeProtocol(s: State, count: int, w: TW.State, p: TW.Pid)
    requires Shape(s) && !s.fin && w.count == s.sCount && p !in w.readers
    ensures TW.Step(w, TW.Enter(p, s.readOff != s.writeOff)).readers[p].Checking?
            <==> ReadCall(s, count).1 == Waiting
  {
    hide TakeSession, Shape;
    TakeReplies(s, count);
  }

  /** A read that does not wait for its session: one byte of an unfinished file
      is received and drained, and a read returns it, takes the unfinished
      session and leaves the session count at -1. */
  lemma ReadOfUnfinishedSession(b: byte, count: int) returns (ls: seq<Label>)
    requires b != 0 && 1 <= count < U32_MOD
    ensures AllTyped(ls) && Accepted(ls) == [b]
    ensures At(ls).sCount == 0 && At(ls).readOff == 0 && At(ls).writeOff == 1 && !At(ls).fin && !At(ls).wild
    ensures ReadCall(At(ls), count).1 == Data([b]) && ReadCall(At(ls), count).0.sCount == -1
  {
    hide At, Ready, Quiet, Split, Continues, Delivers, Bytes, Samples, Received, GoodRun, Shape, ReadCall, Accepted;
    StartsQuiet();
    ls := StoreGood([], [], [], b, 0, 0);
    assert [] + [b] == [b];
    SplitAppend([], b);
    StaysFree([], ls);
    ReadyTyped(ls, [b], []);
    QuietIs(At(ls), 1, 0);
    FreeIs(At(ls));
    OpenGood(ls, [b], []);
    ls := ls + [Open(0)];
    ReadyFacts(ls, [b], []);
    AllAccepted(ls);
    assert [] + [b] == [b];
    TakesUnfinished(At(ls), b, count);
  }

  lemma StartsQuiet()
    ensures Ready([], [], []) && Quiet(At([]), 0, 0) && Free(At([])) && Split([]) == Files([], [])
  {
    assert Bytes([]) == [];
  }

  lemma QuietIs(s: State, used: nat, read: nat)
    requires Quiet(s, used, read)
    ensures s.cCount == 0 && s.readOff == read % PAGE_SIZE && s.writeOff == used % PAGE_SIZE
  {
  }

  lemma FreeIs(s: State)
    requires Free(s)
    ensures s.nprocs < s.maxProcs
  {
  }

  lemma TakesUnfinished(s: State, b: byte, count: int)
    requires Delivers(s, Files([], [b]), []) && s.cCount == 0 && s.readOff == 0 && s.writeOff == 1 && !s.fin
    requires 1 <= count < U32_MOD
    ensures s.sCount == 0
    ensures ReadCall(s, count).1 == Data([b]) && ReadCall(s, count).0.sCount == -1
  {
    hide Contents, TakeSession, Stream, Shape;
    CalmIs(s);
    ContentsLength(s);
    ShapeFacts(s);
    assert Concat<byte>([]) == [];
    assert Outstanding(Files([], [b]), 0) == [b];
    hide Concat;
    assert Stream(s) == [b];
    ReadWithinPage(s, count);
    assert [b][..1] == [b];
  }
}
