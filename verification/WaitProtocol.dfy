/** The exclusive sleep and wake-up handshake over one flag: readers sleep until
    data is ready and clear the flag, writers set it and wake one sleeper.  Any
    number of readers and writers, one access per step. */
module WaitProtocol {

  type Pid = nat

  /** Where a reader is.  The wait checks the flag, queues the reader, checks
      again and only then sleeps; a reader that is woken, or disturbed by a
      signal, queues itself and checks again. */
  datatype Phase =
    | Checking     // first look at the flag
    | Preparing    // about to join the queue
    | Rechecking   // queued, second look at the flag
    | Asleep       // gone to sleep; awake again once it is off the queue
    | Aborting     // leaves the wait because of a signal
    | Passed       // out of the wait, about to clear the flag

  datatype State = State(flag: bool, queue: seq<Pid>, readers: map<Pid, Phase>, writers: set<Pid>)

  datatype Label =
    | Enter(p: Pid)                   // a read starts
    | Reader(p: Pid, signal: bool)    // its next step, with or without a pending signal
    | SetFlag(w: Pid)                 // a write announces its data
    | Wake(w: Pid)                    // and wakes one reader

  function Start(): State {
    State(false, [], map[], {})
  }

  function Without(q: seq<Pid>, p: Pid): (r: seq<Pid>)
    ensures forall x :: x in r <==> x in q && x != p
  {
    if q == [] then []
    else if q[0] == p then Without(q[1..], p)
    else [q[0]] + Without(q[1..], p)
  }

  /** Exclusive wake-up: the reader that queued first leaves the queue. */
  function WakeOne(s: State): State {
    if s.queue == [] then s else s.(queue := s.queue[1..])
  }

  function ReaderStep(s: State, p: Pid, signal: bool): State
    requires p in s.readers
  {
    match s.readers[p]
    case Checking => s.(readers := s.readers[p := if s.flag then Passed else Preparing])
    case Preparing =>
      s.(queue := if p in s.queue then s.queue else s.queue + [p], readers := s.readers[p := Rechecking])
    case Rechecking =>
      if s.flag then s.(queue := Without(s.queue, p), readers := s.readers[p := Passed])
      else s.(readers := s.readers[p := if signal then Aborting else Asleep])
    case Asleep =>
      if p in s.queue && !signal then s else s.(readers := s.readers[p := Preparing])
    case Aborting =>
      // a wake-up that has hit this reader is handed on
      if p in s.queue then s.(queue := Without(s.queue, p), readers := s.readers - {p})
      else WakeOne(s).(readers := s.readers - {p})
    case Passed =>
      s.(flag := if signal then s.flag else false, readers := s.readers - {p})
  }

  function Step(s: State, l: Label): State {
    match l
    case Enter(p) => if p in s.readers then s else s.(readers := s.readers[p := Checking])
    case Reader(p, signal) => if p in s.readers then ReaderStep(s, p, signal) else s
    case SetFlag(w) => s.(flag := true, writers := s.writers + {w})
    case Wake(w) => if w in s.writers then WakeOne(s).(writers := s.writers - {w}) else s
  }

  function Exec(s: State, ls: seq<Label>): State {
    if ls == [] then s else Step(Exec(s, ls[..|ls| - 1]), ls[|ls| - 1])
  }

  // ----- stranded readers ----------------------------------------------------

  predicate Sleeps(s: State, p: Pid) {
    p in s.readers && s.readers[p].Asleep? && p in s.queue
  }

  /** A reader that will look at the flag again, clear it, or hand a wake-up on. */
  predicate Awake(s: State, p: Pid) {
    p in s.readers && (s.readers[p].Asleep? || s.readers[p].Aborting? ==> p !in s.queue)
  }

  /** Data is ready, a reader sleeps, and nobody is left to wake it. */
  ghost predicate Stranded(s: State) {
    && s.flag && s.writers == {}
    && (exists p :: Sleeps(s, p))
    && (forall p :: !Awake(s, p))
  }

  /** The queue holds readers inside the wait, each once. */
  predicate Queued(s: State) {
    && (forall p <- s.queue :: p in s.readers && !s.readers[p].Checking? && !s.readers[p].Passed?)
    && (forall i, j | 0 <= i < j < |s.queue| :: s.queue[i] != s.queue[j])
  }

  lemma {:induction false} WithoutDistinct(q: seq<Pid>, p: Pid)
    requires forall i, j | 0 <= i < j < |q| :: q[i] != q[j]
    ensures forall i, j | 0 <= i < j < |Without(q, p)| :: Without(q, p)[i] != Without(q, p)[j]
  {
    if q != [] {
      WithoutDistinct(q[1..], p);
      assert q[0] !in q[1..];
    }
  }

  lemma QueuedStep(s: State, l: Label)
    requires Queued(s)
    ensures Queued(Step(s, l))
  {
    if l.Reader? && l.p in s.readers {
      QueuedReader(s, l.p, l.signal);
    }
  }

  lemma QueuedReader(s: State, p: Pid, signal: bool)
    requires Queued(s) && p in s.readers
    ensures Queued(ReaderStep(s, p, signal))
  {
    hide Without;
    match s.readers[p] {
      case Preparing => QueuedJoin(s, p);
      case Rechecking => QueuedLeave(s, p, signal);
      case Aborting => QueuedLeave(s, p, signal);
      case _ =>
    }
  }

  lemma QueuedLeave(s: State, p: Pid, signal: bool)
    requires Queued(s) && p in s.readers && (s.readers[p].Rechecking? || s.readers[p].Aborting?)
    ensures Queued(ReaderStep(s, p, signal))
  {
    hide Without;
    WithoutDistinct(s.queue, p);
  }

  lemma QueuedJoin(s: State, p: Pid)
    requires Queued(s) && p in s.readers && s.readers[p].Preparing?
    ensures Queued(ReaderStep(s, p, false))
  {
    hide Without;
    var t := ReaderStep(s, p, false);
    assert forall i | 0 <= i < |s.queue| :: t.queue[i] == s.queue[i];
    assert forall x :: x in t.queue <==> x in s.queue || x == p;
  }

  /** A reader that is through with a signal pending leaves without clearing
      the flag and without waking another. */
  predicate LeavesFlag(s: State, l: Label) {
    l.Reader? && l.signal && l.p in s.readers && s.readers[l.p].Passed?
  }

  /** Only this strands a reader, and it does so exactly when data is ready,
      somebody sleeps, no writer is about to wake, and nobody else is awake. */
  lemma StrandsIff(s: State, l: Label)
    requires Queued(s) && !Stranded(s)
    ensures Stranded(Step(s, l)) <==>
            && LeavesFlag(s, l) && s.flag && s.writers == {}
            && (exists p :: Sleeps(s, p)) && (forall p :: Awake(s, p) ==> p == l.p)
  {
    hide Without;
    var t := Step(s, l);
    if LeavesFlag(s, l) {
      assert forall p | p != l.p :: Sleeps(t, p) == Sleeps(s, p) && Awake(t, p) == Awake(s, p);
      assert !Sleeps(s, l.p) && !Awake(t, l.p) && !Sleeps(t, l.p);
    } else if Stranded(t) {
      var sleeper :| Sleeps(t, sleeper);
      Witness(s, l, sleeper);
      assert false;
    }
  }

  /** Whoever is woken is awake. */
  lemma HeadWakes(s: State)
    requires Queued(s) && s.queue != []
    ensures Awake(WakeOne(s), s.queue[0]) && s.queue[0] in s.readers
  {
  }

  /** Any other step leaves somebody awake. */
  lemma Witness(s: State, l: Label, sleeper: Pid)
    requires Queued(s) && !Stranded(s) && !LeavesFlag(s, l)
    requires Step(s, l).flag && Step(s, l).writers == {} && Sleeps(Step(s, l), sleeper)
    ensures exists p :: Awake(Step(s, l), p)
  {
    var t := Step(s, l);
    match l {
      case Enter(p) => EnterWitness(s, p, sleeper);
      case Reader(p, signal) =>
        if p in s.readers {
          ReaderWitness(s, p, signal, sleeper);
        }
      case SetFlag(_) =>
      case Wake(w) =>
        if w in s.writers {
          HeadWakes(s);
          assert Awake(t, s.queue[0]);
        }
    }
  }

  lemma EnterWitness(s: State, p: Pid, sleeper: Pid)
    requires Queued(s) && !Stranded(s) && s.flag && s.writers == {} && Sleeps(Step(s, Enter(p)), sleeper)
    ensures exists q :: Awake(Step(s, Enter(p)), q)
  {
    if p in s.readers {
      assert Sleeps(s, sleeper);
    } else {
      assert Awake(Step(s, Enter(p)), p);
    }
  }

  lemma ReaderWitness(s: State, p: Pid, signal: bool, sleeper: Pid)
    requires Queued(s) && !Stranded(s) && p in s.readers && !(signal && s.readers[p].Passed?)
    requires ReaderStep(s, p, signal).flag && s.writers == {} && Sleeps(ReaderStep(s, p, signal), sleeper)
    ensures exists q :: Awake(ReaderStep(s, p, signal), q)
  {
    hide Without;
    var t := ReaderStep(s, p, signal);
    if s.readers[p].Aborting? && p !in s.queue {
      HeadWakes(s);
      assert Awake(t, s.queue[0]);
    } else if !Awake(t, p) {
      assert Sleeps(s, sleeper);
      var q :| Awake(s, q);
      assert Awake(t, q);
    }
  }

  /** No reader is ever stranded, for any number of readers and writers, as
      long as no reader that is through the wait leaves on a signal. */
  lemma {:induction false} NobodyStranded(ls: seq<Label>)
    requires forall i | 0 <= i < |ls| :: !LeavesFlag(Exec(Start(), ls[..i]), ls[i])
    ensures Queued(Exec(Start(), ls)) && !Stranded(Exec(Start(), ls))
  {
    hide Step, LeavesFlag, Stranded, Queued;
    if ls == [] {
      StartFree();
    } else {
      var n := |ls| - 1;
      forall i | 0 <= i < n
        ensures !LeavesFlag(Exec(Start(), ls[..n][..i]), ls[..n][i])
      {
        assert ls[..n][..i] == ls[..i];
      }
      NobodyStranded(ls[..n]);
      QueuedStep(Exec(Start(), ls[..n]), ls[n]);
      StrandsIff(Exec(Start(), ls[..n]), ls[n]);
    }
  }

  lemma StartFree()
    ensures Queued(Start()) && !Stranded(Start())
  {
  }

  /** A stranded reader stays so until another reader comes, another write, or
      a signal. */
  lemma StrandedStays(s: State, l: Label)
    requires Stranded(s) && !l.Enter? && !l.SetFlag? && !(l.Reader? && l.signal)
    ensures Stranded(Step(s, l))
  {
    hide Without;
    var sleeper :| Sleeps(s, sleeper);
    var t := Step(s, l);
    if l.Reader? && l.p in s.readers {
      assert !Awake(s, l.p);
    }
    assert Sleeps(t, sleeper);
    assert forall p :: Awake(t, p) ==> Awake(s, p);
  }

  lemma Then(ls: seq<Label>, l: Label) returns (more: seq<Label>)
    ensures more == ls + [l] && Exec(Start(), more) == Step(Exec(Start(), ls), l)
  {
    more := ls + [l];
    assert more[..|ls|] == ls;
  }

  /** A reader that finds no data joins the queue. */
  lemma JoinQueue(ls: seq<Label>, p: Pid) returns (more: seq<Label>)
    requires var s := Exec(Start(), ls); !s.flag && p !in s.readers && p !in s.queue
    ensures var s := Exec(Start(), ls);
            Exec(Start(), more) == s.(queue := s.queue + [p], readers := s.readers[p := Rechecking])
  {
    hide Exec;
    more := Then(ls, Enter(p));
    more := Then(more, Reader(p, false));
    more := Then(more, Reader(p, false));
  }

  /** A run that strands a reader: p queues before q, a write wakes p, and a
      signal reaches it after it has seen the flag. */
  lemma StrandingRun(p: Pid, q: Pid, w: Pid) returns (ls: seq<Label>)
    requires p != q
    ensures Stranded(Exec(Start(), ls)) && Sleeps(Exec(Start(), ls), q)
    ensures ls != [] && ls[|ls| - 1] == Reader(p, true)
  {
    ls := JoinQueue([], p);
    ls := JoinQueue(ls, q);
    hide Exec;
    ls := Then(ls, Reader(q, false));
    ls := Then(ls, SetFlag(w));
    ls := Then(ls, Wake(w));
    ls := Then(ls, Reader(p, false));
    ls := Then(ls, Reader(p, true));
    assert Sleeps(Exec(Start(), ls), q);
  }

  // ----- single wake-ups and signals -----------------------------------------

  /** A reader gets past the wait only by a look at the flag that finds it set. */
  lemma PassesOnlyOnData(s: State, l: Label, p: Pid)
    requires Queued(s) && p in Step(s, l).readers && Step(s, l).readers[p].Passed?
    requires p in s.readers ==> !s.readers[p].Passed?
    ensures s.flag && Step(s, l).flag && p !in Step(s, l).queue && l.Reader? && l.p == p
  {
  }

  /** One write wakes one reader, the one that has waited longest, and moves
      nobody else; a reader that joins waits behind all others. */
  lemma WakesLongestWaiting(s: State, w: Pid, p: Pid, q: Pid, others: seq<Pid>)
    requires w in s.writers && s.queue == [q] + others
    ensures Step(s, Wake(w)) == s.(queue := others, writers := s.writers - {w})
    ensures p in s.readers && s.readers[p].Preparing? && p !in s.queue ==>
            Step(s, Reader(p, false)).queue == [q] + others + [p]
  {
  }

  lemma WithoutMiddle(a: seq<Pid>, p: Pid, b: seq<Pid>)
    requires p !in a && p !in b
    ensures Without(a + [p] + b, p) == a + b
  {
    if a == [] {
      assert a + [p] + b == [p] + b;
      WithoutAbsent(b, p);
    } else {
      assert (a + [p] + b)[1..] == a[1..] + [p] + b;
      WithoutMiddle(a[1..], p, b);
    }
  }

  lemma {:induction false} WithoutAbsent(q: seq<Pid>, p: Pid)
    requires p !in q
    ensures Without(q, p) == q
  {
    if q != [] {
      WithoutAbsent(q[1..], p);
    }
  }

  lemma FourSteps(s: State, l: Label)
    ensures Exec(s, [l, l, l, l]) == Step(Step(Step(Step(s, l), l), l), l)
  {
    hide Step;
    assert [l, l, l, l][..3] == [l, l, l] && [l, l, l][..2] == [l, l] && [l, l][..1] == [l] && [l][..0] == [];
    assert Exec(s, []) == s;
    assert Exec(s, [l]) == Step(s, l);
    assert Exec(s, [l, l]) == Step(Step(s, l), l);
  }

  /** A sleeper that signals reach while there is no data leaves: after four
      steps of its own it is gone, the others wait in the same order, and flag
      and writers are as they were. */
  lemma InterruptedLeaves(s: State, p: Pid, a: seq<Pid>, b: seq<Pid>)
    requires !s.flag && Sleeps(s, p) && s.queue == a + [p] + b && p !in a && p !in b
    ensures Exec(s, [Reader(p, true), Reader(p, true), Reader(p, true), Reader(p, true)])
         == s.(queue := a + b, readers := s.readers - {p})
  {
    var l := Reader(p, true);
    FourSteps(s, l);
    WithoutMiddle(a, p, b);
    hide Without, Exec;
    var prepared, queued := Step(s, l), Step(Step(s, l), l);
    assert prepared == s.(readers := s.readers[p := Preparing]);
    assert queued == s.(readers := s.readers[p := Rechecking]);
    assert Step(queued, l) == s.(readers := s.readers[p := Aborting]);
    assert Step(Step(queued, l), l).readers == s.readers - {p};
  }

  /** A reader that leaves on a signal after a write has already woken it hands
      the wake-up on to the next in the queue. */
  lemma HandsWakeUpOn(s: State, p: Pid, signal: bool, q: Pid, others: seq<Pid>)
    requires p in s.readers && s.readers[p].Aborting? && p !in s.queue && s.queue == [q] + others
    ensures Step(s, Reader(p, signal)) == s.(queue := others, readers := s.readers - {p})
  {
  }

  // ----- the flag is consumed -------------------------------------------------

  /** How many steps of its own p still needs to clear the flag. */
  function Distance(s: State, p: Pid): nat
    requires p in s.readers
  {
    match s.readers[p]
    case Passed => 1
    case Checking => 2
    case Rechecking => 2
    case Preparing => 3
    case _ => 4
  }

  /** p will take the data: it is awake and not leaving the wait. */
  predicate WillTake(s: State, p: Pid) {
    s.flag && Awake(s, p) && !s.readers[p].Aborting?
  }

  /** While the flag stays set no step of another process, reader or writer,
      takes p further away, and its own steps bring it nearer. */
  lemma ReaderNearer(s: State, l: Label, p: Pid)
    requires WillTake(s, p) && l != Reader(p, true)
    ensures !Step(s, l).flag || (WillTake(Step(s, l), p) && Distance(Step(s, l), p) <= Distance(s, p))
    ensures l == Reader(p, false) && Step(s, l).flag ==> Distance(Step(s, l), p) < Distance(s, p)
  {
    hide Without;
  }

  /** How many steps p takes in a run. */
  function OwnSteps(ls: seq<Label>, p: Pid): nat {
    if ls == [] then 0
    else OwnSteps(ls[..|ls| - 1], p) + if ls[|ls| - 1] == Reader(p, false) then 1 else 0
  }

  /** At some point of the run the flag was clear. */
  ghost predicate Cleared(s: State, ls: seq<Label>) {
    exists i :: 0 <= i <= |ls| && !Exec(s, ls[..i]).flag
  }

  lemma ClearedLater(s: State, ls: seq<Label>)
    requires ls != [] && Cleared(s, ls[..|ls| - 1])
    ensures Cleared(s, ls)
  {
    hide Exec;
    var n := |ls| - 1;
    var i :| 0 <= i <= n && !Exec(s, ls[..n][..i]).flag;
    assert ls[..n][..i] == ls[..i];
  }

  lemma ClearedNow(s: State, ls: seq<Label>)
    requires !Exec(s, ls).flag
    ensures Cleared(s, ls)
  {
    hide Exec;
    assert ls[..|ls|] == ls;
  }

  lemma {:induction false} ClearedOrNearer(s: State, p: Pid, ls: seq<Label>)
    requires WillTake(s, p) && Reader(p, true) !in ls
    ensures Cleared(s, ls)
            || (WillTake(Exec(s, ls), p) && Distance(Exec(s, ls), p) + OwnSteps(ls, p) <= Distance(s, p))
  {
    hide Step, WillTake, Cleared, Distance;
    WillTakeReads(s, p);
    if ls != [] {
      var n := |ls| - 1;
      ClearedOrNearer(s, p, ls[..n]);
      if Cleared(s, ls[..n]) {
        ClearedLater(s, ls);
      } else {
        assert ls[n] in ls;
        ReaderNearer(Exec(s, ls[..n]), ls[n], p);
        if !Exec(s, ls).flag {
          ClearedNow(s, ls);
        } else {
          WillTakeReads(Exec(s, ls), p);
        }
      }
    }
  }

  lemma WillTakeReads(s: State, p: Pid)
    requires WillTake(s, p)
    ensures p in s.readers && s.flag && 1 <= Distance(s, p) <= 4
  {
  }

  /** Once data is ready, it is taken by the time an awake reader that is not
      leaving the wait has made four steps of its own, in every interleaving
      with any other readers and writers, as long as no signal hits it. */
  lemma AwakeReaderTakes(s: State, p: Pid, ls: seq<Label>)
    requires WillTake(s, p) && Reader(p, true) !in ls && OwnSteps(ls, p) >= 4
    ensures Cleared(s, ls)
  {
    hide Exec, WillTake, Cleared, OwnSteps, Distance;
    WillTakeReads(s, p);
    ClearedOrNearer(s, p, ls);
    if !Cleared(s, ls) {
      WillTakeReads(Exec(s, ls), p);
    }
  }
}
