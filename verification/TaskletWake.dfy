/** The wake-up between the interrupt and the readers of the pipeline: a reader
    sleeps until the session count is not zero, the interrupt raises the count
    and then schedules the tasklet, the tasklet wakes every sleeper when it has
    drained the ring.  A section that returns with the spin lock held stops
    every later interrupt and tasklet at the lock. */
module TaskletWake {

  type Pid = nat

  datatype Phase =
    | Checking     // first look at the count
    | Preparing    // about to join the queue
    | Rechecking   // queued, second look at the count
    | Asleep       // gone to sleep; awake again once it is off the queue
    | Taking       // about to move the session head and lower the count

  datatype Tasklet =
    | Idle
    | Started      // about to take the lock
    | Drained      // has released the lock, about to wake the readers

  /** `unscheduled` counts interrupts that have left the lock and have still to
      schedule the tasklet. */
  datatype State = State(
    count: int, unscheduled: nat, scheduled: bool, tasklet: Tasklet, lockHeld: bool,
    queue: set<Pid>, readers: map<Pid, Phase>)

  datatype Label =
    | Raise                           // an interrupt closes a session
    | Queue                           // an interrupt queues a byte
    | Drop                            // an interrupt drops a byte and keeps the lock
    | Schedule                        // an interrupt schedules the tasklet
    | StartTasklet
    | Drain                           // the tasklet empties the ring
    | Refused                         // the tasklet gets no page and keeps the lock
    | WakeAll                         // the tasklet wakes the readers
    | Enter(p: Pid, unread: bool)     // a read starts; unread bytes let it skip the wait
    | Reader(p: Pid, signal: bool)    // its next step, with or without a pending signal

  function Start(): State {
    State(0, 0, false, Idle, false, {}, map[])
  }

  function ReaderStep(s: State, p: Pid, signal: bool): State
    requires p in s.readers
  {
    match s.readers[p]
    case Checking => s.(readers := s.readers[p := if s.count != 0 then Taking else Preparing])
    case Preparing => s.(queue := s.queue + {p}, readers := s.readers[p := Rechecking])
    case Rechecking =>
      if s.count != 0 || signal then s.(queue := s.queue - {p}, readers := s.readers[p := Taking])
      else s.(readers := s.readers[p := Asleep])
    case Asleep =>
      if p in s.queue && !signal then s else s.(readers := s.readers[p := Preparing])
    case Taking => s.(count := s.count - 1, readers := s.readers - {p})
  }

  /** Whoever finds the lock held waits for it and does nothing. */
  function Step(s: State, l: Label): State {
    match l
    case Raise => if s.lockHeld then s else s.(count := s.count + 1, unscheduled := s.unscheduled + 1)
    case Queue => if s.lockHeld then s else s.(unscheduled := s.unscheduled + 1)
    case Drop => s.(lockHeld := true)
    case Schedule =>
      if s.unscheduled > 0 then s.(unscheduled := s.unscheduled - 1, scheduled := true) else s
    case StartTasklet =>
      if s.scheduled && s.tasklet.Idle? then s.(scheduled := false, tasklet := Started) else s
    case Drain => if s.tasklet.Started? && !s.lockHeld then s.(tasklet := Drained) else s
    case Refused => if s.tasklet.Started? && !s.lockHeld then s.(tasklet := Idle, lockHeld := true) else s
    case WakeAll => if s.tasklet.Drained? then s.(tasklet := Idle, queue := {}) else s
    case Enter(p, unread) =>
      if p in s.readers then s
      else s.(readers := s.readers[p := if s.count == 0 && !unread then Checking else Taking])
    case Reader(p, signal) => if p in s.readers then ReaderStep(s, p, signal) else s
  }

  function Exec(s: State, ls: seq<Label>): State {
    if ls == [] then s else Step(Exec(s, ls[..|ls| - 1]), ls[|ls| - 1])
  }

  predicate Sleeps(s: State, p: Pid) {
    p in s.readers && s.readers[p].Asleep? && p in s.queue
  }

  /** A wake-up is on its way and nothing stands in it. */
  predicate Coming(s: State) {
    s.tasklet.Drained? || (!s.lockHeld && (s.unscheduled > 0 || s.scheduled || s.tasklet.Started?))
  }

  /** A reader sleeps on a count that is not zero and nothing will wake it. */
  ghost predicate Lost(s: State) {
    s.count != 0 && (exists p :: Sleeps(s, p)) && !Coming(s)
  }

  // ----- the steps that lose a wake-up --------------------------------------

  /** A session is taken although there is none. */
  predicate TakesNone(s: State, l: Label) {
    l.Reader? && l.p in s.readers && s.readers[l.p].Taking? && s.count == 0
  }

  /** The lock is lost: a byte is dropped, or the tasklet is refused a page. */
  predicate LosesLock(s: State, l: Label) {
    !s.lockHeld && (l.Drop? || (l.Refused? && s.tasklet.Started?))
  }

  lemma SameSleepers(s: State, l: Label)
    requires l.Refused? || l.Drop? || (l.Reader? && l.p in s.readers && s.readers[l.p].Taking?)
    ensures forall p :: Sleeps(Step(s, l), p) == Sleeps(s, p)
  {
  }

  /** A wake-up is lost by a step exactly when somebody sleeps and the step
      either takes a session that is not there with no wake-up on its way, or
      loses the lock while the count is not zero and before the tasklet has
      come to its wake-up. */
  lemma LosesIff(s: State, l: Label)
    requires !Lost(s)
    ensures Lost(Step(s, l)) <==>
            && (exists p :: Sleeps(s, p))
            && ((TakesNone(s, l) && !Coming(s))
                || (LosesLock(s, l) && s.count != 0 && !s.tasklet.Drained?))
  {
    var t := Step(s, l);
    if l.Refused? || l.Drop? || (l.Reader? && l.p in s.readers && s.readers[l.p].Taking?) {
      SameSleepers(s, l);
    } else {
      assert forall p | Sleeps(t, p) :: Sleeps(s, p) || s.count == 0;
    }
  }

  /** No byte is dropped, no page is refused and no session is taken that is
      not there. */
  ghost predicate Clean(s: State, ls: seq<Label>) {
    forall i | 0 <= i < |ls| :: !TakesNone(Exec(s, ls[..i]), ls[i]) && !ls[i].Refused? && !ls[i].Drop?
  }

  lemma CleanInit(s: State, ls: seq<Label>)
    requires ls != [] && Clean(s, ls)
    ensures Clean(s, ls[..|ls| - 1])
    ensures var l := ls[|ls| - 1]; !TakesNone(Exec(s, ls[..|ls| - 1]), l) && !l.Refused? && !l.Drop?
  {
    hide Exec;
    var n := |ls| - 1;
    forall i | 0 <= i < n
      ensures !TakesNone(Exec(s, ls[..n][..i]), ls[..n][i]) && !ls[..n][i].Refused? && !ls[..n][i].Drop?
    {
      assert ls[..n][..i] == ls[..i];
    }
  }

  /** No wake-up is lost in any clean run: while a reader sleeps on a count
      that is not zero, an interrupt has still to schedule the tasklet, or the
      tasklet is pending, or it has not reached its wake-up; and the lock is
      free. */
  lemma {:induction false} NoLostWakeUp(ls: seq<Label>)
    requires Clean(Start(), ls)
    ensures var s := Exec(Start(), ls); !Lost(s) && s.count >= 0 && !s.lockHeld
  {
    hide Step, Lost, Clean, TakesNone;
    if ls == [] {
      StartNotLost();
    } else {
      var n := |ls| - 1;
      CleanInit(Start(), ls);
      NoLostWakeUp(ls[..n]);
      LosesIff(Exec(Start(), ls[..n]), ls[n]);
      CleanStep(Exec(Start(), ls[..n]), ls[n]);
    }
  }

  lemma CleanStep(s: State, l: Label)
    requires s.count >= 0 && !s.lockHeld && !TakesNone(s, l) && !l.Refused? && !l.Drop?
    ensures Step(s, l).count >= 0 && !Step(s, l).lockHeld && !LosesLock(s, l)
  {
  }

  lemma StartNotLost()
    ensures !Lost(Start())
  {
  }

  // ----- when a read does not sleep -------------------------------------------

  /** A read that starts with a session closed or bytes unread takes a session
      with its next step; so does one that first looks at the count when a
      session has been closed. */
  lemma TakesAtOnce(s: State, p: Pid, unread: bool, signal: bool)
    requires p !in s.readers && (s.count != 0 || unread)
    ensures Exec(s, [Enter(p, unread), Reader(p, signal)]) == s.(count := s.count - 1)
    ensures var looking := s.(readers := s.readers[p := Checking]);
            s.count != 0 ==> Exec(looking, [Reader(p, signal), Reader(p, signal)]) == s.(count := s.count - 1)
  {
    hide Exec, Step;
    TwoSteps(s, Enter(p, unread), Reader(p, signal));
    TwoSteps(s.(readers := s.readers[p := Checking]), Reader(p, signal), Reader(p, signal));
    EntersTaking(s, p, unread);
    Takes(s, p, signal);
    if s.count != 0 {
      LooksOnce(s, p, signal);
    }
  }

  lemma EntersTaking(s: State, p: Pid, unread: bool)
    requires p !in s.readers && (s.count != 0 || unread)
    ensures Step(s, Enter(p, unread)) == s.(readers := s.readers[p := Taking])
  {
  }

  lemma LooksOnce(s: State, p: Pid, signal: bool)
    requires s.count != 0
    ensures Step(s.(readers := s.readers[p := Checking]), Reader(p, signal)) == s.(readers := s.readers[p := Taking])
  {
    assert s.readers[p := Checking][p := Taking] == s.readers[p := Taking];
  }

  lemma Takes(s: State, p: Pid, signal: bool)
    requires p !in s.readers
    ensures Step(s.(readers := s.readers[p := Taking]), Reader(p, signal)) == s.(count := s.count - 1)
  {
    assert s.readers[p := Taking] - {p} == s.readers;
  }

  lemma TwoSteps(s: State, l: Label, m: Label)
    ensures Exec(s, [l, m]) == Step(Step(s, l), m)
  {
    hide Step;
    assert [l, m][..1] == [l] && [l][..0] == [] && Exec(s, []) == s;
    assert Exec(s, [l]) == Step(s, l);
  }

  // ----- a signal ----------------------------------------------------------

  lemma FourSteps(s: State, l: Label)
    ensures Exec(s, [l, l, l, l]) == Step(Step(Step(Step(s, l), l), l), l)
  {
    hide Step;
    assert [l, l, l, l][..3] == [l, l, l] && [l, l, l][..2] == [l, l] && [l, l][..1] == [l] && [l][..0] == [];
    assert Exec(s, []) == s;
    assert Exec(s, [l]) == Step(s, l);
    assert Exec(s, [l, l]) == Step(Step(s, l), l);
  }

  /** A sleeper that signals reach while there is no session does not give up:
      four steps of its own later it has taken one all the same, and the count
      is below zero. */
  lemma InterruptedTakes(s: State, p: Pid)
    requires s.count == 0 && Sleeps(s, p)
    ensures var l := Reader(p, true);
            Exec(s, [l, l, l, l]) == s.(count := -1, queue := s.queue - {p}, readers := s.readers - {p})
  {
    var l := Reader(p, true);
    FourSteps(s, l);
    hide Exec;
    var prepared, queued := Step(s, l), Step(Step(s, l), l);
    assert prepared == s.(readers := s.readers[p := Preparing]);
    assert s.queue + {p} == s.queue;
    assert queued == s.(readers := s.readers[p := Rechecking]);
    assert Step(queued, l) == s.(queue := s.queue - {p}, readers := s.readers[p := Taking]);
    assert Step(Step(queued, l), l).readers == s.readers - {p};
  }

  // ----- a wake-up on its way arrives -----------------------------------------

  /** How many steps of interrupt and tasklet the wake-up still needs. */
  function Distance(s: State): nat {
    match s.tasklet
    case Drained => 1
    case Started => 2
    case Idle => if s.scheduled then 3 else 4
  }

  /** The next of them. */
  function Next(s: State): Label {
    match s.tasklet
    case Drained => WakeAll
    case Started => Drain
    case Idle => if s.scheduled then StartTasklet else Schedule
  }

  /** Whatever else runs, the wake-up comes no further away, and its own steps
      bring it nearer until every reader is off the queue. */
  lemma Nearer(s: State, l: Label)
    requires Coming(s) && !l.Drop? && !l.Refused?
    ensures Step(s, l).queue == {} || (Coming(Step(s, l)) && Distance(Step(s, l)) <= Distance(s))
    ensures l == Next(s) ==> Step(s, l).queue == {} || Distance(Step(s, l)) < Distance(s)
  {
  }

  /** How many steps of a run were the next step towards the wake-up. */
  function Towards(s: State, ls: seq<Label>): nat {
    if ls == [] then 0
    else
      var n := |ls| - 1;
      Towards(s, ls[..n]) + if ls[n] == Next(Exec(s, ls[..n])) then 1 else 0
  }

  /** At some point of the run nobody was on the queue. */
  ghost predicate AllWoken(s: State, ls: seq<Label>) {
    exists i :: 0 <= i <= |ls| && Exec(s, ls[..i]).queue == {}
  }

  lemma AllWokenLater(s: State, ls: seq<Label>)
    requires ls != [] && AllWoken(s, ls[..|ls| - 1])
    ensures AllWoken(s, ls)
  {
    hide Exec;
    var n := |ls| - 1;
    var i :| 0 <= i <= n && Exec(s, ls[..n][..i]).queue == {};
    assert ls[..n][..i] == ls[..i];
  }

  lemma {:induction false} ComingOrWoken(s: State, ls: seq<Label>)
    requires Coming(s) && forall l <- ls :: !l.Drop? && !l.Refused?
    ensures AllWoken(s, ls)
            || (Coming(Exec(s, ls)) && Distance(Exec(s, ls)) + Towards(s, ls) <= Distance(s))
  {
    hide Step, Coming, AllWoken, Distance, Next;
    if ls != [] {
      var n := |ls| - 1;
      ComingOrWoken(s, ls[..n]);
      if AllWoken(s, ls[..n]) {
        AllWokenLater(s, ls);
      } else {
        Nearer(Exec(s, ls[..n]), ls[n]);
        if Exec(s, ls).queue == {} {
          WokenNow(s, ls);
        }
      }
    }
  }

  lemma WokenNow(s: State, ls: seq<Label>)
    requires Exec(s, ls).queue == {}
    ensures AllWoken(s, ls)
  {
    hide Exec;
    assert ls[..|ls|] == ls;
  }

  /** A wake-up on its way arrives, in every interleaving that loses no lock:
      by the fourth step of interrupt and tasklet towards it, every reader has
      been taken off the queue. */
  lemma WakeUpArrives(s: State, ls: seq<Label>)
    requires Coming(s) && (forall l <- ls :: !l.Drop? && !l.Refused?) && Towards(s, ls) >= 4
    ensures AllWoken(s, ls)
  {
    hide Exec, Coming, AllWoken, Towards;
    ComingOrWoken(s, ls);
  }

  // ----- a lost lock ---------------------------------------------------------------

  /** Once the lock is lost and the tasklet is not past it, a sleeper sleeps for
      ever, whatever arrives and whatever the others do, unless a signal comes. */
  lemma {:induction false} SleepsForEver(s: State, p: Pid, ls: seq<Label>)
    requires s.lockHeld && !s.tasklet.Drained? && Sleeps(s, p) && Reader(p, true) !in ls
    ensures var t := Exec(s, ls); t.lockHeld && !t.tasklet.Drained? && Sleeps(t, p)
  {
    hide Step, Sleeps;
    if ls != [] {
      var n := |ls| - 1;
      SleepsForEver(s, p, ls[..n]);
      assert ls[n] in ls;
      SleepsOn(Exec(s, ls[..n]), p, ls[n]);
    }
  }

  lemma SleepsOn(s: State, p: Pid, l: Label)
    requires s.lockHeld && !s.tasklet.Drained? && Sleeps(s, p) && l != Reader(p, true)
    ensures var t := Step(s, l); t.lockHeld && !t.tasklet.Drained? && Sleeps(t, p)
  {
  }

  // ----- runs that lose a wake-up ----------------------------------------------------

  lemma NoRun()
    ensures Exec(Start(), []) == Start()
  {
  }

  /** One more step of a run from the start. */
  lemma Then(ls: seq<Label>, l: Label) returns (more: seq<Label>)
    ensures more == ls + [l] && Exec(Start(), more) == Step(Exec(Start(), ls), l)
  {
    more := ls + [l];
    assert more[..|ls|] == ls;
  }

  lemma SessionSeen(p: Pid, q: Pid) returns (ls: seq<Label>)
    requires p != q
    ensures Exec(Start(), ls) == State(1, 0, false, Idle, false, {}, map[p := Taking, q := Taking])
  {
    hide Exec;
    NoRun();
    ls := Then([], Raise);
    ls := Then(ls, Schedule);
    ls := Then(ls, StartTasklet);
    ls := Then(ls, Drain);
    ls := Then(ls, WakeAll);
    ls := Then(ls, Enter(p, false));
    ls := Then(ls, Enter(q, false));
    assert Exec(Start(), ls).readers == map[p := Taking, q := Taking];
  }

  /** A run that loses a wake-up by the count: two readers see one session, a
      third goes to sleep after the first has taken it, and the second takes
      the count below zero. */
  lemma LosingRun(p: Pid, q: Pid, r: Pid) returns (ls: seq<Label>)
    requires p != q && q != r && p != r
    ensures Lost(Exec(Start(), ls)) && Exec(Start(), ls).count == -1 && Sleeps(Exec(Start(), ls), r)
  {
    hide Exec;
    ls := SessionSeen(p, q);
    ls := Then(ls, Reader(p, false));
    ls := Then(ls, Enter(r, false));
    ls := Then(ls, Reader(r, false));
    ls := Then(ls, Reader(r, false));
    ls := Then(ls, Reader(r, false));
    ls := Then(ls, Reader(q, false));
    assert Sleeps(Exec(Start(), ls), r);
  }

  /** A reader asleep, one session closed and the tasklet pending. */
  lemma SleeperAndSession(p: Pid) returns (ls: seq<Label>)
    ensures Exec(Start(), ls) == State(1, 0, true, Idle, false, {p}, map[p := Asleep])
  {
    hide Exec;
    NoRun();
    ls := Then([], Enter(p, false));
    ls := Then(ls, Reader(p, false));
    ls := Then(ls, Reader(p, false));
    ls := Then(ls, Reader(p, false));
    ls := Then(ls, Raise);
    ls := Then(ls, Schedule);
    assert Exec(Start(), ls).readers == map[p := Asleep];
  }

  /** The run ends with step l, and that is the step that loses the lock. */
  predicate LastLosesLock(ls: seq<Label>, l: Label) {
    ls != [] && ls[|ls| - 1] == l && LosesLock(Exec(Start(), ls[..|ls| - 1]), l)
  }

  /** Two runs that lose a wake-up by the lock although the tasklet is pending:
      a byte is dropped before the tasklet starts, or the tasklet is refused a
      page while it is scheduled again. */
  lemma LosingByLock(p: Pid) returns (dropped: seq<Label>, refused: seq<Label>)
    ensures Lost(Exec(Start(), dropped)) && Exec(Start(), dropped).scheduled
    ensures Lost(Exec(Start(), refused)) && Exec(Start(), refused).scheduled
    ensures LastLosesLock(dropped, Drop) && LastLosesLock(refused, Refused)
    ensures Sleeps(Exec(Start(), dropped), p) && Sleeps(Exec(Start(), refused), p)
  {
    hide Exec;
    var ls := SleeperAndSession(p);
    dropped := Then(ls, Drop);
    assert dropped[..|ls|] == ls;
    assert Sleeps(Exec(Start(), dropped), p);
    refused := Then(ls, StartTasklet);
    refused := Then(refused, Queue);
    refused := Then(refused, Schedule);
    var before := refused;
    refused := Then(refused, Refused);
    assert refused[..|before|] == before;
    assert Sleeps(Exec(Start(), refused), p);
  }
}
