/** The limit on open files.  An open reads the two counters, compares them,
    and only then increments: other processes may run between any two of these
    accesses, so the limit can be passed, by an amount that is known exactly. */
module OpenGate {

  type Pid = nat

  /** How far an open in flight has come. */
  datatype Opener =
    | SawCount(n: int)   // has read nprocs
    | SawMax(m: int)     // has read max_nprocs first
    | Admitted           // the check has passed, the increment is to come

  datatype State = State(nprocs: int, max: int, inFlight: map<Pid, Opener>, holders: set<Pid>)

  datatype Label =
    | ReadCount(p: Pid)
    | ReadMax(p: Pid)
    | Increment(p: Pid)
    | Release(p: Pid)
    | SetMax(n: int)

  /** The module at its start. */
  function Start(): State {
    State(0, 1, map[], {})
  }

  /** The second of the two reads settles the check: the open goes on or ends
      with EBUSY. */
  function Check(s: State, p: Pid, n: int, m: int): State {
    if n >= m then s.(inFlight := s.inFlight - {p}) else s.(inFlight := s.inFlight[p := Admitted])
  }

  /** One access to the counters by one process.  A label that does not fit the
      process does nothing. */
  function Step(s: State, l: Label): State {
    match l
    case ReadCount(p) =>
      if p in s.inFlight then
        if s.inFlight[p].SawMax? then Check(s, p, s.nprocs, s.inFlight[p].m) else s
      else if p in s.holders then s
      else s.(inFlight := s.inFlight[p := SawCount(s.nprocs)])
    case ReadMax(p) =>
      if p in s.inFlight then
        if s.inFlight[p].SawCount? then Check(s, p, s.inFlight[p].n, s.max) else s
      else if p in s.holders then s
      else s.(inFlight := s.inFlight[p := SawMax(s.max)])
    case Increment(p) =>
      if p in s.inFlight && s.inFlight[p].Admitted?
      then s.(nprocs := s.nprocs + 1, inFlight := s.inFlight - {p}, holders := s.holders + {p})
      else s
    case Release(p) =>
      if p in s.holders then s.(nprocs := s.nprocs - 1, holders := s.holders - {p}) else s
    case SetMax(n) =>
      if n < 0 then s else s.(max := n)
  }

  /** The state after a run from s. */
  function Exec(s: State, ls: seq<Label>): State {
    if ls == [] then s else Step(Exec(s, ls[..|ls| - 1]), ls[|ls| - 1])
  }

  /** At every point of the run at most k opens are in flight and the limit is
      at most m. */
  predicate Bounded(s: State, ls: seq<Label>, k: nat, m: int) {
    && |Exec(s, ls).inFlight| <= k && Exec(s, ls).max <= m
    && (ls != [] ==> Bounded(s, ls[..|ls| - 1], k, m))
  }

  // ----- the bound ---------------------------------------------------------

  /** Has read a count below m and not yet incremented. */
  predicate MayPass(o: Opener, m: int) {
    o.Admitted? || (o.SawCount? && o.n < m)
  }

  function Pending(s: State, m: int): set<Pid> {
    set p <- s.inFlight | MayPass(s.inFlight[p], m)
  }

  /** Every limit an open has seen is at most m, nobody who was admitted has
      seen more than m allows, and the counter is the number of holders. */
  predicate Inv(s: State, k: nat, m: int) {
    && s.nprocs == |s.holders|
    && (forall p <- s.inFlight :: p !in s.holders)
    && (forall p <- s.inFlight :: s.inFlight[p].SawMax? ==> s.inFlight[p].m <= m)
    && s.nprocs + |Pending(s, m)| <= m - 1 + k
  }

  lemma Subset<T>(a: set<T>, b: set<T>)
    requires a <= b
    ensures |a| <= |b|
  {
    assert a + (b - a) == b;
  }

  lemma PendingBound(s: State, m: int)
    ensures |Pending(s, m)| <= |s.inFlight|
  {
    Subset(Pending(s, m), s.inFlight.Keys);
  }

  lemma ReadCountKeeps(s: State, p: Pid, k: nat, m: int)
    requires Inv(s, k, m) && |Step(s, ReadCount(p)).inFlight| <= k
    ensures Inv(Step(s, ReadCount(p)), k, m)
  {
    var t := Step(s, ReadCount(p));
    PendingBound(t, m);
    if s.nprocs >= m {
      assert Pending(t, m) <= Pending(s, m);
      Subset(Pending(t, m), Pending(s, m));
    }
  }

  lemma ReadMaxKeeps(s: State, p: Pid, k: nat, m: int)
    requires Inv(s, k, m) && s.max <= m
    ensures Inv(Step(s, ReadMax(p)), k, m)
  {
    var t := Step(s, ReadMax(p));
    assert Pending(t, m) <= Pending(s, m);
    Subset(Pending(t, m), Pending(s, m));
  }

  lemma IncrementKeeps(s: State, p: Pid, k: nat, m: int)
    requires Inv(s, k, m)
    ensures Inv(Step(s, Increment(p)), k, m)
  {
    var t := Step(s, Increment(p));
    if t != s {
      assert Pending(t, m) == Pending(s, m) - {p};
    }
  }

  lemma OthersKeep(s: State, l: Label, k: nat, m: int)
    requires Inv(s, k, m) && (l.Release? || l.SetMax?)
    ensures Inv(Step(s, l), k, m)
  {
    SamePending(s, l, m);
    hide Pending;
  }

  lemma SamePending(s: State, l: Label, m: int)
    requires l.Release? || l.SetMax?
    ensures Pending(Step(s, l), m) == Pending(s, m)
  {
    assert Step(s, l).inFlight == s.inFlight;
  }

  lemma StepKeeps(s: State, l: Label, k: nat, m: int)
    requires Inv(s, k, m) && s.max <= m && 1 <= m && |Step(s, l).inFlight| <= k
    ensures Inv(Step(s, l), k, m)
  {
    hide Inv, Step;
    match l {
      case ReadCount(p) => ReadCountKeeps(s, p, k, m);
      case ReadMax(p) => ReadMaxKeeps(s, p, k, m);
      case Increment(p) => IncrementKeeps(s, p, k, m);
      case _ => OthersKeep(s, l, k, m);
    }
  }

  lemma {:induction false} RunKeeps(ls: seq<Label>, k: nat, m: int)
    requires 1 <= m && Bounded(Start(), ls, k, m)
    ensures Inv(Exec(Start(), ls), k, m)
  {
    hide Inv, Step;
    if ls == [] {
      StartInv(k, m);
    } else {
      var init := ls[..|ls| - 1];
      RunKeeps(init, k, m);
      assert Exec(Start(), init).max <= m;
      StepKeeps(Exec(Start(), init), ls[|ls| - 1], k, m);
    }
  }

  lemma StartInv(k: nat, m: int)
    requires 1 <= m
    ensures Inv(Start(), k, m)
  {
    assert Pending(Start(), m) == {};
  }

  /** Under any interleaving of any number of processes, with at most k opens
      in flight and limits of at most m, at most m - 1 + k files are open, and
      the counter is the number of files open. */
  lemma OpenBound(ls: seq<Label>, k: nat, m: int)
    requires 1 <= m && Bounded(Start(), ls, k, m)
    ensures Exec(Start(), ls).nprocs == |Exec(Start(), ls).holders| <= m - 1 + k
  {
    hide Step;
    RunKeeps(ls, k, m);
  }

  // ----- what an open and a release do ------------------------------------------

  /** Step k of a run is an increment that takes effect. */
  predicate Increments(ls: seq<Label>, k: nat)
    requires k < |ls|
  {
    var s := Exec(Start(), ls[..k]);
    ls[k].Increment? && ls[k].p in s.inFlight && s.inFlight[ls[k].p] == Admitted
  }

  /** Step k of a run is the release of an open file. */
  predicate Releases(ls: seq<Label>, k: nat)
    requires k < |ls|
  {
    ls[k].Release? && ls[k].p in Exec(Start(), ls[..k]).holders
  }

  function Opened(ls: seq<Label>, n: nat): nat
    requires n <= |ls|
  {
    if n == 0 then 0 else Opened(ls, n - 1) + if Increments(ls, n - 1) then 1 else 0
  }

  function Closed(ls: seq<Label>, n: nat): nat
    requires n <= |ls|
  {
    if n == 0 then 0 else Closed(ls, n - 1) + if Releases(ls, n - 1) then 1 else 0
  }

  /** In every run, under any interleaving, the count is the number of completed
      increments less the number of releases. */
  lemma {:induction false} CountIsBalance(ls: seq<Label>, n: nat)
    requires n <= |ls|
    ensures Exec(Start(), ls[..n]).nprocs == Opened(ls, n) - Closed(ls, n)
  {
    hide Step;
    if n > 0 {
      CountIsBalance(ls, n - 1);
      var init, l := ls[..n - 1], ls[n - 1];
      assert ls[..n] == init + [l] && (init + [l])[..n - 1] == init;
      CountStep(Exec(Start(), init), l);
    }
  }

  lemma CountStep(s: State, l: Label)
    ensures Step(s, l).nprocs == s.nprocs
            + (if l.Increment? && l.p in s.inFlight && s.inFlight[l.p] == Admitted then 1 else 0)
            - (if l.Release? && l.p in s.holders then 1 else 0)
  {
  }

  /** A process that has released its file holds none until it completes
      another increment. */
  lemma {:induction false} ReleasedStaysOut(s: State, p: Pid, ls: seq<Label>)
    requires Increment(p) !in ls
    ensures p !in Exec(Step(s, Release(p)), ls).holders
  {
    if ls != [] {
      var n := |ls| - 1;
      assert ls[n] in ls;
      ReleasedStaysOut(s, p, ls[..n]);
    }
  }

  /** An open that nobody disturbs, with the counters read in either order,
      succeeds exactly below the limit, and leaves everything as it was
      otherwise. */
  lemma UndisturbedOpenIff(s: State, q: Pid)
    requires q !in s.inFlight && q !in s.holders
    ensures var t := Step(Step(Step(s, ReadCount(q)), ReadMax(q)), Increment(q));
            t == if s.nprocs < s.max then s.(nprocs := s.nprocs + 1, holders := s.holders + {q}) else s
    ensures var t := Step(Step(Step(s, ReadMax(q)), ReadCount(q)), Increment(q));
            t == if s.nprocs < s.max then s.(nprocs := s.nprocs + 1, holders := s.holders + {q}) else s
  {
    assert s.inFlight[q := SawCount(s.nprocs)] - {q} == s.inFlight;
    assert s.inFlight[q := SawMax(s.max)] - {q} == s.inFlight;
    assert s.inFlight[q := SawCount(s.nprocs)][q := Admitted] - {q} == s.inFlight;
    assert s.inFlight[q := SawMax(s.max)][q := Admitted] - {q} == s.inFlight;
  }

  /** A release gives the place back: another process can open in its stead. */
  lemma ReleaseGivesPlaceBack(s: State, p: Pid, q: Pid)
    requires p in s.holders && q !in s.inFlight && q !in s.holders && s.nprocs <= s.max
    ensures var t := Step(Step(Step(Step(s, Release(p)), ReadCount(q)), ReadMax(q)), Increment(q));
            q in t.holders && p !in t.holders && t.nprocs == s.nprocs
  {
    UndisturbedOpenIff(Step(s, Release(p)), q);
  }

  /** A limit is taken over at once, unless it is negative. */
  lemma LimitSet(s: State, n: int)
    ensures Step(s, SetMax(n)) == if n < 0 then s else s.(max := n)
  {
  }

  // ----- the bound is reached ------------------------------------------------

  function Range(a: nat, b: nat): (r: set<Pid>)
    ensures forall p :: p in r <==> a <= p < b
  {
    if a >= b then {} else Range(a, b - 1) + {b - 1}
  }

  lemma {:induction false} RangeSize(a: nat, b: nat)
    requires a <= b
    ensures |Range(a, b)| == b - a
    decreases b
  {
    if a < b {
      RangeSize(a, b - 1);
    }
  }

  /** Those below `next` have passed the check, the others have read `n`. */
  function Openers(ps: set<Pid>, next: nat, n: int): map<Pid, Opener> {
    map p | p in ps :: if p < next then Admitted else SawCount(n)
  }

  /** i files are open and no open is in flight. */
  function Alone(i: nat, m: int): State {
    State(i, m, map[], Range(0, i))
  }

  /** m - 1 files are open, the next j processes have read the count. */
  function Reading(j: nat, m: int): State
    requires 1 <= m
  {
    State(m - 1, m, Openers(Range(m - 1, m - 1 + j), 0, m - 1), Range(0, m - 1))
  }

  /** Of the next k processes the first j have passed the check. */
  function Passing(j: nat, k: nat, m: int): State
    requires 1 <= m
  {
    State(m - 1, m, Openers(Range(m - 1, m - 1 + k), m - 1 + j, m - 1), Range(0, m - 1))
  }

  /** The first j of them have incremented. */
  function Entering(j: nat, k: nat, m: int): State
    requires 1 <= m
  {
    State(m - 1 + j, m, Openers(Range(m - 1 + j, m - 1 + k), m - 1 + k, m - 1), Range(0, m - 1 + j))
  }

  lemma Extend(ls: seq<Label>, l: Label, k: nat, m: int)
    requires Bounded(Start(), ls, k, m)
    requires var t := Step(Exec(Start(), ls), l); |t.inFlight| <= k && t.max <= m
    ensures Bounded(Start(), ls + [l], k, m)
    ensures Exec(Start(), ls + [l]) == Step(Exec(Start(), ls), l)
  {
    hide Step;
    assert (ls + [l])[..|ls|] == ls;
  }

  lemma {:induction false} OneByOne(i: nat, k: nat, m: int) returns (ls: seq<Label>)
    requires i < m && 1 <= k
    ensures Bounded(Start(), ls, k, m) && Exec(Start(), ls) == Alone(i, m)
  {
    hide Bounded, Exec, Range, Step, Alone;
    if i == 0 {
      ls := FirstLimit(k, m);
    } else {
      ls := OneByOne(i - 1, k, m);
      OpenAlone(i - 1, m);
      Extend(ls, ReadCount(i - 1), k, m);
      ls := ls + [ReadCount(i - 1)];
      Extend(ls, ReadMax(i - 1), k, m);
      ls := ls + [ReadMax(i - 1)];
      Extend(ls, Increment(i - 1), k, m);
      ls := ls + [Increment(i - 1)];
    }
  }

  lemma FirstLimit(k: nat, m: int) returns (ls: seq<Label>)
    requires 1 <= m
    ensures Bounded(Start(), ls, k, m) && Exec(Start(), ls) == Alone(0, m)
  {
    assert [SetMax(m)][..0] == [];
    return [SetMax(m)];
  }

  /** One open that nobody disturbs. */
  lemma OpenAlone(i: nat, m: int)
    requires i < m
    ensures var s := Step(Alone(i, m), ReadCount(i));
            var t := Step(s, ReadMax(i));
            && |s.inFlight| == |t.inFlight| == 1 && s.max == t.max == m
            && Step(t, Increment(i)) == Alone(i + 1, m)
            && |Alone(i + 1, m).inFlight| == 0 && Alone(i + 1, m).max == m
  {
    hide Range;
    var s := Step(Alone(i, m), ReadCount(i));
    assert s.inFlight == map[i := SawCount(i)];
    assert Step(s, ReadMax(i)).inFlight == map[i := Admitted];
    assert Range(0, i + 1) == Range(0, i) + {i};
  }

  lemma Sizes(j: nat, k: nat, m: int)
    requires j <= k && 1 <= m
    ensures |Reading(j, m).inFlight| == j && |Passing(j, k, m).inFlight| == k && |Entering(j, k, m).inFlight| == k - j
    ensures Reading(j, m).max == Passing(j, k, m).max == Entering(j, k, m).max == m
  {
    hide Range;
    RangeSize(m - 1, m - 1 + j);
    RangeSize(m - 1, m - 1 + k);
    RangeSize(m - 1 + j, m - 1 + k);
    assert Reading(j, m).inFlight.Keys == Range(m - 1, m - 1 + j);
    assert Passing(j, k, m).inFlight.Keys == Range(m - 1, m - 1 + k);
    assert Entering(j, k, m).inFlight.Keys == Range(m - 1 + j, m - 1 + k);
  }

  lemma OneReads(j: nat, m: int)
    requires 1 <= m
    ensures Step(Reading(j, m), ReadCount(m - 1 + j)) == Reading(j + 1, m)
  {
    hide Range;
    assert Step(Reading(j, m), ReadCount(m - 1 + j)).inFlight == Reading(j + 1, m).inFlight;
  }

  lemma {:induction false} AllRead(j: nat, k: nat, m: int) returns (ls: seq<Label>)
    requires j <= k && 1 <= k && 1 <= m
    ensures Bounded(Start(), ls, k, m) && Exec(Start(), ls) == Reading(j, m)
  {
    hide Bounded, Exec, Range, Step;
    if j == 0 {
      ls := OneByOne(m - 1, k, m);
    } else {
      ls := AllRead(j - 1, k, m);
      Sizes(j, k, m);
      OneReads(j - 1, m);
      Extend(ls, ReadCount(m - 2 + j), k, m);
      ls := ls + [ReadCount(m - 2 + j)];
    }
  }

  lemma OnePasses(j: nat, k: nat, m: int)
    requires j < k && 1 <= m
    ensures Step(Passing(j, k, m), ReadMax(m - 1 + j)) == Passing(j + 1, k, m)
  {
    hide Range;
    assert Step(Passing(j, k, m), ReadMax(m - 1 + j)).inFlight == Passing(j + 1, k, m).inFlight;
  }

  lemma {:induction false} AllPass(j: nat, k: nat, m: int) returns (ls: seq<Label>)
    requires j <= k && 1 <= k && 1 <= m
    ensures Bounded(Start(), ls, k, m) && Exec(Start(), ls) == Passing(j, k, m)
  {
    hide Bounded, Exec, Range, Step;
    if j == 0 {
      ls := AllRead(k, k, m);
      assert Reading(k, m).inFlight == Passing(0, k, m).inFlight;
    } else {
      ls := AllPass(j - 1, k, m);
      Sizes(j, k, m);
      OnePasses(j - 1, k, m);
      Extend(ls, ReadMax(m - 2 + j), k, m);
      ls := ls + [ReadMax(m - 2 + j)];
    }
  }

  lemma OneEnters(j: nat, k: nat, m: int)
    requires j < k && 1 <= m
    ensures Step(Entering(j, k, m), Increment(m - 1 + j)) == Entering(j + 1, k, m)
  {
    hide Range;
    assert Step(Entering(j, k, m), Increment(m - 1 + j)).inFlight == Entering(j + 1, k, m).inFlight;
    assert Range(0, m + j) == Range(0, m - 1 + j) + {m - 1 + j};
  }

  lemma {:induction false} AllEnter(j: nat, k: nat, m: int) returns (ls: seq<Label>)
    requires j <= k && 1 <= k && 1 <= m
    ensures Bounded(Start(), ls, k, m) && Exec(Start(), ls) == Entering(j, k, m)
  {
    hide Bounded, Exec, Range, Step;
    if j == 0 {
      ls := AllPass(k, k, m);
      assert Passing(k, k, m).inFlight == Entering(0, k, m).inFlight;
    } else {
      ls := AllEnter(j - 1, k, m);
      Sizes(j, k, m);
      OneEnters(j - 1, k, m);
      Extend(ls, Increment(m - 2 + j), k, m);
      ls := ls + [Increment(m - 2 + j)];
    }
  }

  /** The bound is the best there is: some run reaches it. */
  lemma BoundReached(k: nat, m: int) returns (ls: seq<Label>)
    requires 1 <= k && 1 <= m
    ensures Bounded(Start(), ls, k, m) && Exec(Start(), ls).nprocs == m - 1 + k
  {
    hide Bounded, Exec;
    ls := AllEnter(k, k, m);
  }

  ghost predicate LimitKept(k: nat, m: int) {
    forall ls | Bounded(Start(), ls, k, m) :: Exec(Start(), ls).nprocs <= m
  }

  /** The limit itself is kept exactly when opens never overlap. */
  lemma LimitKeptIff(k: nat, m: int)
    requires 1 <= m
    ensures LimitKept(k, m) <==> k <= 1
  {
    hide Bounded, Exec;
    if k <= 1 {
      forall ls | Bounded(Start(), ls, k, m)
        ensures Exec(Start(), ls).nprocs <= m
      {
        OpenBound(ls, k, m);
      }
    } else {
      var ls := BoundReached(k, m);
    }
  }
}
