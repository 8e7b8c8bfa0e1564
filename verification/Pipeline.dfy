/** The interrupt pipeline as a step system: half bytes arrive by interrupt, a
    tasklet drains a ring into pages, a reader takes out one session per open.
    Every step is one locked section of the driver, or one call of it. */
module Pipeline {
  import opened Machine
  import opened Wire

  const BUFFER_CAPACITY := 64
  const MAX_SESSIONS := 100
  const INT_MAX := 0x7fff_ffff
  const INT_MIN := -0x8000_0000

  const EACCES := 13
  const EBUSY := 16
  const EINVAL := 22

  /** The driver's globals.  `lockHeld` says that a section returned without
      releasing the spin lock; `wild` that the driver has computed an index or
      an address outside its own data, or overflowed an `int`, after which the
      model says nothing. */
  datatype State = State(
    toggle: bool, top: bv8,
    cHead: int, cCount: int, cBuf: seq<byte>,
    sHead: int, sCount: int, readOff: int, writeOff: int, sizes: seq<int>,
    fin: bool,
    pages: seq<seq<byte>>, numPages: int, dataSize: int,
    nprocs: int, maxProcs: int,
    lockHeld: bool, wild: bool)

  /** The state the module starts in. */
  function Start(): (s: State)
    ensures Shape(s)
  {
    State(true, 0, 0, 0, seq(BUFFER_CAPACITY, _ => 0),
          0, 0, 0, 0, seq(MAX_SESSIONS, _ => 0), false,
          [], 0, 0, 0, 1, false, false)
  }

  /** The kernel's answer to a request for a page; its contents are arbitrary. */
  datatype Alloc = NoPage | NewPage(contents: seq<byte>)

  predicate WholePage(a: Alloc) {
    a.NewPage? ==> |a.contents| == PAGE_SIZE
  }

  datatype Label =
    | Sample(pins: bv32)
    | Tasklet(alloc: Alloc)
    | Open(mode: int)
    | Release
    | Read(count: int)
    | Woken(count: int)       // a sleeping read goes on
    | SetMax(n: int)

  predicate Typed(l: Label) {
    match l
    case Tasklet(alloc) => WholePage(alloc)
    case Read(count) => 0 <= count < U32_MOD
    case Woken(count) => 0 <= count < U32_MOD
    case _ => true
  }

  datatype Out =
    | Nothing
    | Code(value: int)
    | Data(bytes: seq<byte>)   // a read that took a session
    | Eof                    // a read after the session
    | Waiting                // a read put to sleep
    | Wild

  predicate WholePages(pages: seq<seq<byte>>) {
    forall i | 0 <= i < |pages| :: |pages[i]| == PAGE_SIZE
  }

  /** What every step keeps. */
  predicate Shape(s: State) {
    && |s.cBuf| == BUFFER_CAPACITY && 0 <= s.cHead < BUFFER_CAPACITY && 0 <= s.cCount <= BUFFER_CAPACITY
    && |s.sizes| == MAX_SESSIONS && 0 <= s.sHead < MAX_SESSIONS && INT_MIN <= s.sCount <= INT_MAX
    && (forall i | 0 <= i < |s.sizes| :: 0 <= s.sizes[i] < U32_MOD)
    && 0 <= s.readOff < PAGE_SIZE && 0 <= s.writeOff < PAGE_SIZE
    && s.numPages == |s.pages| <= MAX_FRAMES && WholePages(s.pages)
    && 0 <= s.dataSize < U32_MOD
  }

  /** C's `%` truncates toward zero. */
  function Rem(x: int, m: int): int
    requires m > 0
  {
    if x >= 0 then x % m else -((-x) % m)
  }

  // ----- top half ----------------------------------------------------------

  function Interrupt(s: State, pins: bv32): (t: State)
    requires Shape(s)
    ensures Shape(t)
  {
    var half := HalfByte(pins);
    if s.sHead + s.sCount > INT_MAX then s.(wild := true)
    else if s.toggle then s.(toggle := false, top := half << 4)
    else
      var t := s.(toggle := true, top := s.top | half);
      if s.lockHeld then t else Deliver(t)
  }

  /** The locked section of the interrupt, with the assembled byte in `top`. */
  function Deliver(s: State): (t: State)
    requires Shape(s)
    ensures Shape(t)
  {
    var cEnd := (s.cHead + s.cCount) % BUFFER_CAPACITY;
    var sEnd := Rem(s.sHead + s.sCount, MAX_SESSIONS);
    if s.top == 0 then
      if s.sCount == INT_MAX then s.(wild := true) else s.(sCount := s.sCount + 1)
    else if s.cCount >= BUFFER_CAPACITY then s.(lockHeld := true)
    else if sEnd < 0 then s.(wild := true)
    else s.(cBuf := s.cBuf[cEnd := s.top as byte], cCount := s.cCount + 1,
            sizes := s.sizes[sEnd := U32(s.sizes[sEnd] + 1)])
  }

  // ----- bottom half -------------------------------------------------------

  /** One round of the tasklet's loop. */
  function DrainOne(s: State, alloc: Alloc): (t: State)
    requires Shape(s) && s.cCount > 0 && WholePage(alloc)
    ensures Shape(t) && t.cCount == s.cCount - 1
  {
    var b := s.cBuf[s.cHead];
    var t := s.(cHead := (s.cHead + 1) % BUFFER_CAPACITY, cCount := s.cCount - 1);
    var at := s.writeOff;
    if at == 0 then
      if alloc.NoPage? || s.numPages >= MAX_FRAMES then t.(lockHeld := true)
      else Stored(t.(pages := s.pages + [alloc.contents[at := b]], numPages := s.numPages + 1))
    else if s.pages == [] then t.(wild := true)
    else Stored(t.(pages := s.pages[0 := s.pages[0][at := b]]))
  }

  function Stored(t: State): State {
    t.(dataSize := U32(t.dataSize + 1), writeOff := (t.writeOff + 1) % PAGE_SIZE)
  }

  /** The tasklet's loop: until the ring is empty or a page is refused. */
  function Drain(s: State, alloc: Alloc): (t: State)
    requires Shape(s) && WholePage(alloc)
    ensures Shape(t)
    decreases s.cCount
  {
    if s.cCount == 0 || s.lockHeld || s.wild then s else Drain(DrainOne(s, alloc), alloc)
  }

  lemma TopShape(s: State, toggle: bool, top: bv8)
    requires Shape(s)
    ensures Shape(s.(toggle := toggle, top := top))
  {
  }

  // ----- calls ---------------------------------------------------------------

  function OpenCall(s: State, mode: int): (State, Out) {
    if mode == 1 || mode == 2 then (s, Code(-EACCES))
    else if s.nprocs >= s.maxProcs then (s, Code(-EBUSY))
    else (s.(fin := false, nprocs := s.nprocs + 1), Code(0))
  }

  /** How many bytes a read moves from the current page: the minimum of the two
      casts, or, when less than a page of the session is left, that rest by way
      of two unsigned subtractions. */
  function RoundSize(bo: int, got: int, total: int, actual: int): nat {
    if U32(total - got) < PAGE_SIZE then
      U32(U32(PAGE_SIZE - bo) - U32(PAGE_SIZE - U32(U32(total - got) + bo)))
    else U32(Min(S32(PAGE_SIZE - bo), S32(actual)))
  }

  /** One page of a read: `size` bytes from `bo` are copied, and the page is
      freed when the read offset has come round to zero. */
  function Turn(s: State, kept: seq<seq<byte>>, page: seq<byte>, bo: nat, size: nat,
                data: seq<byte>, total: int): (State, seq<seq<byte>>, seq<byte>)
    requires bo + size <= |page|
  {
    var more := data + page[bo..bo + size];
    var t := s.(readOff := (s.readOff + size) % PAGE_SIZE,
                fin := s.fin || U32(total - |data|) < PAGE_SIZE || |more| == total);
    if t.readOff == 0 then
      (t.(numPages := t.numPages - 1, dataSize := U32(t.dataSize - PAGE_SIZE)), kept, more)
    else (t, kept + [page], more)
  }

  /** The page walk of a read.  Pages in `kept` have been passed, `rest` are
      still to come; `bo` is never reset for the next page. */
  function Walk(s: State, kept: seq<seq<byte>>, rest: seq<seq<byte>>, bo: nat,
                data: seq<byte>, total: int, actual: int): (State, Out)
    requires WholePages(rest)
    decreases |rest|
  {
    if rest == [] then (s.(pages := kept), Data(data))
    else
      var size := RoundSize(bo, |data|, total, actual);
      if bo + size > PAGE_SIZE then
        (s.(pages := kept + rest, fin := s.fin || U32(total - |data|) < PAGE_SIZE, wild := true), Wild)
      else
        var (t, kept', more) := Turn(s, kept, rest[0], bo, size, data, total);
        if |more| == total then (t.(pages := kept' + rest[1..]), Data(more))
        else Walk(t, kept', rest[1..], bo + size, more, total, actual)
  }

  lemma WalkEnd(s: State, kept: seq<seq<byte>>, bo: nat, data: seq<byte>, total: int, actual: int)
    ensures Walk(s, kept, [], bo, data, total, actual) == (s.(pages := kept), Data(data))
  {
  }

  lemma TurnShape(s: State, kept: seq<seq<byte>>, rest: seq<seq<byte>>, bo: nat, size: nat,
                  data: seq<byte>, total: int)
    requires Shape(s.(pages := kept + rest)) && rest != [] && |rest[0]| == PAGE_SIZE
    requires bo + size <= PAGE_SIZE
    ensures var (t, kept', more) := Turn(s, kept, rest[0], bo, size, data, total);
            Shape(t.(pages := kept' + rest[1..]))
  {
    var (t, kept', more) := Turn(s, kept, rest[0], bo, size, data, total);
    assert rest == [rest[0]] + rest[1..];
    assert kept + [rest[0]] + rest[1..] == kept + rest;
    assert forall i | 0 <= i < |kept + rest[1..]| ::
      (kept + rest[1..])[i] == (kept + rest)[if i < |kept| then i else i + 1];
  }

  lemma {:induction false} WalkShape(s: State, kept: seq<seq<byte>>, rest: seq<seq<byte>>, bo: nat,
                                     data: seq<byte>, total: int, actual: int)
    requires Shape(s.(pages := kept + rest)) && WholePages(rest)
    ensures Shape(Walk(s, kept, rest, bo, data, total, actual).0)
    decreases |rest|
  {
    if rest == [] {
      assert kept + rest == kept;
    } else {
      var size := RoundSize(bo, |data|, total, actual);
      if bo + size <= PAGE_SIZE {
        TurnShape(s, kept, rest, bo, size, data, total);
        var (t, kept', more) := Turn(s, kept, rest[0], bo, size, data, total);
        if |more| != total {
          WalkShape(t, kept', rest[1..], bo + size, more, total, actual);
        }
      }
    }
  }

  /** A read goes to sleep. */
  predicate Sleeps(s: State) {
    s.sCount == 0 && s.readOff == s.writeOff
  }

  /** A read up to where it may sleep.  One that does goes on with TakeSession
      when it is woken, or when a signal ends its sleep, without a second look
      at `fin` or at the session count. */
  function ReadCall(s: State, count: int): (r: (State, Out))
    requires Shape(s)
    ensures Shape(r.0)
  {
    if s.fin then (s, Eof)
    else if Sleeps(s) then (s, Waiting)
    else TakeSession(s, count)
  }

  function TakeSession(s: State, count: int): (r: (State, Out))
    requires Shape(s)
    ensures Shape(r.0)
  {
    if s.sCount == INT_MIN then (s.(wild := true), Wild)
    else
      var total := s.sizes[s.sHead];
      var t := s.(sHead := (s.sHead + 1) % MAX_SESSIONS, sCount := s.sCount - 1);
      assert [] + s.pages == s.pages;
      WalkShape(t, [], s.pages, s.readOff, [], total, Min(count, total));
      Walk(t, [], s.pages, s.readOff, [], total, Min(count, total))
  }

  function Step(s: State, l: Label): (r: (State, Out))
    requires Shape(s) && Typed(l)
    ensures Shape(r.0)
  {
    if s.wild then (s, Wild)
    else
      match l
      case Sample(pins) => (Interrupt(s, pins), Nothing)
      case Tasklet(alloc) => (Drain(s, alloc), Nothing)
      case Open(mode) => OpenCall(s, mode)
      case Release => (s.(nprocs := s.nprocs - 1), Code(0))
      case Read(count) => ReadCall(s, count)
      case Woken(count) => TakeSession(s, count)
      case SetMax(n) => if n < 0 then (s, Code(-EINVAL)) else (s.(maxProcs := n), Code(0))
  }

  // ----- runs ------------------------------------------------------------------

  predicate AllTyped(ls: seq<Label>) {
    forall l <- ls :: Typed(l)
  }

  ghost function Exec(s: State, ls: seq<Label>): (r: (State, seq<Out>))
    requires Shape(s) && AllTyped(ls)
    ensures Shape(r.0) && |r.1| == |ls|
  {
    if ls == [] then (s, [])
    else
      var n := |ls| - 1;
      var (t, outs) := Exec(s, ls[..n]);
      (Step(t, ls[n]).0, outs + [Step(t, ls[n]).1])
  }

  /** The state a run from the start is in. */
  ghost function At(ls: seq<Label>): (s: State)
    requires AllTyped(ls)
    ensures Shape(s)
  {
    Exec(Start(), ls).0
  }
}
