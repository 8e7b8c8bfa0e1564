/** The driver as it is written: globals updated in place by the interrupt, the
    tasklet and the calls.  Every entry point does to the globals exactly what
    its step of the pipeline says, so every result about runs of steps is one
    about runs of the driver. */
module PipelineDriver {
  import opened Machine
  import opened Wire
  import opened Pipeline
  import Delivery
  import PipelineCalls
  import RD = RamDisk

  const IOC_TYPE := 'k'
  const SET_NPROC_OP := 1
  const ENOTTY := 25

  lemma Bounds(s: State)
    requires Shape(s)
    ensures |s.cBuf| == BUFFER_CAPACITY && 0 <= s.cHead < BUFFER_CAPACITY && 0 <= s.cCount <= BUFFER_CAPACITY
    ensures |s.sizes| == MAX_SESSIONS && 0 <= s.sHead < MAX_SESSIONS && INT_MIN <= s.sCount <= INT_MAX
    ensures 0 <= s.readOff < PAGE_SIZE && 0 <= s.writeOff < PAGE_SIZE && 0 <= s.sizes[s.sHead] < U32_MOD
    ensures s.numPages == |s.pages|
  {
  }

  lemma FirstCase(s: State, pins: bv32)
    requires Shape(s) && s.sHead + s.sCount <= INT_MAX && s.toggle
    ensures Pipeline.Interrupt(s, pins) == s.(toggle := false, top := HalfByte(pins) << 4)
  {
    hide HalfByte, Pipeline.Deliver;
  }

  lemma SecondCase(s: State, pins: bv32)
    requires Shape(s) && s.sHead + s.sCount <= INT_MAX && !s.toggle
    ensures var t := s.(toggle := true, top := s.top | HalfByte(pins));
            Shape(t) && Pipeline.Interrupt(s, pins) == if s.lockHeld then t else Pipeline.Deliver(t)
  {
    hide HalfByte, Pipeline.Deliver;
  }

  lemma WildCase(s: State, pins: bv32)
    requires Shape(s) && s.sHead + s.sCount > INT_MAX
    ensures Pipeline.Interrupt(s, pins) == s.(wild := true)
  {
  }

  /** The page list with one more byte. */
  function Placed(pages: seq<seq<byte>>, alloc: Alloc, at: nat, b: byte): seq<seq<byte>>
    requires WholePage(alloc) && (at == 0 ==> alloc.NewPage?)
    requires at != 0 ==> pages != [] && at < |pages[0]|
  {
    if at == 0 then pages + [alloc.contents[0 := b]] else pages[0 := pages[0][at := b]]
  }

  lemma DrainOneIs(s: State, alloc: Alloc)
    requires Shape(s) && WholePage(alloc) && s.cCount > 0
    ensures s.pages != [] ==> |s.pages[0]| == PAGE_SIZE
    ensures var t := s.(cHead := (s.cHead + 1) % BUFFER_CAPACITY, cCount := s.cCount - 1);
            DrainOne(s, alloc) ==
            if s.writeOff == 0 && (alloc.NoPage? || s.numPages >= MAX_FRAMES) then t.(lockHeld := true)
            else if s.writeOff != 0 && s.pages == [] then t.(wild := true)
            else t.(pages := Placed(s.pages, alloc, s.writeOff, s.cBuf[s.cHead]),
                    numPages := if s.writeOff == 0 then s.numPages + 1 else s.numPages,
                    dataSize := U32(s.dataSize + 1), writeOff := (s.writeOff + 1) % PAGE_SIZE)
  {
    hide U32;
  }

  lemma RemBelow(x: int, m: int)
    requires m > 0
    ensures Rem(x, m) < m
  {
  }

  lemma HeadShape(s: State)
    requires Shape(s) && s.sCount != INT_MIN
    ensures Shape(s.(sHead := (s.sHead + 1) % MAX_SESSIONS, sCount := s.sCount - 1))
  {
  }

  /** What reading `size` bytes does to the globals. */
  function After(s: State, size: nat, fin: bool): State {
    var off := (s.readOff + size) % PAGE_SIZE;
    s.(readOff := off, fin := fin,
       numPages := if off == 0 then s.numPages - 1 else s.numPages,
       dataSize := if off == 0 then U32(s.dataSize - PAGE_SIZE) else s.dataSize)
  }

  /** A walk that reaches outside its page. */
  lemma WalkOverrun(s: State, kept: seq<seq<byte>>, rest: seq<seq<byte>>, bo: nat,
                    data: seq<byte>, total: int, actual: int)
    requires WholePages(rest) && rest != [] && bo + RoundSize(bo, |data|, total, actual) > PAGE_SIZE
    ensures var fin := s.fin || U32(total - |data|) < PAGE_SIZE;
            Walk(s, kept, rest, bo, data, total, actual) == (s.(pages := kept + rest, fin := fin, wild := true), Wild)
  {
    hide RoundSize, U32;
  }

  /** One turn of a walk: `list` is the page list afterwards, passed up to `next`. */
  lemma WalkOnce(s: State, kept: seq<seq<byte>>, rest: seq<seq<byte>>, bo: nat,
                 data: seq<byte>, total: int, actual: int,
                 size: nat, fin: bool, more: seq<byte>, list: seq<seq<byte>>, next: nat)
    requires WholePages(rest) && rest != [] && size == RoundSize(bo, |data|, total, actual) && bo + size <= PAGE_SIZE
    requires more == data + rest[0][bo..bo + size]
    requires fin <==> s.fin || U32(total - |data|) < PAGE_SIZE || |more| == total
    requires next <= |list| && list[next..] == rest[1..]
    requires list[..next] == if After(s, size, fin).readOff == 0 then kept else kept + [rest[0]]
    ensures var t := After(s, size, fin);
            Walk(s, kept, rest, bo, data, total, actual) ==
            if |more| == total then (t.(pages := list), Data(more))
            else Walk(t, list[..next], list[next..], bo + size, more, total, actual)
  {
    hide RoundSize, U32;
    assert list[..next] + list[next..] == list;
  }

  /** A walk replaces the page list. */
  lemma {:induction false} WalkIgnoresPages(s: State, pages: seq<seq<byte>>, kept: seq<seq<byte>>, rest: seq<seq<byte>>,
                                            bo: nat, data: seq<byte>, total: int, actual: int)
    requires WholePages(rest)
    ensures Walk(s.(pages := pages), kept, rest, bo, data, total, actual)
         == Walk(s, kept, rest, bo, data, total, actual)
    decreases |rest|
  {
    hide RoundSize, Turn, U32;
    if rest != [] {
      var size := RoundSize(bo, |data|, total, actual);
      if bo + size <= PAGE_SIZE {
        TurnIgnoresPages(s, pages, kept, rest[0], bo, size, data, total);
        var (t, kept', more) := Turn(s, kept, rest[0], bo, size, data, total);
        if |more| != total {
          WalkIgnoresPages(t, pages, kept', rest[1..], bo + size, more, total, actual);
        }
      }
    }
  }

  lemma TurnIgnoresPages(s: State, pages: seq<seq<byte>>, kept: seq<seq<byte>>, page: seq<byte>, bo: nat, size: nat,
                         data: seq<byte>, total: int)
    requires bo + size <= |page|
    ensures var (t, kept', more) := Turn(s, kept, page, bo, size, data, total);
            Turn(s.(pages := pages), kept, page, bo, size, data, total) == (t.(pages := pages), kept', more)
  {
    hide U32;
  }

  lemma AfterFin(s: State, fin: bool, size: nat, fin': bool)
    ensures After(s.(fin := fin), size, fin') == After(s, size, fin')
  {
    hide U32;
  }

  lemma TurnedShape(s: State, size: nat, fin: bool, pages: seq<seq<byte>>)
    requires Shape(s) && WholePages(pages)
    requires var t := After(s.(pages := []), size, fin); |pages| == |s.pages| - if t.readOff == 0 then 1 else 0
    ensures Shape(After(s.(pages := []), size, fin).(pages := pages))
  {
  }

  lemma WildShape(s: State, fin: bool)
    requires Shape(s)
    ensures Shape(s.(fin := fin, wild := true))
  {
  }

  class Driver {
    var toggle: bool
    var top: bv8              // top_full_byte
    var cHead: int            // the ring
    var cCount: int
    const cBuf: array<byte>
    var sHead: int            // the sessions
    var sCount: int
    var readOff: int
    var writeOff: int
    const sizes: array<int>
    var fin: bool             // fin_reading
    var pages: seq<array<byte>>
    var numPages: int
    var dataSize: int
    var nprocs: int
    var maxProcs: int
    var lockHeld: bool
    var wild: bool

    /** The globals as one value. */
    ghost function Abs(): State
      reads this, cBuf, sizes, pages
    {
      State(toggle, top, cHead, cCount, cBuf[..], sHead, sCount, readOff, writeOff, sizes[..], fin,
            RD.Values(pages), numPages, dataSize, nprocs, maxProcs, lockHeld, wild)
    }

    /** The globals but for the page list. */
    ghost function Scalars(): State
      reads this, cBuf, sizes
    {
      State(toggle, top, cHead, cCount, cBuf[..], sHead, sCount, readOff, writeOff, sizes[..], fin,
            [], numPages, dataSize, nprocs, maxProcs, lockHeld, wild)
    }

    ghost predicate Valid()
      reads this, cBuf, sizes, pages
    {
      && Shape(Abs())
      && RD.PageSized(pages) && RD.Distinct(pages) && cBuf !in pages
    }

    constructor ()
      ensures Valid() && Abs() == Start()
      ensures fresh(cBuf) && fresh(sizes) && pages == []
    {
      toggle, top := true, 0;
      cHead, cCount := 0, 0;
      sHead, sCount, readOff, writeOff := 0, 0, 0, 0;
      fin := false;
      pages, numPages, dataSize := [], 0, 0;
      nprocs, maxProcs := 0, 1;
      lockHeld, wild := false, false;
      cBuf := new byte[BUFFER_CAPACITY](_ => 0);
      sizes := new int[MAX_SESSIONS](_ => 0);
      new;
      assert cBuf[..] == Start().cBuf && sizes[..] == Start().sizes;
    }

    // ----- top half ----------------------------------------------------------

    /** The interrupt handler. */
    method Interrupt(pins: bv32)
      requires Valid()
      modifies `toggle, `top, `cCount, `sCount, `lockHeld, `wild, cBuf, sizes
      ensures Abs() == Pipeline.Interrupt(old(Abs()), pins) && Valid()
    {
      hide Shape, HalfByte, Pipeline.Deliver, Pipeline.Interrupt, Abs, RD.Values;
      Fields();
      var readByte := ReadHalfByte(pins);
      if sHead + sCount > INT_MAX {
        WildCase(Abs(), pins);
        MarkWild();
        return;
      }
      if toggle {
        FirstCase(Abs(), pins);
        FirstHalf(readByte);
        return;
      }
      SecondCase(Abs(), pins);
      SecondHalf(readByte);
    }

    method FirstHalf(half: bv8)
      requires Valid()
      modifies `toggle, `top
      ensures Abs() == old(Abs()).(toggle := false, top := half << 4) && Valid()
    {
      toggle := false;
      top := half << 4;
    }

    method SecondHalf(half: bv8)
      requires Valid() && sHead + sCount <= INT_MAX && Shape(Abs().(toggle := true, top := top | half))
      modifies `toggle, `top, `cCount, `sCount, `lockHeld, `wild, cBuf, sizes
      ensures var s := old(Abs()).(toggle := true, top := old(top) | half);
              Abs() == if s.lockHeld then s else Pipeline.Deliver(s)
      ensures Valid()
    {
      hide Shape, Pipeline.Deliver, RD.Values;
      toggle := true;
      top := top | half;
      if !lockHeld {
        Deliver();
      }
    }

    /** Its locked section. */
    method Deliver()
      requires Valid() && sHead + sCount <= INT_MAX
      modifies `toggle, `top, `cCount, `sCount, `lockHeld, `wild, cBuf, sizes
      ensures Abs() == Pipeline.Deliver(old(Abs()))
      ensures Valid()
    {
      hide Shape, RD.Values, U32, Rem, Abs;
      Fields();
      Bounds(Abs());
      var cEnd := (cHead + cCount) % BUFFER_CAPACITY;
      var sEnd := Rem(sHead + sCount, MAX_SESSIONS);
      if top == 0 {
        if sCount == INT_MAX {
          MarkWild();
        } else {
          CloseSession();
        }
      } else if cCount >= BUFFER_CAPACITY {
        KeepLock();
      } else if sEnd < 0 {
        MarkWild();
      } else {
        RemBelow(sHead + sCount, MAX_SESSIONS);
        Enqueue(cEnd, sEnd);
      }
    }

    method CloseSession()
      modifies `sCount
      ensures Abs() == old(Abs()).(sCount := old(sCount) + 1)
    {
      sCount := sCount + 1;
    }

    /** A return without giving the lock back. */
    method KeepLock()
      modifies `lockHeld
      ensures Abs() == old(Abs()).(lockHeld := true)
    {
      lockHeld := true;
    }

    /** Stores the byte and counts it. */
    method Enqueue(cEnd: nat, sEnd: nat)
      requires cEnd < cBuf.Length && sEnd < sizes.Length && cBuf !in pages
      modifies `cCount, cBuf, sizes
      ensures Abs() == old(Abs()).(cBuf := old(cBuf[..])[cEnd := top as byte], cCount := old(cCount) + 1,
                                   sizes := old(sizes[..])[sEnd := U32(old(sizes[sEnd]) + 1)])
    {
      hide U32;
      cBuf[cEnd] := top as byte;
      cCount := cCount + 1;
      sizes[sEnd] := U32(sizes[sEnd] + 1);
      assert forall i | 0 <= i < |pages| :: pages[i][..] == old(pages[i][..]);
    }

    // ----- bottom half ---------------------------------------------------------

    /** The tasklet. */
    method TaskletCopy(alloc: Alloc)
      requires Valid() && WholePage(alloc) && !wild
      modifies `cHead, `cCount, `writeOff, `pages, `numPages, `dataSize, `lockHeld, `wild, pages
      ensures Abs() == Drain(old(Abs()), alloc) && Valid()
      ensures forall i | 0 <= i < |pages| :: pages[i] in old(pages) || fresh(pages[i])
    {
      if lockHeld {
        return;
      }
      while cCount != 0
        invariant Valid() && !lockHeld && !wild
        invariant Drain(Abs(), alloc) == Drain(old(Abs()), alloc)
        invariant forall i | 0 <= i < |pages| :: pages[i] in old(pages) || fresh(pages[i])
        decreases cCount
      {
        CopyByte(alloc);
        if lockHeld || wild {
          return;
        }
      }
    }

    /** One round of its loop. */
    method CopyByte(alloc: Alloc)
      requires Valid() && WholePage(alloc) && cCount > 0
      modifies `cHead, `cCount, `writeOff, `pages, `numPages, `dataSize, `lockHeld, `wild, pages
      ensures Abs() == DrainOne(old(Abs()), alloc) && Valid()
      ensures forall i | 0 <= i < |pages| :: pages[i] in old(pages) || fresh(pages[i])
    {
      hide Shape, RD.Values, U32, DrainOne, Placed, WholePage, Scalars, Abs;
      Fields();
      Bounds(Abs());
      PageLengths();
      DrainOneIs(Abs(), alloc);
      var b := TakeByte();
      var placed := Place(alloc, b);
      if placed {
        CountByte();
      }
    }

    method TakeByte() returns (b: byte)
      requires 0 <= cHead < cBuf.Length
      modifies `cHead, `cCount
      ensures b == old(cBuf[cHead])
      ensures Abs() == old(Abs()).(cHead := (old(cHead) + 1) % BUFFER_CAPACITY, cCount := old(cCount) - 1)
    {
      b := cBuf[cHead];
      cHead := (cHead + 1) % BUFFER_CAPACITY;
      cCount := cCount - 1;
    }

    method CountByte()
      modifies `dataSize, `writeOff
      ensures Abs() == old(Abs()).(dataSize := U32(old(dataSize) + 1), writeOff := (old(writeOff) + 1) % PAGE_SIZE)
    {
      dataSize := U32(dataSize + 1);
      writeOff := (writeOff + 1) % PAGE_SIZE;
    }

    /** Puts a byte on a new page or at the write offset of the first one. */
    method Place(alloc: Alloc, b: byte) returns (placed: bool)
      requires RD.PageSized(pages) && RD.Distinct(pages) && cBuf !in pages
      requires 0 <= writeOff < PAGE_SIZE && WholePage(alloc)
      modifies `pages, `numPages, `lockHeld, `wild, pages
      ensures RD.PageSized(pages) && RD.Distinct(pages) && cBuf !in pages
      ensures forall i | 0 <= i < |pages| :: pages[i] in old(pages) || fresh(pages[i])
      ensures placed <==> if writeOff == 0 then alloc.NewPage? && old(numPages) < MAX_FRAMES else old(pages) != []
      ensures placed && writeOff != 0 ==> |old(RD.Values(pages))| > 0 && |old(RD.Values(pages))[0]| == PAGE_SIZE
      ensures Abs() ==
              if placed then old(Abs()).(pages := Placed(old(RD.Values(pages)), alloc, writeOff, b),
                                         numPages := if writeOff == 0 then old(numPages) + 1 else old(numPages))
              else if writeOff == 0 then old(Abs()).(lockHeld := true) else old(Abs()).(wild := true)
    {
      hide RD.Values;
      PageLengths();
      placed := true;
      if writeOff == 0 {
        if alloc.NoPage? || numPages >= MAX_FRAMES {
          lockHeld := true;
          return false;
        }
        AddPage(alloc.contents, b);
      } else if pages == [] {
        wild := true;
        return false;
      } else {
        PutByte(b);
      }
    }

    /** Links a new page with `b` as its first byte. */
    method AddPage(contents: seq<byte>, b: byte)
      requires RD.PageSized(pages) && RD.Distinct(pages) && cBuf !in pages && |contents| == PAGE_SIZE
      modifies this`pages, this`numPages
      ensures RD.PageSized(pages) && RD.Distinct(pages) && cBuf !in pages
      ensures |pages| == |old(pages)| + 1 && pages[..|old(pages)|] == old(pages)
      ensures fresh(pages[|old(pages)|]) && numPages == old(numPages) + 1
      ensures RD.Values(pages) == old(RD.Values(pages)) + [contents[0 := b]]
    {
      var page := new byte[PAGE_SIZE](i requires 0 <= i < PAGE_SIZE => contents[i]);
      page[0] := b;
      assert page[..] == contents[0 := b];
      pages := pages + [page];
      numPages := numPages + 1;
    }

    /** Puts a byte at the write offset of the first page of the list. */
    method PutByte(b: byte)
      requires RD.PageSized(pages) && RD.Distinct(pages) && pages != [] && 0 <= writeOff < PAGE_SIZE
      requires cBuf !in pages
      modifies pages
      ensures cBuf[..] == old(cBuf[..]) && sizes[..] == old(sizes[..])
      ensures RD.Values(pages) == old(RD.Values(pages))[0 := old(RD.Values(pages))[0][writeOff := b]]
    {
      pages[0][writeOff] := b;
    }

    // ----- calls -----------------------------------------------------------------

    /** Reading only, and below the limit: -13 is EACCES, -16 is EBUSY. */
    method Open(mode: int) returns (code: int)
      requires Valid()
      modifies `fin, `nprocs
      ensures (Abs(), Code(code)) == OpenCall(old(Abs()), mode) && Valid()
      ensures code == 0 <==> mode != 1 && mode != 2 && old(nprocs) < old(maxProcs)
      ensures code == 0 ==> !fin && nprocs == old(nprocs) + 1
      ensures code != 0 ==> Abs() == old(Abs()) && code == if mode == 1 || mode == 2 then -13 else -16
    {
      if mode == 1 || mode == 2 {
        return -EACCES;
      }
      if nprocs >= maxProcs {
        return -EBUSY;
      }
      fin := false;
      nprocs := nprocs + 1;
      return 0;
    }

    method Release()
      requires Valid()
      modifies `nprocs
      ensures Abs() == old(Abs()).(nprocs := old(nprocs) - 1) && Valid()
    {
      nprocs := nprocs - 1;
    }

    /** Sets the limit: -22 is EINVAL, -25 is ENOTTY. */
    method Ioctl(kind: char, nr: int, arg: int) returns (code: int)
      requires Valid()
      modifies `maxProcs
      ensures code == if kind != 'k' then -22 else if nr != 1 then -25 else if arg < 0 then -22 else 0
      ensures Abs() == old(Abs()).(maxProcs := if code == 0 then arg else old(maxProcs)) && Valid()
    {
      if kind != IOC_TYPE {
        return -EINVAL;
      }
      if nr != SET_NPROC_OP {
        return -ENOTTY;
      }
      if arg < 0 {
        return -EINVAL;
      }
      maxProcs := arg;
      return 0;
    }

    /** A read, up to where it may sleep. */
    method Read(count: int) returns (out: Out)
      requires Valid() && !wild && 0 <= count < U32_MOD
      modifies `sHead, `sCount, `readOff, `fin, `pages, `numPages, `dataSize, `wild
      ensures (Abs(), out) == ReadCall(old(Abs()), count) && Valid()
      ensures out == Eof <==> old(fin)
      ensures out == Waiting <==> !old(fin) && old(sCount) == 0 && old(readOff) == old(writeOff)
      ensures out == Eof || out == Waiting ==> Abs() == old(Abs())
      ensures !old(fin) && out != Waiting && out != Wild ==>
              sHead == (old(sHead) + 1) % 100 && sCount == old(sCount) - 1
      ensures forall p <- pages :: p in old(pages)
    {
      hide Shape, TakeSession;
      PipelineCalls.ReadWaitsIff(Abs(), count);
      if fin {
        return Eof;
      }
      if sCount == 0 && readOff == writeOff {
        return Waiting;
      }
      out := Take(count);
    }

    /** The rest of a read: the head session is taken and the list is walked. */
    method Take(count: int) returns (out: Out)
      requires Valid() && !wild && 0 <= count < U32_MOD
      modifies `sHead, `sCount, `readOff, `fin, `pages, `numPages, `dataSize, `wild
      ensures (Abs(), out) == TakeSession(old(Abs()), count) && Valid()
      ensures forall p <- pages :: p in old(pages)
    {
      hide Shape, Walk;
      Bounds(Abs());
      if sCount == INT_MIN {
        wild := true;
        return Wild;
      }
      var total := sizes[sHead];
      var actual := Min(count, total);
      HeadShape(Abs());
      sHead := (sHead + 1) % MAX_SESSIONS;
      sCount := sCount - 1;
      out := WalkList(total, actual);
    }

    /** The loop over the list. */
    method WalkList(total: nat, actual: int) returns (out: Out)
      requires Valid() && !wild
      modifies `readOff, `fin, `pages, `numPages, `dataSize, `wild
      ensures (Abs(), out) == Walk(old(Abs()), [], old(RD.Values(pages)), old(readOff), [], total, actual)
      ensures Valid()
      ensures forall p <- pages :: p in old(pages)
    {
      hide Shape, Walk;
      Bounds(Abs());
      var beginOffset := readOff;
      var data: seq<byte> := [];
      var k, beginPageNo, currPageNo := 0, 0, -1;
      assert RD.Values(pages)[..0] == [] && RD.Values(pages)[0..] == RD.Values(pages);
      WalkIgnoresPages(Abs(), [], [], RD.Values(pages), readOff, [], total, actual);
      while k < |pages|
        invariant 0 <= k <= |pages| && 0 <= beginOffset <= PAGE_SIZE && Valid() && !wild
        invariant currPageNo == beginPageNo - 1
        invariant forall p <- pages :: p in old(pages)
        invariant Walk(Scalars(), RD.Values(pages)[..k], RD.Values(pages)[k..], beginOffset, data, total, actual)
               == Walk(old(Abs()), [], old(RD.Values(pages)), old(readOff), [], total, actual)
        decreases |pages| - k
      {
        currPageNo := currPageNo + 1;
        if currPageNo == beginPageNo {
          var stop;
          k, beginOffset, data, stop := ReadPage(k, beginOffset, data, total, actual);
          if stop {
            return if wild then Wild else Data(data);
          }
          beginPageNo := beginPageNo + 1;
        }
      }
      assert RD.Values(pages)[..k] == RD.Values(pages) && RD.Values(pages)[k..] == [];
      WalkEnd(Scalars(), RD.Values(pages), beginOffset, data, total, actual);
      return Data(data);
    }

    /** One page of it. */
    method ReadPage(k: nat, bo: nat, data: seq<byte>, total: nat, actual: int)
      returns (next: nat, end: nat, more: seq<byte>, stop: bool)
      requires Valid() && !wild && k < |pages| && bo <= PAGE_SIZE
      modifies `readOff, `fin, `pages, `numPages, `dataSize, `wild
      ensures Valid() && next <= |pages| && |pages| - next < |old(pages)| - k && end <= PAGE_SIZE
      ensures forall p <- pages :: p in old(pages)
      ensures var (s, kept, rest) := old((Scalars(), RD.Values(pages)[..k], RD.Values(pages)[k..]));
              Walk(s, kept, rest, bo, data, total, actual) ==
              if stop then (Abs(), if wild then Wild else Data(more))
              else Walk(Scalars(), RD.Values(pages)[..next], RD.Values(pages)[next..], end, more, total, actual)
      ensures !stop ==> !wild
    {
      hide Shape, RoundSize, Walk, U32, After, Scalars, Abs, RD.Values;
      PageLengths();
      Parts();
      ghost var s, kept, rest := Scalars(), RD.Values(pages)[..k], RD.Values(pages)[k..];
      var size := SizePage(bo, |data|, total, actual);
      if bo + size > PAGE_SIZE {
        WalkOverrun(s, kept, rest, bo, data, total, actual);
        WildShape(old(Abs()), fin);
        MarkWild();
        Parts();
        assert kept + rest == RD.Values(pages);
        return k + 1, bo, data, true;
      }
      next, more := TurnPage(k, bo, size, data, total);
      end := bo + size;
      stop := |more| == total;
      PageLengths();
      Parts();
      AfterFin(s, old(fin) || U32(total - |data|) < PAGE_SIZE, size, fin);
      WalkOnce(s, kept, rest, bo, data, total, actual, size, fin, more, RD.Values(pages), next);
      TurnedShape(old(Abs()), size, fin, RD.Values(pages));
    }

    lemma Parts()
      ensures Abs() == Scalars().(pages := RD.Values(pages)) && Scalars() == Abs().(pages := [])
      ensures Scalars().fin == fin && Scalars().readOff == readOff && Scalars().wild == wild
      ensures Shape(Abs()) ==> readOff >= 0
    {
    }

    lemma Fields()
      ensures Abs().sHead == sHead && Abs().sCount == sCount && Abs().toggle == toggle && Abs().lockHeld == lockHeld
      ensures Abs().top == top && Abs().writeOff == writeOff && Abs().numPages == numPages && Abs().dataSize == dataSize
      ensures Abs().cHead == cHead && Abs().cCount == cCount && Abs().cBuf == cBuf[..]
      ensures Abs().pages == RD.Values(pages) && Abs().sizes == sizes[..]
    {
    }

    /** How much of the session to take from this page. */
    method SizePage(bo: nat, got: nat, total: nat, actual: int) returns (size: nat)
      requires bo <= PAGE_SIZE
      modifies `fin
      ensures Scalars() == old(Scalars()).(fin := fin)
      ensures size == RoundSize(bo, got, total, actual)
      ensures fin <==> old(fin) || U32(total - got) < PAGE_SIZE
    {
      size := U32(Min(S32(PAGE_SIZE - bo), S32(actual)));
      var sizeLeft := U32(total - got);
      if sizeLeft < PAGE_SIZE {
        sizeLeft := U32(PAGE_SIZE - U32(sizeLeft + bo));
        size := U32(U32(PAGE_SIZE - bo) - sizeLeft);
        fin := true;
      }
    }

    /** Copies it and frees the page when the read offset comes round to zero. */
    method TurnPage(k: nat, bo: nat, size: nat, data: seq<byte>, total: nat)
      returns (next: nat, more: seq<byte>)
      requires RD.PageSized(pages) && RD.Distinct(pages) && k < |pages| && bo + size <= PAGE_SIZE && readOff >= 0
      modifies `readOff, `fin, `pages, `numPages, `dataSize
      ensures next <= |pages| && |pages| - next == |old(pages)| - k - 1
      ensures |pages| == |old(pages)| - if readOff == 0 then 1 else 0
      ensures k < |old(RD.Values(pages))| && |old(RD.Values(pages))[k]| == PAGE_SIZE
      ensures more == data + old(RD.Values(pages))[k][bo..bo + size]
      ensures RD.Values(pages)[next..] == old(RD.Values(pages))[k + 1..]
      ensures RD.Values(pages)[..next] ==
              if readOff == 0 then old(RD.Values(pages))[..k]
              else old(RD.Values(pages))[..k] + [old(RD.Values(pages))[k]]
      ensures readOff == (old(readOff) + size) % PAGE_SIZE && (readOff != 0 ==> pages == old(pages))
      ensures fin <==> old(fin) || |more| == total
      ensures Scalars() == After(old(Scalars()), size, fin)
      ensures RD.PageSized(pages) && RD.Distinct(pages) && forall p <- pages :: p in old(pages)
    {
      hide U32, RD.Values;
      more := data + CopyPage(k, bo, size);
      readOff := (readOff + size) % PAGE_SIZE;
      next := FreeIfRead(k);
      if |more| == total {
        fin := true;
      }
    }

    function CopyPage(k: nat, bo: nat, size: nat): (chunk: seq<byte>)
      requires RD.PageSized(pages) && k < |pages| && bo + size <= PAGE_SIZE
      reads this, pages
      ensures k < |RD.Values(pages)| && |RD.Values(pages)[k]| == PAGE_SIZE
      ensures chunk == RD.Values(pages)[k][bo..bo + size]
    {
      pages[k][bo..bo + size]
    }

    method FreeIfRead(k: nat) returns (next: nat)
      requires RD.PageSized(pages) && RD.Distinct(pages) && k < |pages|
      modifies `pages, `numPages, `dataSize
      ensures next <= |pages| && |pages| - next == |old(pages)| - k - 1
      ensures |pages| == |old(pages)| - if readOff == 0 then 1 else 0
      ensures next <= |RD.Values(pages)| && k < |old(RD.Values(pages))|
      ensures RD.Values(pages)[next..] == old(RD.Values(pages))[k + 1..]
      ensures RD.Values(pages)[..next] ==
              if readOff == 0 then old(RD.Values(pages))[..k]
              else old(RD.Values(pages))[..k] + [old(RD.Values(pages))[k]]
      ensures readOff != 0 ==> pages == old(pages)
      ensures numPages == if readOff == 0 then old(numPages) - 1 else old(numPages)
      ensures dataSize == if readOff == 0 then U32(old(dataSize) - PAGE_SIZE) else old(dataSize)
      ensures RD.PageSized(pages) && RD.Distinct(pages) && forall p <- pages :: p in old(pages)
    {
      if readOff == 0 {
        pages := pages[..k] + pages[k + 1..];
        numPages := numPages - 1;
        dataSize := U32(dataSize - PAGE_SIZE);
        assert RD.Values(pages) == old(RD.Values(pages))[..k] + old(RD.Values(pages))[k + 1..];
        return k;
      }
      return k + 1;
    }

    method MarkWild()
      modifies `wild
      ensures wild && Scalars() == old(Scalars()).(wild := true) && Abs() == old(Abs()).(wild := true)
    {
      wild := true;
    }

    lemma PageLengths()
      requires RD.PageSized(pages)
      ensures |RD.Values(pages)| == |pages| && WholePages(RD.Values(pages))
    {
    }

    // ----- runs --------------------------------------------------------------------

    /** Any one step; after `wild` nothing more happens. */
    method Perform(l: Label) returns (out: Out)
      requires Valid() && Typed(l)
      modifies this, cBuf, sizes, pages
      ensures (Abs(), out) == Step(old(Abs()), l) && Valid()
      ensures forall i | 0 <= i < |pages| :: pages[i] in old(pages) || fresh(pages[i])
    {
      hide Shape, Pipeline.Interrupt, Drain, OpenCall, ReadCall, TakeSession;
      if wild {
        return Out.Wild;
      }
      match l {
        case Sample(pins) =>
          Interrupt(pins);
          return Nothing;
        case Tasklet(alloc) =>
          TaskletCopy(alloc);
          return Nothing;
        case Open(mode) =>
          var code := Open(mode);
          return Code(code);
        case Release =>
          Release();
          return Code(0);
        case Read(count) =>
          out := Read(count);
        case Woken(count) =>
          out := Take(count);
        case SetMax(n) =>
          var code := Ioctl(IOC_TYPE, SET_NPROC_OP, n);
          return Code(code);
      }
    }

    /** Any run: the globals and the replies are those of the step system. */
    method Execute(ls: seq<Label>) returns (outs: seq<Out>)
      requires Valid() && AllTyped(ls)
      modifies this, cBuf, sizes, pages
      ensures (Abs(), outs) == Exec(old(Abs()), ls) && Valid()
    {
      outs := [];
      assert ls[..0] == [];
      for i := 0 to |ls|
        invariant Valid() && (Abs(), outs) == Exec(old(Abs()), ls[..i])
        invariant forall i | 0 <= i < |pages| :: pages[i] in old(pages) || fresh(pages[i])
      {
        var out := Perform(ls[i]);
        outs := outs + [out];
        ExecMore(old(Abs()), ls, i);
      }
      assert ls[..|ls|] == ls;
    }
  }

  lemma ExecMore(s: State, ls: seq<Label>, i: nat)
    requires Shape(s) && AllTyped(ls) && i < |ls|
    ensures var (t, outs) := Exec(s, ls[..i]);
            Exec(s, ls[..i + 1]) == (Step(t, ls[i]).0, outs + [Step(t, ls[i]).1])
  {
    hide Step;
    assert ls[..i + 1][..i] == ls[..i];
  }

  /** What the readers got, from the replies of a run. */
  function HandedOver(outs: seq<Out>): seq<seq<byte>> {
    if outs == [] then [] else HandedOver(outs[..|outs| - 1]) + Delivery.Handed(outs[|outs| - 1])
  }

  lemma {:induction false} HandedIsReceived(ls: seq<Label>)
    requires AllTyped(ls)
    ensures HandedOver(Exec(Start(), ls).1) == Delivery.Received(ls)
  {
    hide Step;
    if ls != [] {
      HandedIsReceived(ls[..|ls| - 1]);
    }
  }

  /** The driver from module start through a good run: if the samples encode
      the files, the reads have returned the first of them, each exactly, and
      once as many sessions have been read as files were sent, all of them. */
  method Serve(ls: seq<Label>, ghost files: seq<seq<byte>>, ghost noise: seq<bv32>) returns (got: seq<seq<byte>>)
    requires AllTyped(ls) && Delivery.GoodRun(ls)
    requires (forall f <- files :: NulFree(f)) && |noise| == 2 * |Frame(files)|
    requires Delivery.Samples(ls) == Encode(Frame(files), noise)
    ensures got <= files
    ensures got == Delivery.Received(ls) && (|got| == |files| ==> got == files)
  {
    hide Step, Encode, Frame;
    var driver := new Driver();
    var outs := driver.Execute(ls);
    HandedIsReceived(ls);
    Delivery.PinsToReader(ls, files, noise);
    got := HandedOver(outs);
  }
}
