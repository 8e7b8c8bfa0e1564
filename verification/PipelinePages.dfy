/** The pages behind the ring: their arithmetic over whole runs, and when a
    drained byte and a read do what they should. */
module PipelinePages {
  import opened Machine
  import opened Wire
  import opened Pipeline
  import opened PipelineRing
  import opened PipelineSessions

  // ----- page arithmetic ------------------------------------------------------

  predicate PageArith(s: State) {
    s.writeOff == s.dataSize % PAGE_SIZE && s.numPages == (s.dataSize + PAGE_SIZE - 1) / PAGE_SIZE
  }

  lemma DrainOneArith(s: State, alloc: Alloc)
    requires Shape(s) && s.cCount > 0 && WholePage(alloc) && PageArith(s)
    ensures PageArith(DrainOne(s, alloc))
  {
    hide Shape, Stored;
    ShapeFacts(s);
    PageCount(s);
    StoredArith(s);
  }

  lemma StoredArith(s: State)
    requires PageArith(s) && s.numPages <= MAX_FRAMES && 0 <= s.dataSize
    ensures forall t: State | t.dataSize == s.dataSize && t.writeOff == s.writeOff
              && t.numPages == s.numPages + (if s.writeOff == 0 then 1 else 0) :: PageArith(Stored(t))
  {
    hide PageArith, Stored, U32;
    OneMore(s);
    forall t: State | t.dataSize == s.dataSize && t.writeOff == s.writeOff
        && t.numPages == s.numPages + (if s.writeOff == 0 then 1 else 0)
      ensures PageArith(Stored(t))
    {
      StoredIs(t, s.dataSize + 1, (s.writeOff + 1) % PAGE_SIZE);
    }
  }

  /** The arithmetic of one more byte. */
  lemma OneMore(s: State)
    requires PageArith(s) && s.numPages <= MAX_FRAMES && 0 <= s.dataSize
    ensures U32(s.dataSize + 1) == s.dataSize + 1
    ensures (s.writeOff + 1) % PAGE_SIZE == (s.dataSize + 1) % PAGE_SIZE
    ensures s.numPages + (if s.writeOff == 0 then 1 else 0) == (s.dataSize + 1 + PAGE_SIZE - 1) / PAGE_SIZE
  {
    assert s.dataSize <= MAX_FRAMES * PAGE_SIZE;
  }

  lemma StoredIs(t: State, size: int, off: int)
    requires U32(t.dataSize + 1) == size && (t.writeOff + 1) % PAGE_SIZE == off == size % PAGE_SIZE
    requires t.numPages == (size + PAGE_SIZE - 1) / PAGE_SIZE
    ensures PageArith(Stored(t))
  {
    hide U32;
  }

  lemma {:induction false} DrainArith(s: State, alloc: Alloc)
    requires Shape(s) && WholePage(alloc) && PageArith(s)
    ensures PageArith(Drain(s, alloc))
    decreases s.cCount
  {
    hide DrainOne, PageArith;
    if s.cCount > 0 && !s.lockHeld && !s.wild {
      DrainOneArith(s, alloc);
      DrainArith(DrainOne(s, alloc), alloc);
    }
  }

  /** Every page this walk frees is a full one. */
  predicate FreesFull(s: State, kept: seq<seq<byte>>, rest: seq<seq<byte>>, bo: nat,
                      data: seq<byte>, total: int, actual: int)
    requires WholePages(rest)
    decreases |rest|
  {
    if rest == [] then true
    else
      var size := RoundSize(bo, |data|, total, actual);
      if bo + size > PAGE_SIZE then true
      else
        var (t, kept', more) := Turn(s, kept, rest[0], bo, size, data, total);
        && (t.readOff == 0 ==> s.dataSize >= PAGE_SIZE)
        && (|more| != total ==> FreesFull(t, kept', rest[1..], bo + size, more, total, actual))
  }

  lemma TurnArith(s: State, kept: seq<seq<byte>>, page: seq<byte>, bo: nat, size: nat,
                  data: seq<byte>, total: int)
    requires bo + size <= |page| && PageArith(s) && 0 <= s.dataSize < U32_MOD
    requires Turn(s, kept, page, bo, size, data, total).0.readOff == 0 ==> s.dataSize >= PAGE_SIZE
    ensures var t := Turn(s, kept, page, bo, size, data, total).0;
            PageArith(t) && 0 <= t.dataSize < U32_MOD
  {
  }

  lemma {:induction false} WalkArith(s: State, kept: seq<seq<byte>>, rest: seq<seq<byte>>, bo: nat,
                                     data: seq<byte>, total: int, actual: int)
    requires WholePages(rest)
    requires PageArith(s) && 0 <= s.dataSize < U32_MOD
    requires FreesFull(s, kept, rest, bo, data, total, actual)
    ensures PageArith(Walk(s, kept, rest, bo, data, total, actual).0)
    decreases |rest|
  {
    hide Turn, RoundSize;
    if rest != [] {
      var size := RoundSize(bo, |data|, total, actual);
      if bo + size <= PAGE_SIZE {
        TurnArith(s, kept, rest[0], bo, size, data, total);
        var (t, kept', more) := Turn(s, kept, rest[0], bo, size, data, total);
        if |more| != total {
          WalkArith(t, kept', rest[1..], bo + size, more, total, actual);
        }
      }
    }
  }

  /** Taking the head session frees only full pages. */
  predicate TakeFreesFull(s: State, count: int)
    requires Shape(s)
  {
    s.sCount == INT_MIN
    || FreesFull(s.(sHead := (s.sHead + 1) % MAX_SESSIONS, sCount := s.sCount - 1),
                 [], s.pages, s.readOff, [], s.sizes[s.sHead], Min(count, s.sizes[s.sHead]))
  }

  lemma TakeArith(s: State, count: int)
    requires Shape(s) && PageArith(s) && TakeFreesFull(s, count)
    ensures PageArith(TakeSession(s, count).0)
  {
    hide Walk, FreesFull;
    if s.sCount != INT_MIN {
      WalkArith(s.(sHead := (s.sHead + 1) % MAX_SESSIONS, sCount := s.sCount - 1),
                [], s.pages, s.readOff, [], s.sizes[s.sHead], Min(count, s.sizes[s.sHead]));
    }
  }

  /** The step takes a session. */
  predicate Takes(s: State, l: Label) {
    !s.wild && (l.Woken? || (l.Read? && !s.fin && !Sleeps(s)))
  }

  /** A step that takes a session frees only full pages. */
  predicate OnlyFullPages(s: State, l: Label)
    requires Shape(s)
  {
    Takes(s, l) ==> TakeFreesFull(s, l.count)
  }

  lemma ArithStep(s: State, l: Label)
    requires Shape(s) && Typed(l) && PageArith(s)
    requires OnlyFullPages(s, l)
    ensures PageArith(Step(s, l).0)
  {
    hide Walk, Interrupt, Drain, HalfByte, TakeFreesFull, TakeSession;
    match l {
      case Sample(_) => SamplePages(s, l);
      case Tasklet(alloc) => DrainArith(s, alloc);
      case Read(count) => if Takes(s, l) { TakeArith(s, count); }
      case Woken(count) => if Takes(s, l) { TakeArith(s, count); }
      case _ =>
    }
  }

  lemma SamplePages(s: State, l: Label)
    requires Shape(s) && l.Sample?
    ensures var t := Step(s, l).0;
            t.pages == s.pages && t.numPages == s.numPages && t.dataSize == s.dataSize
            && t.writeOff == s.writeOff && t.readOff == s.readOff && t.fin == s.fin
  {
    hide HalfByte, Rem;
  }

  lemma StartArith()
    ensures PageArith(Start())
  {
  }

  /** In every run whose reads free only full pages, the write offset and the
      number of pages are determined by the data size; refused pages included. */
  lemma {:induction false} PageArithmetic(ls: seq<Label>)
    requires AllTyped(ls)
    requires forall i | 0 <= i < |ls| :: OnlyFullPages(At(ls[..i]), ls[i])
    ensures PageArith(At(ls))
  {
    hide Step, OnlyFullPages, PageArith, Shape;
    if ls == [] {
      StartArith();
    } else {
      var n := |ls| - 1;
      var init := ls[..n];
      forall i | 0 <= i < n
        ensures OnlyFullPages(At(init[..i]), init[i])
      {
        assert init[..i] == ls[..i] && init[i] == ls[i];
      }
      PageArithmetic(init);
      AtLast(ls);
      ArithStep(At(init), ls[n]);
    }
  }

  // ----- the unread stream -------------------------------------------------------

  /** The pages hold the unread bytes: from the read offset to the data size. */
  predicate StreamOk(s: State) {
    && Shape(s) && s.readOff <= s.dataSize <= |s.pages| * PAGE_SIZE
  }

  lemma {:induction false} PagesLength(pages: seq<seq<byte>>)
    requires WholePages(pages)
    ensures |Concat(pages)| == |pages| * PAGE_SIZE
  {
    if pages != [] {
      PagesLength(pages[..|pages| - 1]);
    }
  }

  function Stream(s: State): (r: seq<byte>)
    requires StreamOk(s)
    ensures |r| == s.dataSize - s.readOff
  {
    PagesLength(s.pages);
    Concat(s.pages)[s.readOff..s.dataSize]
  }

  // ----- reading a session --------------------------------------------------------

  /** The unsigned subtractions of a short read come out as what is left. */
  lemma RestOfSession(bo: int, left: int)
    requires 0 <= bo <= PAGE_SIZE && 0 <= left < PAGE_SIZE
    ensures U32(U32(PAGE_SIZE - bo) - U32(PAGE_SIZE - U32(left + bo))) == left
  {
    hide U32;
    FitsU32(left + bo);
    FitsU32(PAGE_SIZE - bo);
    FitsU32(left);
    if left + bo <= PAGE_SIZE {
      FitsU32(PAGE_SIZE - (left + bo));
    } else {
      BelowU32(PAGE_SIZE - (left + bo));
      BelowU32(left - U32_MOD);
    }
  }

  /** A negative value wraps once. */
  lemma BelowU32(x: int)
    requires -U32_MOD <= x < 0
    ensures U32(x) == x + U32_MOD
  {
  }

  lemma FirstRound(bo: int, total: int, actual: int)
    requires 0 <= bo < PAGE_SIZE && 0 <= actual <= total < U32_MOD && bo + total <= PAGE_SIZE
    requires actual == total || total < PAGE_SIZE
    ensures RoundSize(bo, 0, total, actual) == total
  {
    if total < PAGE_SIZE {
      RestOfSession(bo, total);
    }
  }

  /** A session that lies within the first page is delivered in full and
      removed from the stream, and `fin` is set. */
  lemma ReadWithinPage(s: State, count: int)
    requires StreamOk(s) && s.sCount != INT_MIN && 0 <= count < U32_MOD
    requires 0 < s.sizes[s.sHead] <= |Stream(s)| && s.readOff + s.sizes[s.sHead] <= PAGE_SIZE
    requires s.sizes[s.sHead] <= count || s.sizes[s.sHead] < PAGE_SIZE
    ensures var total := s.sizes[s.sHead];
            var (t, out) := TakeSession(s, count);
            && out == Data(Stream(s)[..total])
            && t.fin && t.wild == s.wild && StreamOk(t) && Stream(t) == Stream(s)[total..]
            && t.sHead == (s.sHead + 1) % MAX_SESSIONS && t.sCount == s.sCount - 1
            && t.readOff == (s.readOff + total) % PAGE_SIZE
            && t.dataSize == s.dataSize - (if t.readOff == 0 then PAGE_SIZE else 0)
            && t.pages == if t.readOff == 0 then s.pages[1..] else s.pages
  {
    hide TakeSession, Concat, Shape;
    ShapeFacts(s);
    PagesLength(s.pages);
    ReadOnePage(s, count);
    CutStream(s, TakeSession(s, count).0, s.sizes[s.sHead]);
  }

  lemma CutStream(s: State, t: State, n: nat)
    requires StreamOk(s) && Shape(t) && 0 < n <= |Stream(s)| && s.readOff + n <= PAGE_SIZE && s.pages != []
    requires t.readOff == (s.readOff + n) % PAGE_SIZE
    requires t.pages == if t.readOff == 0 then s.pages[1..] else s.pages
    requires t.dataSize == if t.readOff == 0 then U32(s.dataSize - PAGE_SIZE) else s.dataSize
    ensures Stream(s)[..n] == s.pages[0][s.readOff..s.readOff + n]
    ensures StreamOk(t) && Stream(t) == Stream(s)[n..]
    ensures t.dataSize == s.dataSize - if t.readOff == 0 then PAGE_SIZE else 0
  {
    hide Concat, Shape;
    ShapeFacts(s);
    PagesLength(s.pages);
    StreamCut(s.pages, s.readOff, s.dataSize, n);
    PagesLength(s.pages[1..]);
  }

  lemma ReadOnePage(s: State, count: int)
    requires Shape(s) && s.sCount != INT_MIN && 0 <= count < U32_MOD && s.pages != []
    requires 0 < s.sizes[s.sHead] && s.readOff + s.sizes[s.sHead] <= PAGE_SIZE
    requires s.sizes[s.sHead] <= count || s.sizes[s.sHead] < PAGE_SIZE
    ensures var total := s.sizes[s.sHead];
            var (t, out) := TakeSession(s, count);
            && |s.pages[0]| == PAGE_SIZE && out == Data(s.pages[0][s.readOff..s.readOff + total])
            && t == s.(sHead := (s.sHead + 1) % MAX_SESSIONS, sCount := s.sCount - 1, fin := true,
                       readOff := (s.readOff + total) % PAGE_SIZE, pages := t.pages,
                       numPages := t.numPages, dataSize := t.dataSize)
            && t.pages == (if t.readOff == 0 then s.pages[1..] else s.pages)
            && t.dataSize == if t.readOff == 0 then U32(s.dataSize - PAGE_SIZE) else s.dataSize
  {
    hide Walk, Shape;
    ShapeFacts(s);
    var u := s.(sHead := (s.sHead + 1) % MAX_SESSIONS, sCount := s.sCount - 1);
    OnePage(u, s.pages, s.readOff, s.sizes[s.sHead], Min(count, s.sizes[s.sHead]));
  }

  lemma ShapeFacts(s: State)
    requires Shape(s)
    ensures 0 <= s.readOff < PAGE_SIZE && 0 <= s.dataSize < U32_MOD && s.numPages == |s.pages|
    ensures WholePages(s.pages)
    ensures 0 <= s.sHead < |s.sizes| && 0 <= s.sizes[s.sHead] < U32_MOD
    ensures 0 <= s.cHead < |s.cBuf|
  {
  }

  /** A walk that ends on the first page. */
  lemma OnePage(u: State, rest: seq<seq<byte>>, bo: nat, total: nat, actual: int)
    requires rest != [] && WholePages(rest) && u.readOff == bo < PAGE_SIZE
    requires 0 < total < U32_MOD && bo + total <= PAGE_SIZE && 0 <= actual <= total
    requires actual == total || total < PAGE_SIZE
    ensures var (t, out) := Walk(u, [], rest, bo, [], total, actual);
            && out == Data(rest[0][bo..bo + total])
            && t == u.(fin := true, readOff := (bo + total) % PAGE_SIZE, pages := t.pages,
                       numPages := t.numPages, dataSize := t.dataSize)
            && (t.readOff == 0 ==> t.pages == rest[1..] && t.numPages == u.numPages - 1
                                   && t.dataSize == U32(u.dataSize - PAGE_SIZE))
            && (t.readOff != 0 ==> t.pages == rest && t.numPages == u.numPages && t.dataSize == u.dataSize)
  {
    hide RoundSize, Turn;
    FirstRound(bo, total, actual);
    assert |rest[0]| == PAGE_SIZE;
    LastTurn(u, rest[0], bo, total);
    assert [rest[0]] + rest[1..] == rest && [] + rest[1..] == rest[1..];
  }

  /** The turn that moves the whole session. */
  lemma LastTurn(u: State, page: seq<byte>, bo: nat, total: nat)
    requires u.readOff == bo && 0 < total < U32_MOD && bo + total <= PAGE_SIZE == |page|
    ensures var (t, kept, more) := Turn(u, [], page, bo, total, [], total);
            && more == page[bo..bo + total]
            && t == u.(fin := true, readOff := (bo + total) % PAGE_SIZE,
                       numPages := t.numPages, dataSize := t.dataSize)
            && (t.readOff == 0 ==> kept == [] && t.numPages == u.numPages - 1
                                   && t.dataSize == U32(u.dataSize - PAGE_SIZE))
            && (t.readOff != 0 ==> kept == [page] && t.numPages == u.numPages && t.dataSize == u.dataSize)
  {
  }

  /** Cutting n bytes off the front of the stream within the first page. */
  lemma StreamCut(pages: seq<seq<byte>>, from: nat, to: nat, n: nat)
    requires WholePages(pages) && pages != []
    requires from + n <= to <= |Concat(pages)| && from + n <= PAGE_SIZE
    ensures |Concat(pages)| == PAGE_SIZE + |Concat(pages[1..])|
    ensures Concat(pages)[from..to][..n] == pages[0][from..from + n]
    ensures Concat(pages)[from..to][n..] == Concat(pages)[from + n..to]
    ensures from + n == PAGE_SIZE ==>
              to - PAGE_SIZE <= |Concat(pages[1..])|
              && Concat(pages)[from..to][n..] == Concat(pages[1..])[0..to - PAGE_SIZE]
  {
    hide Concat;
    ConcatFirst(pages);
    var all := Concat(pages);
    assert all[..PAGE_SIZE] == pages[0];
    assert all[from..to][..n] == all[from..from + n] == all[..PAGE_SIZE][from..from + n];
  }

  // ----- how much a round moves, and what a long session gets ---------------------

  /** One round moves the rest of the session when that is less than a page,
      whatever was asked for, and otherwise as much as the page and the request
      allow. */
  lemma RoundSizeIs(bo: int, got: int, total: int, actual: int)
    requires 0 <= bo <= 4096 && 0 <= got <= total < 0x1_0000_0000 && 0 <= actual < 0x8000_0000
    ensures total - got < 4096 ==> RoundSize(bo, got, total, actual) == total - got
    ensures total - got >= 4096 ==>
              RoundSize(bo, got, total, actual) == if actual < 4096 - bo then actual else 4096 - bo
  {
    hide U32, S32;
    FitsU32(total - got);
    if total - got < PAGE_SIZE {
      RestOfSession(bo, total - got);
    } else {
      FitsS32(PAGE_SIZE - bo);
      FitsS32(actual);
      FitsU32(Min(PAGE_SIZE - bo, actual));
    }
  }

  /** A request of 2^31 bytes or more becomes a negative `int`. */
  lemma HugeRound(bo: int, got: int, total: int, actual: int)
    requires 0 <= bo <= PAGE_SIZE && 0 <= got <= total < U32_MOD && S32_LIMIT <= actual < U32_MOD
    requires total - got >= PAGE_SIZE
    ensures RoundSize(bo, got, total, actual) > PAGE_SIZE
  {
    FitsU32(total - got);
  }

  /** With one page held, a session of a page or more gives what is left of the
      page or what was asked for; the page is freed when the offset comes round
      to zero, be it because nothing was asked for. */
  lemma OnePageOfLongSession(s: State, count: int)
    requires Shape(s) && s.sCount != INT_MIN && |s.pages| == 1
    requires PAGE_SIZE <= s.sizes[s.sHead] && 0 <= count < S32_LIMIT
    ensures var n := Min(PAGE_SIZE - s.readOff, Min(count, s.sizes[s.sHead]));
            var off := (s.readOff + n) % PAGE_SIZE;
            && 0 <= n && |s.pages[0]| == PAGE_SIZE
            && TakeSession(s, count) ==
               (s.(sHead := (s.sHead + 1) % MAX_SESSIONS, sCount := s.sCount - 1, readOff := off,
                   fin := s.fin || n == s.sizes[s.sHead], pages := if off == 0 then [] else s.pages,
                   numPages := s.numPages - (if off == 0 then 1 else 0),
                   dataSize := if off == 0 then U32(s.dataSize - PAGE_SIZE) else s.dataSize),
                Data(s.pages[0][s.readOff..s.readOff + n]))
  {
    hide Walk, U32, Shape;
    ShapeFacts(s);
    var total := s.sizes[s.sHead];
    var u := s.(sHead := (s.sHead + 1) % MAX_SESSIONS, sCount := s.sCount - 1);
    assert s.pages == [s.pages[0]] && |s.pages[0]| == PAGE_SIZE;
    OnePageWalk(u, s.pages[0], s.readOff, total, Min(count, total));
  }

  lemma OnePageWalk(u: State, page: seq<byte>, bo: nat, total: nat, actual: nat)
    requires u.readOff == bo < PAGE_SIZE == |page| && u.pages == [page]
    requires PAGE_SIZE <= total < U32_MOD && actual <= total && actual < S32_LIMIT
    ensures var n := Min(PAGE_SIZE - bo, actual);
            var off := (bo + n) % PAGE_SIZE;
            Walk(u, [], [page], bo, [], total, actual) ==
            (u.(readOff := off, fin := u.fin || n == total, pages := if off == 0 then [] else [page],
                numPages := u.numPages - (if off == 0 then 1 else 0),
                dataSize := if off == 0 then U32(u.dataSize - PAGE_SIZE) else u.dataSize),
             Data(page[bo..bo + n]))
  {
    hide RoundSize, Turn, U32;
    var n := Min(PAGE_SIZE - bo, actual);
    LongRound(bo, total, actual);
    FirstTurn(u, page, bo, n, total);
    var (t, kept, more) := Turn(u, [], page, bo, n, [], total);
    WalkEnd(t, kept, bo + n, more, total, actual);
    assert [page][1..] == [] && kept + [] == kept;
  }

  lemma LongRound(bo: int, total: int, actual: int)
    requires 0 <= bo <= PAGE_SIZE <= total < U32_MOD && 0 <= actual <= total
    ensures actual < S32_LIMIT ==> RoundSize(bo, 0, total, actual) == Min(PAGE_SIZE - bo, actual)
    ensures actual >= S32_LIMIT ==> RoundSize(bo, 0, total, actual) > PAGE_SIZE
  {
    if actual < S32_LIMIT {
      RoundSizeIs(bo, 0, total, actual);
    } else {
      HugeRound(bo, 0, total, actual);
    }
  }

  /** The first turn of a session of a page or more. */
  lemma FirstTurn(u: State, page: seq<byte>, bo: nat, n: nat, total: int)
    requires u.readOff == bo && bo + n <= PAGE_SIZE == |page| && PAGE_SIZE <= total < U32_MOD
    ensures var off := (bo + n) % PAGE_SIZE;
            Turn(u, [], page, bo, n, [], total)
            == (u.(readOff := off, fin := u.fin || n == total,
                   numPages := u.numPages - (if off == 0 then 1 else 0),
                   dataSize := if off == 0 then U32(u.dataSize - PAGE_SIZE) else u.dataSize),
                if off == 0 then [] else [page], page[bo..bo + n])
  {
    assert [] + page[bo..bo + n] == page[bo..bo + n] && [] + [page] == [page];
    FitsU32(total);
    hide U32;
  }

  /** What the rest of the walk does once the first page has been used up: no
      byte more is copied, and every page it passes is freed unread; or it
      leaves the page. */
  lemma {:induction false} WalkBeyondIs(s: State, rest: seq<seq<byte>>, data: seq<byte>, total: nat)
    requires WholePages(rest) && |data| < total < S32_LIMIT && s.readOff == 0
    ensures var (t, out) := Walk(s, [], rest, PAGE_SIZE, data, total, total);
            && (out.Wild? <==> rest != [] && total - |data| < PAGE_SIZE)
            && (!out.Wild? ==> out == Data(data) && t == s.(pages := [], numPages := s.numPages - |rest|,
                                                             dataSize := t.dataSize))
    decreases |rest|
  {
    hide Turn, RoundSize, U32;
    if rest != [] {
      RoundSizeIs(PAGE_SIZE, |data|, total, total);
      if total - |data| >= PAGE_SIZE {
        assert |rest[0]| == PAGE_SIZE;
        PassingTurn(s, rest[0], data, total);
        var (t, kept, more) := Turn(s, [], rest[0], PAGE_SIZE, 0, data, total);
        WalkBeyondIs(t, rest[1..], data, total);
      }
    }
  }

  lemma PassingTurn(s: State, page: seq<byte>, data: seq<byte>, total: int)
    requires s.readOff == 0 && |page| == PAGE_SIZE && |data| + PAGE_SIZE <= total < U32_MOD
    ensures Turn(s, [], page, PAGE_SIZE, 0, data, total)
         == (s.(numPages := s.numPages - 1, dataSize := U32(s.dataSize - PAGE_SIZE)), [], data)
  {
    assert data + page[PAGE_SIZE..PAGE_SIZE] == data;
    FitsU32(total - |data|);
    hide U32;
  }

  /** The reply to a full request for a session that crosses a page, exactly.
      It runs out of its page if the session is shorter than a page, or is of
      2^31 bytes or more, or if further pages are held and less than a page is
      left after the first.  Otherwise the reader gets the rest of the first page,
      is not told that the session is over, and every page held is freed. */
  lemma LongSessionOutcome(s: State, count: int)
    requires Shape(s) && s.sCount != INT_MIN && s.pages != []
    requires s.sizes[s.sHead] <= count && s.readOff + s.sizes[s.sHead] > PAGE_SIZE
    ensures var total := s.sizes[s.sHead];
            var (t, out) := TakeSession(s, count);
            && (out.Wild? <==> total < 4096 || total >= 0x8000_0000
                               || (|s.pages| > 1 && total - (4096 - s.readOff) < 4096))
            && (!out.Wild? ==>
                  && |s.pages[0]| == 4096 && out == Data(s.pages[0][s.readOff..])
                  && t.pages == [] && t.readOff == 0 && t.fin == s.fin && t.numPages == 0)
  {
    hide RoundSize, Turn, U32, Shape;
    ShapeFacts(s);
    var total := s.sizes[s.sHead];
    var u := s.(sHead := (s.sHead + 1) % MAX_SESSIONS, sCount := s.sCount - 1);
    var n := PAGE_SIZE - s.readOff;
    assert |s.pages[0]| == PAGE_SIZE;
    if total < PAGE_SIZE {
      RoundSizeIs(s.readOff, 0, total, total);
    } else {
      LongRound(s.readOff, total, total);
      if total < S32_LIMIT {
        FirstTurn(u, s.pages[0], s.readOff, n, total);
        var (t, kept, more) := Turn(u, [], s.pages[0], s.readOff, n, [], total);
        assert s.pages[0][s.readOff..s.readOff + n] == s.pages[0][s.readOff..];
        WalkBeyondIs(t, s.pages[1..], more, total);
      }
    }
  }

  /** A read of a session that has been drained returns it, and no more than
      was asked for, exactly when the session ends on the first page and the
      request is as long as the session. */
  lemma ReadPromiseIff(s: State, count: int)
    requires StreamOk(s) && s.sCount != INT_MIN && 0 <= count < U32_MOD
    requires 0 < s.sizes[s.sHead] <= |Stream(s)|
    ensures var total, out := s.sizes[s.sHead], TakeSession(s, count).1;
            out == Data(Stream(s)[..total]) && |out.bytes| <= count
            <==> s.readOff + total <= PAGE_SIZE && total <= count
  {
    hide Walk, Shape;
    ShapeFacts(s);
    var total := s.sizes[s.sHead];
    if s.readOff + total <= PAGE_SIZE {
      if total <= count {
        ReadWithinPage(s, count);
      }
    } else if total <= count {
      PagesLength(s.pages);
      LongSessionOutcome(s, count);
    }
  }

  /** Reading an empty session returns nothing; it leaves the stream as it was
      exactly when no page is held or the read offset is not zero.  Otherwise
      it frees the first page with everything on it. */
  lemma EmptySessionIff(s: State, count: int)
    requires StreamOk(s) && s.sCount != INT_MIN && 0 <= count < U32_MOD && s.sizes[s.sHead] == 0
    ensures var (t, out) := TakeSession(s, count);
            && out == Data([])
            && (StreamOk(t) && Stream(t) == Stream(s) <==> s.pages == [] || s.readOff != 0)
  {
    hide TakeSession, Shape, Concat;
    ShapeFacts(s);
    PageCount(s);
    EmptyRead(s, count);
    var t := TakeSession(s, count).0;
    if s.pages == [] || s.readOff != 0 {
      assert Stream(t) == Stream(s);
    } else if s.dataSize < PAGE_SIZE {
      assert t.dataSize > |t.pages| * PAGE_SIZE;
    } else if StreamOk(t) {
      assert |Stream(t)| != |Stream(s)|;
    }
  }

  lemma EmptyRead(s: State, count: int)
    requires Shape(s) && s.sCount != INT_MIN && 0 <= count < U32_MOD && s.sizes[s.sHead] == 0
    ensures var (t, out) := TakeSession(s, count);
            && out == Data([])
            && t == s.(sHead := (s.sHead + 1) % MAX_SESSIONS, sCount := s.sCount - 1, fin := t.fin,
                       pages := t.pages, numPages := t.numPages, dataSize := t.dataSize)
            && (t.fin <==> s.fin || s.pages != [])
            && t.pages == (if s.pages != [] && s.readOff == 0 then s.pages[1..] else s.pages)
            && t.dataSize == (if s.pages != [] && s.readOff == 0 then U32(s.dataSize - PAGE_SIZE) else s.dataSize)
            && t.numPages == s.numPages - (if s.pages != [] && s.readOff == 0 then 1 else 0)
  {
    hide RoundSize, Shape, Turn, U32, Walk;
    ShapeFacts(s);
    var u := s.(sHead := (s.sHead + 1) % MAX_SESSIONS, sCount := s.sCount - 1);
    if s.pages == [] {
      WalkEnd(u, [], s.readOff, [], 0, 0);
    } else {
      assert |s.pages[0]| == PAGE_SIZE;
      EmptyWalk(u, s.readOff);
    }
  }

  lemma EmptyWalk(u: State, bo: nat)
    requires u.readOff == bo < PAGE_SIZE && WholePages(u.pages) && u.pages != []
    ensures Walk(u, [], u.pages, bo, [], 0, 0) ==
            (u.(fin := true, pages := if bo == 0 then u.pages[1..] else u.pages,
                numPages := u.numPages - (if bo == 0 then 1 else 0),
                dataSize := if bo == 0 then U32(u.dataSize - PAGE_SIZE) else u.dataSize), Data([]))
  {
    hide RoundSize, Turn, U32;
    EmptyRound(bo);
    EmptyTurn(u, u.pages[0], bo);
    assert [u.pages[0]] + u.pages[1..] == u.pages && [] + u.pages[1..] == u.pages[1..];
  }

  lemma EmptyTurn(u: State, page: seq<byte>, bo: nat)
    requires u.readOff == bo < PAGE_SIZE == |page|
    ensures var (t, kept, more) := Turn(u, [], page, bo, 0, [], 0);
            && more == [] && kept == (if bo == 0 then [] else [page])
            && t == u.(fin := true, numPages := u.numPages - (if bo == 0 then 1 else 0),
                       dataSize := if bo == 0 then U32(u.dataSize - PAGE_SIZE) else u.dataSize)
  {
    assert [] + page[bo..bo] == [] && [] + [page] == [page];
  }

  lemma EmptyRound(bo: nat)
    requires bo < PAGE_SIZE
    ensures RoundSize(bo, 0, 0, 0) == 0
  {
    RestOfSession(bo, 0);
  }

  lemma PageCount(s: State)
    requires Shape(s)
    ensures |s.pages| <= MAX_FRAMES
  {
  }

  // ----- draining a byte ------------------------------------------------------------

  /** The byte goes to its place: to a new page, or to the only one, or the
      bytes that it meets happen to be the same. */
  predicate WellPlaced(s: State, b: byte)
    requires Shape(s)
  {
    || s.writeOff == 0
    || |s.pages| <= 1
    || (s.pages[|s.pages| - 1][s.writeOff] == b && (s.writeOff < s.readOff || s.pages[0][s.writeOff] == b))
  }

  /** The tasklet writes at the write offset of the first page whenever that
      offset is not zero, so a drained byte is appended to the stream exactly
      when it is well placed: with two pages held it usually is not. */
  lemma DrainedByteIff(s: State, alloc: Alloc)
    requires StreamOk(s) && PageArith(s) && s.cCount > 0 && WholePage(alloc)
    requires !s.lockHeld && !s.wild && !DrainOne(s, alloc).lockHeld
    ensures var t, b := DrainOne(s, alloc), s.cBuf[s.cHead];
            && !t.wild && StreamOk(t)
            && (Stream(t) == Stream(s) + [b] <==> WellPlaced(s, b))
  {
    hide DrainOne, Concat, Shape;
    ShapeFacts(s);
    DrainOnePages(s, alloc);
    PagesLength(s.pages);
    if s.writeOff == 0 {
      AppendedPage(s.pages, alloc.contents[0 := s.cBuf[s.cHead]], s.readOff, s.dataSize);
    } else {
      PatchedPage(s.pages, s.writeOff, s.cBuf[s.cHead], s.readOff, s.dataSize);
    }
  }

  lemma DrainOnePages(s: State, alloc: Alloc)
    requires Shape(s) && PageArith(s) && s.cCount > 0 && WholePage(alloc)
    requires !s.lockHeld && !s.wild && !DrainOne(s, alloc).lockHeld
    ensures var t, b := DrainOne(s, alloc), s.cBuf[s.cHead];
            && Shape(t) && !t.wild && t.readOff == s.readOff && t.dataSize == s.dataSize + 1
            && WholePages(s.pages) && s.readOff < PAGE_SIZE && 0 <= s.writeOff < PAGE_SIZE
            && (s.writeOff == 0 ==>
                  alloc.NewPage? && t.pages == s.pages + [alloc.contents[0 := b]]
                  && s.dataSize == |s.pages| * PAGE_SIZE)
            && (s.writeOff != 0 ==>
                  s.pages != [] && |s.pages[0]| == PAGE_SIZE && t.pages == s.pages[0 := s.pages[0][s.writeOff := b]]
                  && s.dataSize == (|s.pages| - 1) * PAGE_SIZE + s.writeOff)
  {
  }

  lemma AppendedPage(pages: seq<seq<byte>>, page: seq<byte>, from: nat, to: nat)
    requires page != [] && from <= to == |Concat(pages)|
    ensures |Concat(pages + [page])| == to + |page|
    ensures Concat(pages + [page])[from..to + 1] == Concat(pages)[from..to] + [page[0]]
  {
    assert (pages + [page])[..|pages|] == pages;
  }

  lemma PatchedPage(pages: seq<seq<byte>>, at: nat, b: byte, from: nat, to: nat)
    requires WholePages(pages) && pages != []
    requires 0 < at < PAGE_SIZE && to == (|pages| - 1) * PAGE_SIZE + at && from <= to
    ensures |Concat(pages)| == |Concat(pages[0 := pages[0][at := b]])| == |pages| * PAGE_SIZE
    ensures Concat(pages[0 := pages[0][at := b]])[from..to + 1] == Concat(pages)[from..to] + [b]
            <==> |pages| <= 1 || (pages[|pages| - 1][at] == b && (at < from || pages[0][at] == b))
  {
    hide Concat;
    PagesLength(pages);
    ConcatUpdate(pages, at, b);
    LastCell(pages, at);
    UpdateIff(Concat(pages), at, b, from, to);
  }

  lemma ConcatUpdate(pages: seq<seq<byte>>, at: nat, b: byte)
    requires pages != [] && at < |pages[0]|
    ensures at < |Concat(pages)| && Concat(pages)[at] == pages[0][at]
    ensures Concat(pages[0 := pages[0][at := b]]) == Concat(pages)[at := b]
  {
    hide Concat;
    var after := pages[0 := pages[0][at := b]];
    ConcatFirst(pages);
    ConcatFirst(after);
    assert after[1..] == pages[1..];
  }

  lemma LastCell(pages: seq<seq<byte>>, at: nat)
    requires WholePages(pages) && pages != [] && at < PAGE_SIZE
    ensures |Concat(pages)| == |pages| * PAGE_SIZE
    ensures Concat(pages)[(|pages| - 1) * PAGE_SIZE + at] == pages[|pages| - 1][at]
  {
    PagesLength(pages);
    PagesLength(pages[..|pages| - 1]);
  }

  lemma UpdateIff(c: seq<byte>, at: nat, b: byte, from: nat, to: nat)
    requires from <= to < |c| && at <= to
    ensures c[at := b][from..to + 1] == c[from..to] + [b]
            <==> at == to || (c[to] == b && (at < from || c[at] == b))
  {
    var now, was := c[at := b][from..to + 1], c[from..to] + [b];
    assert now[to - from] == c[at := b][to];
    if at < to {
      assert at >= from ==> now[at - from] == b && was[at - from] == c[at];
      assert forall i | 0 <= i < to - from && from + i != at :: now[i] == was[i];
      if c[to] == b && (at < from || c[at] == b) {
        assert forall i | 0 <= i < |now| :: now[i] == was[i];
      }
    }
  }
}
