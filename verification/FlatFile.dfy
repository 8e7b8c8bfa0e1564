/** What the RAM disk promises its callers: a flat byte file, and a small
    machine of open files over it.  The file is relational where the kernel
    leaves a choice: bytes of a new page that nobody has written yet are
    unspecified, and an allocation may be refused. */
module FlatFile {
  import opened Machine

  /** `bytes` is everything the held pages contain, `size` the data size. */
  datatype File = File(bytes: seq<byte>, size: nat)

  ghost predicate WellFormed(f: File) {
    |f.bytes| % PAGE_SIZE == 0 && f.size <= |f.bytes|
  }

  /** The reply to a read of `count` bytes at `pos`. */
  function ReadOut(f: File, pos: nat, count: nat): seq<byte>
    requires f.size <= |f.bytes|
  {
    if pos >= f.size then [] else f.bytes[pos..pos + Min(count, f.size - pos)]
  }

  /** A write that went through: the buffer sits at `pos`, every other byte of
      the old capacity is unchanged, and the capacity is just enough pages. */
  ghost predicate Written(f: File, pos: nat, buf: seq<byte>, g: File) {
    && |g.bytes| == Max(|f.bytes|, PagesFor(pos + |buf|) * PAGE_SIZE)
    && |g.bytes| >= pos + |buf|
    && g.bytes[pos..pos + |buf|] == buf
    && (forall i | 0 <= i < |f.bytes| && !(pos <= i < pos + |buf|) :: g.bytes[i] == f.bytes[i])
    && g.size == Max(f.size, pos + |buf|)
  }

  /** A write the kernel refused a page for: the pages obtained before the
      refusal stay, nothing else changes. */
  ghost predicate Refused(f: File, pos: nat, buf: seq<byte>, g: File) {
    && f.bytes <= g.bytes
    && |g.bytes| % PAGE_SIZE == 0
    && |g.bytes| < pos + |buf|
    && g.size == f.size
  }

  datatype Option<T> = None | Some(value: T)

  const SEEK_SET := 0
  const SEEK_CUR := 1
  const SEEK_END := 2

  /** Seeking is relative to the start, the position or the page capacity (not
      the data size), and is clamped to the capacity. */
  function SeekTarget(f: File, pos: nat, offset: int, whence: int): Option<nat> {
    if whence != SEEK_SET && whence != SEEK_CUR && whence != SEEK_END then None
    else
      var start := if whence == SEEK_SET then 0 else if whence == SEEK_CUR then pos else |f.bytes|;
      var target := S64(start + offset);
      Some(if target > |f.bytes| then |f.bytes| else if target < 0 then 0 else target)
  }

  // ----- the machine of open files ---------------------------------------

  const EBADF := 9
  const EBUSY := 16
  const EINVAL := 22
  const ENOTTY := 25

  const IOC_TYPE := 'k'
  const SET_NPROC_OP := 1

  datatype Op =
    | Open(flags: nat)
    | Release(fd: nat)
    | Read(fd: nat, count: nat)
    | Write(fd: nat, buf: seq<byte>)
    | Seek(fd: nat, offset: int, whence: int)
    | Ioctl(kind: char, nr: int, arg: int)

  datatype Result =
    | Err(code: nat)
    | Ok(value: int)
    | Bytes(data: seq<byte>)

  /** `pos` maps every open descriptor to its position. */
  datatype Sys = Sys(file: File, pos: map<nat, nat>, next: nat, nprocs: int, max: int)

  predicate WriteOnly(flags: nat) {
    flags % 4 == 1
  }

  ghost predicate Step(s: Sys, op: Op, r: Result, t: Sys)
    requires s.file.size <= |s.file.bytes|
  {
    match op
    case Open(flags) =>
      if s.nprocs >= s.max then r == Err(EBUSY) && t == s
      else
        && r == Ok(s.next)
        && t == s.(file := if WriteOnly(flags) then File([], 0) else s.file,
                   pos := s.pos[s.next := 0], next := s.next + 1, nprocs := s.nprocs + 1)
    case Release(fd) =>
      if fd !in s.pos then r == Err(EBADF) && t == s
      else r == Ok(0) && t == s.(pos := s.pos - {fd}, nprocs := s.nprocs - 1)
    case Read(fd, count) =>
      if fd !in s.pos then r == Err(EBADF) && t == s
      else
        var out := ReadOut(s.file, s.pos[fd], count);
        r == Bytes(out) && t == s.(pos := s.pos[fd := s.pos[fd] + |out|])
    case Write(fd, buf) =>
      if fd !in s.pos then r == Err(EBADF) && t == s
      else
        || (&& r == Ok(|buf|)
            && Written(s.file, s.pos[fd], buf, t.file)
            && t == s.(file := t.file, pos := s.pos[fd := s.pos[fd] + |buf|]))
        || (&& r == Ok(0)
            && Refused(s.file, s.pos[fd], buf, t.file)
            && t == s.(file := t.file))
    case Seek(fd, offset, whence) =>
      if fd !in s.pos then r == Err(EBADF) && t == s
      else
        var target := SeekTarget(s.file, s.pos[fd], offset, whence);
        if target.None? then r == Err(EINVAL) && t == s
        else r == Ok(target.value) && t == s.(pos := s.pos[fd := target.value])
    case Ioctl(kind, nr, arg) =>
      if kind != IOC_TYPE then r == Err(EINVAL) && t == s
      else if nr != SET_NPROC_OP then r == Err(ENOTTY) && t == s
      else if arg < 0 then r == Err(EINVAL) && t == s
      else r == Ok(0) && t == s.(max := arg)
  }

  /** `states` is a run of `ops` answering `results`. */
  ghost predicate Run(states: seq<Sys>, ops: seq<Op>, results: seq<Result>) {
    && |states| == |ops| + 1
    && |results| == |ops|
    && (forall i | 0 <= i < |states| :: WellFormed(states[i].file))
    && (forall i | 0 <= i < |ops| :: Step(states[i], ops[i], results[i], states[i + 1]))
  }

  // ----- consequences for callers ----------------------------------------

  /** Writing and then reading back the same range gives the bytes written,
      whatever was there before. */
  lemma ReadAfterWrite(f: File, pos: nat, buf: seq<byte>, g: File, count: nat)
    requires f.size <= |f.bytes| && Written(f, pos, buf, g)
    ensures g.size <= |g.bytes|
    ensures |buf| <= count ==> buf <= ReadOut(g, pos, count)
    ensures count <= |buf| ==> ReadOut(g, pos, count) == buf[..count]
  {
    assert g.bytes[pos..pos + |buf|] == buf;
    if count <= |buf| {
      SliceTake(g.bytes, pos, |buf|, count);
    } else {
      var n := Min(count, g.size - pos);
      if pos < g.size {
        SliceTake(g.bytes, pos, n, |buf|);
      }
    }
  }

  /** A write of nothing extends the data up to its position, so it leaves the
      data size as it was exactly when the position is not past it. */
  lemma EmptyWriteIff(f: File, pos: nat, g: File)
    requires f.size <= |f.bytes| && Written(f, pos, [], g)
    ensures g.size == f.size <==> pos <= f.size
    ensures f.bytes <= g.bytes
  {
    assert forall i | 0 <= i < |f.bytes| :: g.bytes[i] == f.bytes[i];
  }

  /** A read returns the bytes from its position on, as many as were asked for
      or are left, and none from a position at or past the end of the data. */
  lemma ReadOutIs(f: File, pos: nat, count: nat)
    requires f.size <= |f.bytes|
    ensures |ReadOut(f, pos, count)| ==
            if pos >= f.size then 0 else if count < f.size - pos then count else f.size - pos
    ensures forall i | 0 <= i < |ReadOut(f, pos, count)| :: ReadOut(f, pos, count)[i] == f.bytes[pos + i]
  {
  }

  /** Among the access modes only O_WRONLY, which is 1, truncates; the other
      open flags do not matter. */
  lemma OnlyWriteOnly(access: nat, others: nat)
    requires access < 4
    ensures WriteOnly(4 * others + access) <==> access == 1
  {
  }

  /** Where a seek goes, by mode: 0 from the start, 1 from the position, 2 from
      the capacity; below 0 is 0 and above the capacity is the capacity. */
  lemma SeekGoes(f: File, pos: nat, offset: int, whence: int)
    requires |f.bytes| < 0x8000_0000_0000_0000
    requires var sum := (if whence == 0 then 0 else if whence == 1 then pos else |f.bytes|) + offset;
             -0x8000_0000_0000_0000 <= sum < 0x8000_0000_0000_0000
    ensures SeekTarget(f, pos, offset, whence).None? <==> whence != 0 && whence != 1 && whence != 2
    ensures var sum := (if whence == 0 then 0 else if whence == 1 then pos else |f.bytes|) + offset;
            SeekTarget(f, pos, offset, whence).Some? ==>
              SeekTarget(f, pos, offset, whence).value ==
              if sum < 0 then 0 else if sum > |f.bytes| then |f.bytes| else sum
  {
  }

  /** Two relative seeks that are not clamped on the way are one, and none of
      them moves a position that is within the capacity by 0. */
  lemma RelativeSeeksAdd(f: File, pos: nat, d: int, e: int)
    requires pos <= |f.bytes| < 0x4000_0000_0000_0000 && 0 <= pos + d <= |f.bytes|
    requires -0x4000_0000_0000_0000 <= e < 0x4000_0000_0000_0000
    ensures SeekTarget(f, pos, 0, 1) == Some(pos) && SeekTarget(f, pos, d, 1) == Some(pos + d)
    ensures SeekTarget(f, pos + d, e, 1) == SeekTarget(f, pos, d + e, 1)
  {
    SeekGoes(f, pos, 0, 1);
    SeekGoes(f, pos, d, 1);
    hide S64;
  }

  /** Seeking to the end finds the end of the data exactly when the data fills
      its pages. */
  lemma SeekEndIff(f: File, pos: nat)
    requires f.size <= |f.bytes| < S64_LIMIT
    ensures SeekTarget(f, pos, 0, SEEK_END) == Some(f.size) <==> f.size == |f.bytes|
  {
    FitsS64(|f.bytes|);
  }

  /** Two writes in a row at a moving position leave the same bytes as one
      write of both buffers: how data is cut into writes does not matter. */
  lemma WritesCompose(f: File, pos: nat, a: seq<byte>, b: seq<byte>, g: File, h: File)
    requires f.size <= |f.bytes|
    requires Written(f, pos, a, g) && Written(g, pos + |a|, b, h)
    ensures Written(f, pos, a + b, h)
  {
    assert PagesFor(pos + |a|) <= PagesFor(pos + |a| + |b|);
    forall i | 0 <= i < |f.bytes| && !(pos <= i < pos + |a + b|)
      ensures h.bytes[i] == f.bytes[i]
    {
      assert g.bytes[i] == f.bytes[i];
    }
    forall i | 0 <= i < |a + b|
      ensures h.bytes[pos..pos + |a + b|][i] == (a + b)[i]
    {
      if i < |a| {
        assert g.bytes[pos..pos + |a|][i] == g.bytes[pos + i];
        assert h.bytes[pos + i] == g.bytes[pos + i];
      } else {
        assert h.bytes[pos + |a|..pos + |a| + |b|][i - |a|] == h.bytes[pos + i];
      }
    }
  }

  /** All chunks were written in full, one after the other, through `fd`. */
  ghost predicate WritesAll(states: seq<Sys>, fd: nat, chunks: seq<seq<byte>>) {
    && |states| == |chunks| + 1
    && (forall i | 0 <= i < |states| :: WellFormed(states[i].file) && fd in states[i].pos)
    && (forall i | 0 <= i < |chunks| ::
          Step(states[i], Write(fd, chunks[i]), Ok(|chunks[i]|), states[i + 1]))
  }

  lemma {:induction false} ChunkedWrite(states: seq<Sys>, fd: nat, chunks: seq<seq<byte>>)
    requires WritesAll(states, fd, chunks)
    requires states[0].file == File([], 0) && states[0].pos[fd] == 0
    ensures var s, data := states[|chunks|], Concat(chunks);
            s.file.size == |data| && s.file.bytes[..|data|] == data && s.pos[fd] == |data|
  {
    if chunks != [] {
      var n := |chunks| - 1;
      var s, t := states[n], states[n + 1];
      assert Step(s, Write(fd, chunks[n]), Ok(|chunks[n]|), t);
      ChunkedWrite(states[..n + 1], fd, chunks[..n]);
      var data := Concat(chunks[..n]);
      assert Concat(chunks) == data + chunks[n];
      ExtendWritten(s.file, data, chunks[n], t.file);
    }
  }

  /** A write at the end of the data appends to it. */
  lemma ExtendWritten(f: File, data: seq<byte>, chunk: seq<byte>, g: File)
    requires WellFormed(f) && f.size == |data| && f.bytes[..|data|] == data
    requires Written(f, |data|, chunk, g)
    ensures g.size == |data + chunk| <= |g.bytes| && g.bytes[..|data + chunk|] == data + chunk
  {
    assert forall i | 0 <= i < |data| :: g.bytes[i] == f.bytes[..|data|][i];
    var now := g.bytes[..|data + chunk|];
    forall i | 0 <= i < |now|
      ensures now[i] == (data + chunk)[i]
    {
      assert i >= |data| ==> now[i] == g.bytes[|data|..|data| + |chunk|][i - |data|];
    }
  }

  /** Reads of the given sizes through `fd`, one after the other. */
  ghost predicate ReadsAll(states: seq<Sys>, fd: nat, counts: seq<nat>, outs: seq<seq<byte>>) {
    && |states| == |counts| + 1 && |outs| == |counts|
    && (forall i | 0 <= i < |states| :: WellFormed(states[i].file) && fd in states[i].pos)
    && (forall i | 0 <= i < |counts| ::
          Step(states[i], Read(fd, counts[i]), Bytes(outs[i]), states[i + 1]))
  }

  lemma {:induction false} ChunkedRead(states: seq<Sys>, fd: nat, counts: seq<nat>, outs: seq<seq<byte>>)
    requires ReadsAll(states, fd, counts, outs)
    requires states[0].pos[fd] <= states[0].file.size
    ensures states[|counts|].file == states[0].file
    ensures var f, from, to := states[0].file, states[0].pos[fd], states[|counts|].pos[fd];
            from <= to <= f.size && Concat(outs) == f.bytes[from..to]
  {
    if counts != [] {
      var n := |counts| - 1;
      hide Written, Refused, SeekTarget;
      ChunkedRead(states[..n + 1], fd, counts[..n], outs[..n]);
      var f, from := states[0].file, states[0].pos[fd];
      var s, t := states[n], states[n + 1];
      assert Step(s, Read(fd, counts[n]), Bytes(outs[n]), t);
      JoinSlices(f.bytes, from, s.pos[fd], t.pos[fd]);
    }
  }

  /** Copying a file in and out again.  After a write-only open the data is
      written in any chunks; after a release and another open it is read in
      any positive amounts until a read returns nothing.  The bytes read are
      the bytes written. */
  lemma CopyInCopyOut(before: Sys, flags: nat, w: seq<Sys>, chunks: seq<seq<byte>>,
                      released: Sys, flags2: nat, r: seq<Sys>, counts: seq<nat>, outs: seq<seq<byte>>)
    requires WellFormed(before.file) && WriteOnly(flags) && !WriteOnly(flags2)
    requires w != [] && r != [] && WellFormed(released.file)
    requires Step(before, Open(flags), Ok(before.next), w[0])
    requires WritesAll(w, before.next, chunks)
    requires Step(w[|chunks|], Release(before.next), Ok(0), released)
    requires Step(released, Open(flags2), Ok(released.next), r[0])
    requires ReadsAll(r, released.next, counts, outs)
    requires counts != [] && counts[|counts| - 1] > 0 && outs[|counts| - 1] == []
    ensures Concat(outs) == Concat(chunks)
  {
    hide Concat, Written, Refused, SeekTarget;
    ChunkedWrite(w, before.next, chunks);
    ChunkedRead(r, released.next, counts, outs);
    var n := |counts| - 1;
    assert Step(r[n], Read(released.next, counts[n]), Bytes(outs[n]), r[n + 1]);
    ChunkedRead(r[..n + 1], released.next, counts[..n], outs[..n]);
    var f := r[0].file;
    assert r[n + 1].pos[released.next] == f.size;
    assert f.bytes[0..f.size] == f.bytes[..f.size];
  }

  /** An open is refused, with EBUSY, exactly at the limit; it truncates exactly
      for writing only, and starts at position 0. */
  lemma OpenStepIs(s: Sys, flags: nat, r: Result, t: Sys)
    requires s.file.size <= |s.file.bytes| && Step(s, Open(flags), r, t)
    ensures r.Err? <==> s.nprocs >= s.max
    ensures r.Err? ==> r == Err(16) && t == s
    ensures !r.Err? ==> t.nprocs == s.nprocs + 1 && t.pos == s.pos[s.next := 0]
    ensures !r.Err? ==> t.file == if flags % 4 == 1 then File([], 0) else s.file
  {
  }

  /** In every run that leaves the limit alone, the process count stays within it. */
  lemma {:induction false} LimitKept(states: seq<Sys>, ops: seq<Op>, results: seq<Result>)
    requires Run(states, ops, results) && forall i | 0 <= i < |ops| :: !ops[i].Ioctl?
    requires states[0].nprocs <= states[0].max
    ensures states[|ops|].nprocs <= states[|ops|].max == states[0].max
  {
    if ops != [] {
      hide Written, Refused, SeekTarget;
      var n := |ops| - 1;
      LimitKept(states[..n + 1], ops[..n], results[..n]);
      assert Step(states[n], ops[n], results[n], states[n + 1]);
    }
  }

  /** In every run the process count is the number of open descriptors. */
  lemma {:induction false} RunKeepsCount(states: seq<Sys>, ops: seq<Op>, results: seq<Result>)
    requires Run(states, ops, results)
    requires states[0].nprocs == |states[0].pos| && forall fd <- states[0].pos :: fd < states[0].next
    ensures var s := states[|ops|]; s.nprocs == |s.pos| && forall fd <- s.pos :: fd < s.next
  {
    if ops != [] {
      var n := |ops| - 1;
      RunKeepsCount(states[..n + 1], ops[..n], results[..n]);
      var s, t := states[n], states[n + 1];
      assert Step(s, ops[n], results[n], t);
      match ops[n]
      case Open(flags) =>
      case Release(fd) =>
        if fd in s.pos {
          assert t.pos.Keys == s.pos.Keys - {fd};
          assert |s.pos.Keys| == |s.pos| && |t.pos.Keys| == |t.pos|;
        }
      case Read(fd, _) =>
        if fd in s.pos {
          assert t.pos.Keys == s.pos.Keys;
          assert |s.pos.Keys| == |s.pos| && |t.pos.Keys| == |t.pos|;
        }
      case Write(fd, _) =>
        if fd in s.pos {
          assert t.pos.Keys == s.pos.Keys;
          assert |s.pos.Keys| == |s.pos| && |t.pos.Keys| == |t.pos|;
        }
      case Seek(fd, _, _) =>
        if fd in s.pos {
          assert t.pos.Keys == s.pos.Keys;
          assert |s.pos.Keys| == |s.pos| && |t.pos.Keys| == |t.pos|;
        }
      case Ioctl(_, _, _) =>
    }
  }
}
