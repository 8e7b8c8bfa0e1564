/** The user programs' copy loops over the RAM disk: `my_fread`, `my_fwrite`
    and the mapping test built from them.  The environment may shorten every
    transfer, interrupt calls finitely often, or fail a call for good. */
module CopyLoops {
  import opened Machine
  import opened RamDisk
  import FF = FlatFile

  datatype Reply =
    | Moved(n: nat)
    | Interrupted
    | Failed

  /** `g` is `f` after the first `done` bytes of `buf` have been written at
      `pos`, whatever transfers and refused allocations that took. */
  ghost predicate PartWritten(f: FF.File, pos: nat, buf: seq<byte>, done: nat, g: FF.File) {
    && done <= |buf|
    && |f.bytes| <= |g.bytes| <= Max(|f.bytes|, PagesFor(pos + |buf|) * PAGE_SIZE)
    && (done > 0 ==> pos + done <= |g.bytes| && g.bytes[pos..pos + done] == buf[..done])
    && (forall i | 0 <= i < |f.bytes| && !(pos <= i < pos + done) :: g.bytes[i] == f.bytes[i])
    && g.size == if done == 0 then f.size else Max(f.size, pos + done)
  }

  /** What a successful write of `buf` at `pos` promises. */
  ghost predicate Stored(f: FF.File, pos: nat, buf: seq<byte>, g: FF.File, now: nat) {
    && now == pos + |buf|
    && if buf == [] then g == f else FF.Written(f, pos, buf, g)
  }

  lemma PartStart(f: FF.File, pos: nat, buf: seq<byte>)
    ensures PartWritten(f, pos, buf, 0, f)
  {
  }

  /** A transfer of the next n bytes extends what is written. */
  lemma PartMore(f: FF.File, pos: nat, buf: seq<byte>, done: nat, g: FF.File, n: nat, h: FF.File)
    requires PartWritten(f, pos, buf, done, g) && 0 < n && done + n <= |buf|
    requires FF.Written(g, pos + done, buf[done..done + n], h)
    ensures PartWritten(f, pos, buf, done + n, h)
  {
    assert PagesFor(pos + done + n) <= PagesFor(pos + |buf|);
    var now := h.bytes[pos..pos + done + n];
    forall i | 0 <= i < done + n
      ensures now[i] == buf[i]
    {
      if i < done {
        assert h.bytes[pos + i] == g.bytes[pos + i] == g.bytes[pos..pos + done][i];
      } else {
        assert h.bytes[pos + i] == h.bytes[pos + done..pos + done + n][i - done];
      }
    }
    assert now == buf[..done + n];
  }

  /** A refused allocation costs no written byte. */
  lemma PartRefused(f: FF.File, pos: nat, buf: seq<byte>, done: nat, g: FF.File, n: nat, h: FF.File)
    requires PartWritten(f, pos, buf, done, g) && done + n <= |buf|
    requires FF.Refused(g, pos + done, buf[done..done + n], h)
    ensures PartWritten(f, pos, buf, done, h)
  {
    assert forall i | 0 <= i < |g.bytes| :: h.bytes[i] == g.bytes[i];
    assert done > 0 ==> h.bytes[pos..pos + done] == g.bytes[pos..pos + done];
  }

  /** One answered system call keeps track of what is written. */
  lemma PartStep(f: FF.File, pos: nat, buf: seq<byte>, done: nat, g: FF.File, n: nat, h: FF.File)
    requires PartWritten(f, pos, buf, done, g) && done + n <= |buf|
    requires n > 0 ==> FF.Written(g, pos + done, buf[done..][..n], h)
    requires n == 0 ==> exists k: nat :: k <= |buf[done..]| && FF.Refused(g, pos + done, buf[done..][..k], h)
    ensures PartWritten(f, pos, buf, done + n, h)
  {
    if n > 0 {
      assert buf[done..][..n] == buf[done..done + n];
      PartMore(f, pos, buf, done, g, n, h);
    } else {
      var k: nat :| k <= |buf[done..]| && FF.Refused(g, pos + done, buf[done..][..k], h);
      assert buf[done..][..k] == buf[done..done + k];
      PartRefused(f, pos, buf, done, g, k, h);
    }
  }

  /** Everything written in parts is one write of everything. */
  lemma PartAll(f: FF.File, pos: nat, buf: seq<byte>, g: FF.File, fPages: nat, gPages: nat)
    requires PartWritten(f, pos, buf, |buf|, g) && buf != []
    requires |f.bytes| == fPages * PAGE_SIZE && |g.bytes| == gPages * PAGE_SIZE
    ensures FF.Written(f, pos, buf, g)
  {
    assert buf[..|buf|] == buf;
    assert gPages >= PagesFor(pos + |buf|);
  }

  /** A descriptor open on the disk, seen through an unreliable system. */
  class Fd {
    const disk: Disk
    const file: OpenFile
    var patience: nat   // how many more calls will be interrupted

    ghost predicate Valid()
      reads this, disk, disk.kernel, file
    {
      disk.Valid() && file.pos < S64_LIMIT / 2
    }

    constructor (disk: Disk, file: OpenFile, patience: nat)
      requires disk.Valid() && file.pos < S64_LIMIT / 2
      ensures Valid() && this.disk == disk && this.file == file && this.patience == patience
    {
      this.disk, this.file, this.patience := disk, file, patience;
    }

    method SysRead(n: nat) returns (reply: Reply, data: seq<byte>)
      requires Valid() && 0 < n < S32_LIMIT
      modifies this, file
      ensures Valid()
      ensures !reply.Moved? ==> data == [] && file.pos == old(file.pos)
      ensures reply.Interrupted? ==> patience < old(patience)
      ensures reply.Moved? ==> reply.n == |data| <= n && file.pos == old(file.pos) + |data|
      ensures reply.Moved? ==> patience == old(patience)
      ensures reply.Moved? ==> data <= FF.ReadOut(disk.File(), old(file.pos), n)
      ensures reply.Moved? && data == [] ==> FF.ReadOut(disk.File(), old(file.pos), n) == []
    {
      var interrupt: bool, fail: bool := *, *;
      if fail {
        return Failed, [];
      }
      if interrupt && patience > 0 {
        patience := patience - 1;
        return Interrupted, [];
      }
      var k: nat :| 1 <= k <= n;
      ghost var bytes := Flat(disk.pages);
      data := disk.Read(file, k);
      assert Flat(disk.pages) == bytes;
      reply := Moved(|data|);
    }

    method SysWrite(buf: seq<byte>) returns (reply: Reply)
      requires Valid() && 0 < |buf| < S32_LIMIT
      modifies this, file, disk, disk.kernel, disk.pages
      ensures disk.Valid() && disk.nprocs == old(disk.nprocs)
      ensures patience <= old(patience) && disk.kernel.refusals <= old(disk.kernel.refusals)
      ensures !reply.Moved? ==> file.pos == old(file.pos) && disk.File() == old(disk.File())
      ensures reply.Interrupted? ==> patience < old(patience)
      ensures reply.Moved? ==> reply.n <= |buf| && file.pos == old(file.pos) + reply.n
      ensures reply.Moved? && reply.n > 0 ==> FF.Written(old(disk.File()), old(file.pos), buf[..reply.n], disk.File())
      ensures reply.Moved? && reply.n == 0 ==>
                exists k: nat :: k <= |buf| && FF.Refused(old(disk.File()), old(file.pos), buf[..k], disk.File())
      ensures reply == Moved(0) && old(file.pos) + |buf| <= disk.kernel.frames * PAGE_SIZE ==>
                disk.kernel.refusals < old(disk.kernel.refusals)
      ensures old(disk.pages) <= disk.pages
      ensures forall i | |old(disk.pages)| <= i < |disk.pages| :: fresh(disk.pages[i])
    {
      var interrupt: bool, fail: bool := *, *;
      if fail {
        return Failed;
      }
      if interrupt && patience > 0 {
        patience := patience - 1;
        return Interrupted;
      }
      var k: nat :| 1 <= k <= |buf|;
      var n := disk.Write(file, buf[..k]);
      reply := Moved(n);
      assert n > 0 ==> n == k;
    }

    /** `my_fread`: reads until the request is met or the data ends.  A request
        of 2^31 bytes or more becomes a negative `ssize_t` and reads nothing. */
    method MyFread(nbyte: nat) returns (failed: bool, got: seq<byte>)
      requires Valid() && nbyte < U32_MOD
      modifies this, file
      ensures Valid()
      ensures got <= FF.ReadOut(disk.File(), old(file.pos), nbyte)
      ensures file.pos == old(file.pos) + |got|
      ensures !failed ==> got == if nbyte < S32_LIMIT then FF.ReadOut(disk.File(), old(file.pos), nbyte) else []
    {
      var toRead := S32(nbyte);
      if toRead <= 0 {
        return false, [];
      }
      failed, got := ReadLoop(nbyte);
    }

    /** The loop of `my_fread`. */
    method ReadLoop(nbyte: nat) returns (failed: bool, got: seq<byte>)
      requires Valid() && 0 < nbyte < S32_LIMIT
      modifies this, file
      ensures Valid()
      ensures got <= FF.ReadOut(disk.File(), old(file.pos), nbyte)
      ensures file.pos == old(file.pos) + |got|
      ensures !failed ==> got == FF.ReadOut(disk.File(), old(file.pos), nbyte)
    {
      hide FF.ReadOut, Flat;
      ghost var f, pos := disk.File(), file.pos;
      got := [];
      while nbyte - |got| > 0
        invariant Valid() && disk.File() == f
        invariant got <= FF.ReadOut(f, pos, nbyte) && file.pos == pos + |got|
        decreases nbyte - |got|, patience
      {
        var reply, data := SysRead(nbyte - |got|);
        if reply == Interrupted {
          continue;
        } else if reply == Failed {
          return true, got;
        } else if data == [] {
          ReadEnds(f, pos, nbyte, got, nbyte - |got|);
          return false, got;
        }
        ReadMore(f, pos, nbyte, got, nbyte - |got|, data);
        got := got + data;
      }
      ReadFull(f, pos, nbyte, got);
      failed := false;
    }

    /** One system call of `my_fwrite`. */
    method WriteRound(buf: seq<byte>, done: nat, ghost f: FF.File, ghost pos: nat) returns (reply: Reply)
      requires Valid() && done < |buf| < S32_LIMIT && file.pos == pos + done
      requires PartWritten(f, pos, buf, done, disk.File())
      modifies this, file, disk, disk.kernel, disk.pages
      ensures disk.Valid() && old(disk.pages) <= disk.pages
      ensures forall i | |old(disk.pages)| <= i < |disk.pages| :: fresh(disk.pages[i])
      ensures file.pos == old(file.pos) + if reply.Moved? then reply.n else 0
      ensures reply.Moved? ==> done + reply.n <= |buf|
      ensures PartWritten(f, pos, buf, if reply.Moved? then done + reply.n else done, disk.File())
      ensures patience + disk.kernel.refusals <= old(patience + disk.kernel.refusals)
      ensures reply.Interrupted? || (reply == Moved(0) && pos + |buf| <= disk.kernel.frames * PAGE_SIZE) ==>
                patience + disk.kernel.refusals < old(patience + disk.kernel.refusals)
    {
      hide Flat, PartWritten;
      ghost var g := disk.File();
      PartBounds(f, pos, buf, done, g);
      reply := SysWrite(buf[done..]);
      if reply.Moved? {
        PartStep(f, pos, buf, done, g, reply.n, disk.File());
      }
    }

    /** `my_fwrite`: writes until everything is written, then returns the size
        of the buffer as a `ssize_t`.  A buffer of 2^31 bytes or more becomes a
        negative `ssize_t`: the call writes nothing and returns that negative
        number.  So when the program goes on, the data is in the file exactly
        when the buffer is shorter, which is when the result is not negative.
        A shorter buffer must fit on the machine, or the loop does not end. */
    method MyFwrite(buf: seq<byte>) returns (failed: bool, ret: int)
      requires Valid() && |buf| < U32_MOD
      requires |buf| < S32_LIMIT ==> file.pos + |buf| <= disk.kernel.frames * PAGE_SIZE
      modifies this, file, disk, disk.kernel, disk.pages
      ensures Valid() && old(disk.pages) <= disk.pages
      ensures forall i | |old(disk.pages)| <= i < |disk.pages| :: fresh(disk.pages[i])
      ensures !failed ==> ret == S32(|buf|) && (ret >= 0 <==> |buf| < S32_LIMIT)
      ensures !failed ==>
                (Stored(old(disk.File()), old(file.pos), buf, disk.File(), file.pos) <==> |buf| < S32_LIMIT)
      ensures |buf| == 0 || |buf| >= S32_LIMIT ==>
                !failed && disk.File() == old(disk.File()) && file.pos == old(file.pos)
      ensures failed ==> ret >= 0 && PartWritten(old(disk.File()), old(file.pos), buf, ret, disk.File())
    {
      var toWrite := S32(|buf|);
      failed := false;
      if toWrite > 0 {
        var done;
        failed, done := WriteLoop(buf);
        if failed {
          return failed, done;
        }
        PartAll(old(disk.File()), old(file.pos), buf, disk.File(), |old(disk.pages)|, |disk.pages|);
      }
      ret := S32(|buf|);
    }

    /** The loop of `my_fwrite`. */
    method WriteLoop(buf: seq<byte>) returns (failed: bool, done: nat)
      requires Valid() && 0 < |buf| < S32_LIMIT
      requires file.pos + |buf| <= disk.kernel.frames * PAGE_SIZE
      modifies this, file, disk, disk.kernel, disk.pages
      ensures Valid() && old(disk.pages) <= disk.pages
      ensures forall i | |old(disk.pages)| <= i < |disk.pages| :: fresh(disk.pages[i])
      ensures file.pos == old(file.pos) + done && (!failed ==> done == |buf|)
      ensures PartWritten(old(disk.File()), old(file.pos), buf, done, disk.File())
    {
      hide Flat, PartWritten;
      var written := 0;
      ghost var f, pos := disk.File(), file.pos;
      PartStart(f, pos, buf);
      while |buf| - written > 0
        invariant disk.Valid() && file.pos == pos + written && written <= |buf|
        invariant old(disk.pages) <= disk.pages
        invariant forall i | |old(disk.pages)| <= i < |disk.pages| :: fresh(disk.pages[i])
        invariant PartWritten(f, pos, buf, written, disk.File())
        decreases |buf| - written, patience + disk.kernel.refusals
      {
        var reply := WriteRound(buf, written, f, pos);
        if reply == Interrupted {
          continue;
        } else if reply == Failed {
          return true, written;
        }
        written := written + reply.n;
      }
      return false, written;
    }

    /** The first `calls` rounds of that loop, for a buffer of any size.  It can
        be done only if the buffer fits on the machine; if it fits, it is done,
        or has failed, after a number of calls known in advance. */
    method WriteCalls(buf: seq<byte>, calls: nat) returns (failed: bool, done: nat)
      requires Valid() && 0 < |buf| < S32_LIMIT
      modifies this, file, disk, disk.kernel, disk.pages
      ensures disk.Valid() && file.pos == old(file.pos) + done
      ensures PartWritten(old(disk.File()), old(file.pos), buf, done, disk.File())
      ensures done > 0 ==> old(file.pos) + done <= disk.kernel.frames * PAGE_SIZE
      ensures calls >= |buf| + old(patience + disk.kernel.refusals) && !failed ==>
                (done == |buf| <==> old(file.pos) + |buf| <= disk.kernel.frames * PAGE_SIZE)
    {
      hide Flat, PartWritten;
      failed, done := false, 0;
      ghost var f, pos := disk.File(), file.pos;
      PartStart(f, pos, buf);
      var left := calls;
      while |buf| - done > 0 && left > 0
        invariant disk.Valid() && file.pos == pos + done && done <= |buf|
        invariant done > 0 ==> file.pos <= |disk.pages| * PAGE_SIZE
        invariant old(disk.pages) <= disk.pages
        invariant forall i | |old(disk.pages)| <= i < |disk.pages| :: fresh(disk.pages[i])
        invariant PartWritten(f, pos, buf, done, disk.File())
        invariant pos + |buf| <= disk.kernel.frames * PAGE_SIZE ==>
                    calls - left <= done + old(patience + disk.kernel.refusals) - (patience + disk.kernel.refusals)
      {
        left := left - 1;
        var reply := WriteRound(buf, done, f, pos);
        if reply == Failed {
          failed := true;
          break;
        }
        if reply.Moved? {
          done := done + reply.n;
          PartOnPages(f, pos, buf, done, disk.File());
        }
      }
    }
  }

  lemma PartBounds(f: FF.File, pos: nat, buf: seq<byte>, done: nat, g: FF.File)
    requires PartWritten(f, pos, buf, done, g)
    ensures done <= |buf|
  {
  }

  lemma PartOnPages(f: FF.File, pos: nat, buf: seq<byte>, done: nat, g: FF.File)
    requires PartWritten(f, pos, buf, done, g)
    ensures done > 0 ==> pos + done <= |g.bytes|
  {
  }

  lemma ReadMore(f: FF.File, pos: nat, n: nat, got: seq<byte>, left: nat, data: seq<byte>)
    requires f.size <= |f.bytes| && n < S32_LIMIT && |got| + left == n
    requires got <= FF.ReadOut(f, pos, n) && data <= FF.ReadOut(f, pos + |got|, left)
    ensures got + data <= FF.ReadOut(f, pos, n)
  {
  }

  lemma ReadFull(f: FF.File, pos: nat, n: nat, got: seq<byte>)
    requires f.size <= |f.bytes| && got <= FF.ReadOut(f, pos, n) && |got| >= n
    ensures got == FF.ReadOut(f, pos, n)
  {
  }

  lemma ReadEnds(f: FF.File, pos: nat, n: nat, got: seq<byte>, left: nat)
    requires f.size <= |f.bytes| && n < S32_LIMIT && |got| + left == n && left > 0
    requires got <= FF.ReadOut(f, pos, n) && FF.ReadOut(f, pos + |got|, left) == []
    ensures got == FF.ReadOut(f, pos, n)
  {
  }

  /** Write, rewind, read: the bytes come back, however the transfers were cut
      or interrupted and whatever the file held before. */
  method WriteRewindRead(fd: Fd, buf: seq<byte>) returns (failed: bool, got: seq<byte>)
    requires fd.Valid() && 0 < |buf| < S32_LIMIT
    requires fd.file.pos + |buf| <= fd.disk.kernel.frames * PAGE_SIZE
    modifies fd, fd.file, fd.disk, fd.disk.kernel, fd.disk.pages
    ensures fd.disk.Valid()
    ensures !failed ==> got == buf && fd.file.pos == old(fd.file.pos) + |buf|
  {
    var start, ret := fd.file.pos, 0;
    ghost var f := fd.disk.File();
    failed, ret := fd.MyFwrite(buf);
    if failed {
      return failed, [];
    }
    ghost var g := fd.disk.File();
    FF.ReadAfterWrite(f, start, buf, g, |buf|);
    Rewind(fd, start);
    failed, got := fd.MyFread(|buf|);
  }

  /** `lseek(fd, start, SEEK_SET)` to a place the pages reach. */
  method Rewind(fd: Fd, start: nat)
    requires fd.Valid() && start <= |fd.disk.pages| * PAGE_SIZE
    modifies fd.file
    ensures fd.Valid() && fd.file.pos == start && fd.disk.File() == old(fd.disk.File())
  {
    ghost var bytes := Flat(fd.disk.pages);
    FitsS64(start);
    var p := fd.disk.Seek(fd.file, start, FF.SEEK_SET);
    assert Flat(fd.disk.pages) == bytes;
  }

  // ----- the mapping test ------------------------------------------------

  /** `memcmp` of a buffer with a mapped range. */
  method SameAsMapped(buf: seq<byte>, m: Mapping, ghost pages: seq<array<byte>>, start: nat) returns (same: bool)
    requires PageSized(pages) && start % PAGE_SIZE == 0 && |buf| % PAGE_SIZE == 0
    requires Backed(m, pages, start, start + |buf|, 0) && |buf| <= |pages| * PAGE_SIZE
    ensures same <==> buf == Flat(pages)[..|buf|]
  {
    ghost var bytes := Flat(pages);
    for i := 0 to |buf|
      invariant forall q | 0 <= q < i :: buf[q] == bytes[q]
    {
      MappedByte(m, pages, start, start + |buf|, start + i);
      if buf[i] != m[(start + i) / PAGE_SIZE][(start + i) % PAGE_SIZE] {
        assert buf[i] != bytes[..|buf|][i];
        return false;
      }
    }
    assert buf == bytes[..|buf|];
    return true;
  }

  datatype Verdict = Agreed | ReadProblem | Miscompare | CallFailed

  /** `read_and_compare`. */
  method ReadAndCompare(fd: Fd, m: Mapping, start: nat, len: nat) returns (v: Verdict)
    requires fd.Valid() && start % PAGE_SIZE == 0 && len % PAGE_SIZE == 0 && len < S32_LIMIT
    requires fd.file.pos == 0 && len <= fd.disk.dataSize
    requires Backed(m, fd.disk.pages, start, start + len, 0)
    modifies fd, fd.file
    ensures fd.Valid() && (v == Agreed || v == CallFailed)
  {
    ghost var bytes := Flat(fd.disk.pages);
    var failed, got := fd.MyFread(len);
    assert Flat(fd.disk.pages) == bytes;
    if failed {
      return CallFailed;
    }
    if |got| != len {
      return ReadProblem;
    }
    var same := SameAsMapped(got, m, fd.disk.pages, start);
    v := if same then Agreed else Miscompare;
  }

  /** The mapping test: write a page-multiple of data from the start of the
      file, map it, compare what is read with what is mapped, change one byte
      through the mapping, and compare again.  It never reports a difference. */
  method MmapTest(fd: Fd, buf: seq<byte>, start: nat, j: nat, b: byte) returns (v: Verdict)
    requires fd.Valid() && fd.file.pos == 0
    requires 0 < |buf| <= fd.disk.kernel.frames * PAGE_SIZE && |buf| % PAGE_SIZE == 0
    requires start % PAGE_SIZE == 0 && start + |buf| <= TASK_SIZE && j < |buf|
    modifies fd, fd.file, fd.disk, fd.disk.kernel, fd.disk.pages
    ensures fd.disk.Valid() && (v == Agreed || v == CallFailed)
    ensures v == Agreed ==> FF.ReadOut(fd.disk.File(), 0, |buf|) == buf[j := b]
  {
    var failed, ret := fd.MyFwrite(buf);
    if failed || ret != |buf| {
      return CallFailed;
    }
    ghost var f := fd.disk.File();
    assert f.bytes[0..|buf|] == buf;
    var m := MapFromStart(fd.disk, start, |buf|);
    assert fd.disk.File() == f;
    v := ComparedTwice(fd, m, start, |buf|, j, b);
    ChangedByte(f, buf, j, b);
  }

  /** `mmap` of the first `len` bytes. */
  method MapFromStart(disk: Disk, start: nat, len: nat) returns (m: Mapping)
    requires disk.Valid() && start % PAGE_SIZE == 0 && len % PAGE_SIZE == 0
    requires 0 < len <= disk.dataSize && start + len <= TASK_SIZE
    ensures Backed(m, disk.pages, start, start + len, 0)
  {
    FitsU32(0);
    var r := disk.Mmap(start, start + len, 0);
    m := r.pages;
  }

  lemma ChangedByte(f: FF.File, buf: seq<byte>, j: nat, b: byte)
    requires |buf| <= f.size <= |f.bytes| && f.bytes[0..|buf|] == buf && j < |buf|
    ensures FF.ReadOut(FF.File(Patch(f.bytes, j, [b]), f.size), 0, |buf|) == buf[j := b]
  {
    assert forall i | 0 <= i < |buf| :: f.bytes[i] == buf[i];
  }

  /** The two comparisons of the mapping test, with the store between them. */
  method ComparedTwice(fd: Fd, m: Mapping, start: nat, len: nat, j: nat, b: byte) returns (v: Verdict)
    requires fd.Valid() && start % PAGE_SIZE == 0 && len % PAGE_SIZE == 0
    requires j < len <= fd.disk.dataSize && Backed(m, fd.disk.pages, start, start + len, 0)
    modifies fd, fd.file, fd.disk.pages
    ensures fd.disk.Valid() && (v == Agreed || v == CallFailed)
    ensures fd.disk.pages == old(fd.disk.pages)
    ensures v == Agreed ==> Flat(fd.disk.pages) == Patch(old(Flat(fd.disk.pages)), j, [b])
  {
    hide Flat, Patch, Backed;
    ghost var bytes := Flat(fd.disk.pages);
    Rewind(fd, 0);
    v := ReadAndCompare(fd, m, start, len);
    assert Flat(fd.disk.pages) == bytes;
    if v != Agreed {
      return;
    }
    StoreThrough(fd.disk, m, start, len, j, b);
    ghost var now := Flat(fd.disk.pages);
    Rewind(fd, 0);
    v := ReadAndCompare(fd, m, start, len);
    assert Flat(fd.disk.pages) == now;
  }

  /** A store at byte j of the mapped range. */
  method StoreThrough(disk: Disk, m: Mapping, start: nat, len: nat, j: nat, b: byte)
    requires disk.Valid() && start % PAGE_SIZE == 0 && len % PAGE_SIZE == 0
    requires j < len && Backed(m, disk.pages, start, start + len, 0)
    modifies disk.pages
    ensures j < |disk.pages| * PAGE_SIZE
    ensures Flat(disk.pages) == Patch(old(Flat(disk.pages)), j, [b])
  {
    var v := (start + j) / PAGE_SIZE;
    assert start / PAGE_SIZE <= v < (start + len) / PAGE_SIZE && v in m;
    assert m[v] == disk.pages[v - start / PAGE_SIZE];
    StoreMapped(m, disk.pages, start, start + len, start + j, b);
  }
}
