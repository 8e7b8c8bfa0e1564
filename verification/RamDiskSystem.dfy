/** Many open files on one RAM disk: every script of system calls the device
    can be given is a run of the flat-file machine. */
module RamDiskSystem {
  import opened Machine
  import opened RamDisk
  import FF = FlatFile

  /** Arguments of the C types: `size_t` counts, `loff_t` offsets. */
  predicate Typed(op: FF.Op) {
    match op
    case Read(_, count) => count < U32_MOD
    case Write(_, buf) => |buf| < U32_MOD
    case Seek(_, offset, _) => -S64_LIMIT <= offset < S64_LIMIT
    case _ => true
  }

  /** A successful write-only open: it frees every page. */
  predicate Truncates(op: FF.Op, r: FF.Result) {
    op.Open? && FF.WriteOnly(op.flags) && r.Ok?
  }

  predicate NoTruncation(ops: seq<FF.Op>, results: seq<FF.Result>) {
    |ops| == |results| && forall i | 0 <= i < |ops| :: !Truncates(ops[i], results[i])
  }

  lemma NoTruncationSoFar(ops: seq<FF.Op>, results: seq<FF.Result>, op: FF.Op, r: FF.Result)
    requires |ops| == |results|
    ensures NoTruncation(ops + [op], results + [r]) <==> NoTruncation(ops, results) && !Truncates(op, r)
  {
    hide Truncates;
    var more, replies := ops + [op], results + [r];
    assert Truncates(more[|ops|], replies[|ops|]) == Truncates(op, r);
    assert forall i | 0 <= i < |ops| :: Truncates(more[i], replies[i]) == Truncates(ops[i], results[i]);
  }

  lemma RunAppend(states: seq<FF.Sys>, ops: seq<FF.Op>, results: seq<FF.Result>,
                  before: FF.Sys, op: FF.Op, r: FF.Result, after: FF.Sys)
    requires FF.Run(states, ops, results) && states[|ops|] == before
    requires FF.Step(before, op, r, after) && FF.WellFormed(after.file)
    ensures FF.Run(states + [after], ops + [op], results + [r])
  {
    var more := states + [after];
    forall i | 0 <= i < |ops + [op]|
      ensures FF.Step(more[i], (ops + [op])[i], (results + [r])[i], more[i + 1])
    {
      assert i < |ops| ==> more[i + 1] == states[i + 1];
    }
  }

  lemma WriteIsStep(s: FF.Sys, fd: nat, buf: seq<byte>, n: nat, t: FF.Sys)
    requires FF.WellFormed(s.file) && fd in s.pos
    requires t == s.(file := t.file, pos := t.pos)
    requires t.pos.Keys == s.pos.Keys && t.pos[fd] == s.pos[fd] + n
    requires forall other <- s.pos :: other != fd ==> t.pos[other] == s.pos[other]
    requires || (n == |buf| && FF.Written(s.file, s.pos[fd], buf, t.file))
             || (n == 0 && FF.Refused(s.file, s.pos[fd], buf, t.file))
    ensures FF.Step(s, FF.Write(fd, buf), FF.Ok(n), t)
  {
    assert t.pos == s.pos[fd := s.pos[fd] + n];
    assert n == 0 ==> t.pos == s.pos;
  }

  class System {
    const disk: Disk
    var files: map<nat, OpenFile>
    var next: nat

    ghost predicate Valid()
      reads this, disk, disk.kernel, files.Values
    {
      && disk.Valid()
      && (forall fd <- files :: fd < next && files[fd].pos <= disk.kernel.frames * PAGE_SIZE)
      && (forall a, b | a in files && b in files && a != b :: files[a] != files[b])
    }

    ghost function Abs(): (s: FF.Sys)
      requires Valid()
      reads this, disk, disk.kernel, disk.pages, files.Values
      ensures FF.WellFormed(s.file)
    {
      FF.Sys(disk.File(), map fd | fd in files :: files[fd].pos, next, disk.nprocs, disk.maxNprocs)
    }

    /** Everything a system call may touch. */
    ghost function Repr(): set<object>
      reads this, disk
    {
      {this, disk, disk.kernel} + (set p <- disk.pages :: p as object) + (set f <- files.Values :: f as object)
    }

    constructor (disk: Disk)
      requires disk.Valid()
      ensures Valid() && this.disk == disk && files == map[]
    {
      this.disk := disk;
      files, next := map[], 0;
    }

    method PerformOpen(flags: nat) returns (r: FF.Result)
      requires Valid()
      modifies this, disk, disk.kernel
      ensures Valid() && FF.Step(old(Abs()), FF.Open(flags), r, Abs())
      ensures forall p <- disk.pages :: p in old(disk.pages)
      ensures forall f <- files.Values :: f in old(files.Values) || fresh(f)
      ensures !Truncates(FF.Open(flags), r) ==> disk.pages == old(disk.pages)
    {
      var ok := disk.Open(flags);
      if !ok {
        return FF.Err(FF.EBUSY);
      }
      assert Abs() == old(Abs()).(file := Abs().file, nprocs := old(Abs().nprocs) + 1);
      var fd := AddFile();
      r := FF.Ok(fd);
    }

    method AddFile() returns (fd: nat)
      requires Valid()
      modifies this
      ensures Valid() && fd == old(next)
      ensures Abs() == old(Abs()).(pos := old(Abs().pos)[fd := 0], next := fd + 1)
      ensures forall f <- files.Values :: f in old(files.Values) || fresh(f)
      ensures disk.pages == old(disk.pages)
    {
      var f := new OpenFile();
      assert f !in files.Values;
      ghost var bytes := Flat(disk.pages);
      fd := next;
      files := files[fd := f];
      next := next + 1;
      assert Flat(disk.pages) == bytes;
      assert Abs().pos == old(Abs().pos)[fd := 0];
    }

    method PerformRelease(fd: nat) returns (r: FF.Result)
      requires Valid()
      modifies this, disk
      ensures Valid() && FF.Step(old(Abs()), FF.Release(fd), r, Abs())
      ensures disk.pages == old(disk.pages)
      ensures files.Values <= old(files.Values)
    {
      if fd !in files {
        return FF.Err(FF.EBADF);
      }
      disk.Release();
      files := files - {fd};
      r := FF.Ok(0);
      assert Abs().pos == old(Abs().pos) - {fd};
    }

    method PerformRead(fd: nat, count: nat) returns (r: FF.Result)
      requires Valid() && count < U32_MOD
      modifies files.Values
      ensures Valid() && FF.Step(old(Abs()), FF.Read(fd, count), r, Abs())
    {
      if fd !in files {
        return FF.Err(FF.EBADF);
      }
      hide Flat, FF.ReadOut;
      var data := ReadFile(fd, count);
      r := FF.Bytes(data);
    }

    method ReadFile(fd: nat, count: nat) returns (data: seq<byte>)
      requires Valid() && count < U32_MOD && fd in files
      modifies files[fd]
      ensures Valid() && data == FF.ReadOut(disk.File(), old(files[fd].pos), count)
      ensures Abs() == old(Abs()).(pos := old(Abs().pos)[fd := old(files[fd].pos) + |data|])
    {
      hide Flat, FF.ReadOut;
      ghost var bytes := Flat(disk.pages);
      data := disk.Read(files[fd], count);
      assert Flat(disk.pages) == bytes;
      assert Abs().pos == old(Abs().pos)[fd := old(Abs().pos[fd]) + |data|];
    }

    method PerformSeek(fd: nat, offset: int, whence: int) returns (r: FF.Result)
      requires Valid() && -S64_LIMIT <= offset < S64_LIMIT
      modifies files.Values
      ensures Valid() && FF.Step(old(Abs()), FF.Seek(fd, offset, whence), r, Abs())
    {
      if fd !in files {
        return FF.Err(FF.EBADF);
      }
      hide Flat, FF.SeekTarget;
      ghost var bytes := Flat(disk.pages);
      var p := disk.Seek(files[fd], offset, whence);
      assert Flat(disk.pages) == bytes;
      r := if p == -FF.EINVAL then FF.Err(FF.EINVAL) else FF.Ok(p);
      assert Abs().pos == old(Abs().pos)[fd := files[fd].pos];
    }

    method PerformWrite(fd: nat, buf: seq<byte>) returns (r: FF.Result)
      requires Valid() && |buf| < U32_MOD
      modifies Repr()
      ensures Valid() && FF.Step(old(Abs()), FF.Write(fd, buf), r, Abs())
      ensures files == old(files) && old(disk.pages) <= disk.pages
      ensures forall p <- disk.pages :: p in old(disk.pages) || fresh(p)
    {
      if fd !in files {
        return FF.Err(FF.EBADF);
      }
      ghost var before := Abs();
      var n := WriteFile(fd, buf);
      WriteIsStep(before, fd, buf, n, Abs());
      r := FF.Ok(n);
    }

    method WriteFile(fd: nat, buf: seq<byte>) returns (n: nat)
      requires Valid() && |buf| < U32_MOD && fd in files
      modifies Repr()
      ensures Valid() && files == old(files) && next == old(next)
      ensures forall p <- disk.pages :: p in old(disk.pages) || fresh(p)
      ensures old(disk.pages) <= disk.pages
      ensures disk.nprocs == old(disk.nprocs) && disk.maxNprocs == old(disk.maxNprocs)
      ensures forall other <- files :: other != fd ==> files[other].pos == old(files[other].pos)
      ensures files[fd].pos == old(files[fd].pos) + n
      ensures || (n == |buf| && FF.Written(old(disk.File()), old(files[fd].pos), buf, disk.File()))
              || (n == 0 && FF.Refused(old(disk.File()), old(files[fd].pos), buf, disk.File()))
    {
      forall i | 0 <= i < |disk.pages|
        ensures disk.pages[i] as object in Repr()
      {
        assert disk.pages[i] in disk.pages;
      }
      assert files[fd] in files.Values;
      n := disk.Write(files[fd], buf);
    }

    method PerformIoctl(kind: char, nr: int, arg: int) returns (r: FF.Result)
      requires Valid()
      modifies disk`maxNprocs
      ensures Valid() && FF.Step(old(Abs()), FF.Ioctl(kind, nr, arg), r, Abs())
    {
      r := disk.Ioctl(kind, nr, arg);
    }

    method Perform(op: FF.Op) returns (r: FF.Result)
      requires Valid() && Typed(op)
      modifies Repr()
      ensures Valid() && FF.Step(old(Abs()), op, r, Abs())
      ensures fresh(Repr() - old(Repr()))
      ensures !Truncates(op, r) ==> old(disk.pages) <= disk.pages
    {
      match op {
        case Open(flags) => r := PerformOpen(flags);
        case Release(fd) => r := PerformRelease(fd);
        case Read(fd, count) => r := PerformRead(fd, count);
        case Write(fd, buf) => r := PerformWrite(fd, buf);
        case Seek(fd, offset, whence) => r := PerformSeek(fd, offset, whence);
        case Ioctl(kind, nr, arg) => r := PerformIoctl(kind, nr, arg);
      }
    }

    /** Whole-run refinement, for any script over any number of descriptors. */
    method Execute(ops: seq<FF.Op>) returns (results: seq<FF.Result>, ghost states: seq<FF.Sys>)
      requires Valid() && forall op <- ops :: Typed(op)
      modifies Repr()
      ensures Valid()
      ensures FF.Run(states, ops, results)
      ensures states[0] == old(Abs()) && states[|ops|] == Abs()
      ensures fresh(Repr() - old(Repr()))
      ensures NoTruncation(ops, results) ==> old(disk.pages) <= disk.pages
    {
      results := [];
      states := [Abs()];
      for i := 0 to |ops|
        invariant Valid()
        invariant fresh(Repr() - old(Repr()))
        invariant FF.Run(states, ops[..i], results)
        invariant states[0] == old(Abs()) && states[i] == Abs()
        invariant NoTruncation(ops[..i], results) ==> old(disk.pages) <= disk.pages
      {
        ghost var before := Abs();
        var r := Perform(ops[i]);
        ghost var after := Abs();
        assert FF.Step(before, ops[i], r, after);
        RunAppend(states, ops[..i], results, before, ops[i], r, after);
        assert ops[..i] + [ops[i]] == ops[..i + 1];
        NoTruncationSoFar(ops[..i], results, ops[i], r);
        results := results + [r];
        states := states + [after];
      }
      assert ops[..|ops|] == ops;
    }

    /** Module exit: every page ever handed out has been returned, and the only
        list nodes not returned are those lost when a page was refused. */
    method Exit()
      requires Valid()
      modifies disk, disk.kernel
      ensures disk.pages == [] && disk.kernel.live == {}
      ensures disk.kernel.freed == disk.kernel.given
      ensures disk.kernel.nodes == disk.kernel.pageRefusals
    {
      disk.FreeMemoryPages();
    }
  }

  // ----- a mapping over a run ------------------------------------------------

  /** A mapping goes on backing its range when the list grows. */
  lemma BackedGrows(m: Mapping, pages: seq<array<byte>>, more: seq<array<byte>>, start: nat, end: nat)
    requires Backed(m, pages, start, end, 0) && pages <= more
    ensures Backed(m, more, start, end, 0)
  {
    forall v | start / PAGE_SIZE <= v < end / PAGE_SIZE
      ensures v in m && v - start / PAGE_SIZE < |more| && m[v] == more[v - start / PAGE_SIZE]
    {
      assert v in m;
      assert more[v - start / PAGE_SIZE] == pages[v - start / PAGE_SIZE];
    }
  }

  /** A load from address `a` finds the byte of the file at its place. */
  ghost predicate Shows(m: Mapping, f: FF.File, start: nat, a: nat)
    requires start <= a
    reads m.Values
  {
    && a / PAGE_SIZE in m && m[a / PAGE_SIZE].Length == PAGE_SIZE && a - start < |f.bytes|
    && m[a / PAGE_SIZE][a % PAGE_SIZE] == f.bytes[a - start]
  }

  ghost predicate Coherent(m: Mapping, f: FF.File, start: nat, end: nat)
    reads m.Values
  {
    forall a | start <= a < end :: Shows(m, f, start, a)
  }

  lemma BackedIsCoherent(m: Mapping, disk: Disk, start: nat, end: nat)
    requires PageSized(disk.pages) && Backed(m, disk.pages, start, end, 0)
    requires start % PAGE_SIZE == 0 && end % PAGE_SIZE == 0
    ensures Coherent(m, disk.File(), start, end)
  {
    hide Flat;
    forall a | start <= a < end
      ensures Shows(m, disk.File(), start, a)
    {
      MappedByte(m, disk.pages, start, end, a);
    }
  }

  /** A mapping from offset zero shows the file after every run of calls that
      does not truncate it: what the calls write is seen through the mapping. */
  method MapAndExecute(sys: System, start: nat, end: nat, ops: seq<FF.Op>)
    returns (r: MapResult, results: seq<FF.Result>, ghost states: seq<FF.Sys>)
    requires sys.Valid() && forall op <- ops :: Typed(op)
    requires start <= end <= TASK_SIZE && start % PAGE_SIZE == 0 && end % PAGE_SIZE == 0
    modifies sys.Repr()
    ensures sys.Valid() && FF.Run(states, ops, results)
    ensures states[0] == old(sys.Abs()) && states[|ops|] == sys.Abs()
    ensures r.Invalid? <==> end - start > old(|sys.disk.pages|) * PAGE_SIZE
    ensures r.Mapped? && NoTruncation(ops, results) ==>
              Coherent(r.pages, sys.disk.File(), start, end)
  {
    r := sys.disk.Mmap(start, end, 0);
    FitsU32(0);
    ghost var was := sys.disk.pages;
    results, states := sys.Execute(ops);
    if r.Mapped? && NoTruncation(ops, results) {
      BackedGrows(r.pages, was, sys.disk.pages, start, end);
      BackedIsCoherent(r.pages, sys.disk, start, end);
    }
  }

  /** A request the driver answers wrongly: on a device of one page, a mapping
      of one page at page offset 2^20, whose byte offset wraps to zero, is
      granted and shows the first page. */
  method WrongMapping(start: nat) returns (disk: Disk, m: Mapping)
    requires start % PAGE_SIZE == 0 && start + PAGE_SIZE <= TASK_SIZE
    ensures disk.Valid() && |disk.pages| == 1
    ensures Answers(disk.pages, start, start + PAGE_SIZE, 0x10_0000, Mapped(m))
    ensures start / PAGE_SIZE in m && m[start / PAGE_SIZE] == disk.pages[0]
    ensures !Backed(m, disk.pages, start, start + PAGE_SIZE, 0x10_0000)
  {
    var kernel := new Kernel(1, 0);
    disk := new Disk(kernel);
    var f := new OpenFile();
    var n := disk.Write(f, [0]);
    assert PagesFor(1) == 1;
    var r := disk.Mmap(start, start + PAGE_SIZE, 0x10_0000);
    m := r.pages;
  }
}
