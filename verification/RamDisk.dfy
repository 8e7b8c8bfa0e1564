/** The RAM disk driver: file contents in a list of pages, grown on demand and
    freed when the device is opened write-only. */
module RamDisk {
  import opened Machine
  import FF = FlatFile

  /** The kernel's page and node allocators.  A request may be refused although
      memory is left, as long as `refusals` lasts; it is always refused when
      every frame is in use.  The contents of a new page are arbitrary. */
  class Kernel {
    const frames: nat
    var refusals: nat
    var used: nat                       // frames in use
    var nodes: nat                      // list nodes handed out and not returned
    ghost var live: set<array<byte>>    // pages handed out and not returned
    ghost var freed: set<array<byte>>   // pages returned
    ghost var given: set<array<byte>>   // every page ever handed out
    ghost var pageRefusals: nat

    ghost predicate Valid()
      reads this
    {
      used <= frames < MAX_FRAMES && live !! freed && given == live + freed
    }

    constructor (frames: nat, refusals: nat)
      requires frames < MAX_FRAMES
      ensures Valid() && live == {} && freed == {} && used == nodes == 0 && pageRefusals == 0
      ensures this.frames == frames && this.refusals == refusals
    {
      this.frames, this.refusals := frames, refusals;
      used, nodes := 0, 0;
      live, freed, given, pageRefusals := {}, {}, {}, 0;
    }

    method AllocNode() returns (ok: bool)
      requires Valid()
      modifies this
      ensures Valid() && live == old(live) && freed == old(freed) && pageRefusals == old(pageRefusals)
      ensures used == old(used)
      ensures nodes == old(nodes) + if ok then 1 else 0
      ensures if ok then refusals == old(refusals) else refusals < old(refusals)
    {
      var unlucky: bool := *;
      if refusals > 0 && unlucky {
        refusals := refusals - 1;
        ok := false;
      } else {
        nodes := nodes + 1;
        ok := true;
      }
    }

    method AllocPage() returns (page: array?<byte>)
      requires Valid()
      modifies this
      ensures Valid() && freed == old(freed) && nodes == old(nodes)
      ensures page == null ==> live == old(live) && pageRefusals == old(pageRefusals) + 1
      ensures page == null ==> used == old(used) && (used == frames || refusals < old(refusals))
      ensures page != null ==> used == old(used) + 1
      ensures page != null ==> fresh(page) && page.Length == PAGE_SIZE && pageRefusals == old(pageRefusals)
      ensures page != null ==> live == old(live) + {page} && page !in freed && refusals == old(refusals)
      ensures refusals <= old(refusals)
    {
      var unlucky: bool := *;
      if used == frames {
        pageRefusals := pageRefusals + 1;
        page := null;
      } else if refusals > 0 && unlucky {
        refusals := refusals - 1;
        pageRefusals := pageRefusals + 1;
        page := null;
      } else {
        page := new byte[PAGE_SIZE];
        used := used + 1;
        live, given := live + {page}, given + {page};
      }
    }

    /** A page is returned only while it is live, so never twice. */
    method FreePage(page: array<byte>)
      requires Valid() && page in live && used > 0
      modifies this
      ensures Valid() && live == old(live) - {page} && freed == old(freed) + {page}
      ensures used == old(used) - 1
      ensures nodes == old(nodes) && pageRefusals == old(pageRefusals) && refusals == old(refusals)
    {
      used := used - 1;
      live := live - {page};
      freed := freed + {page};
    }

    method FreeNode()
      requires Valid() && nodes > 0
      modifies this
      ensures Valid() && live == old(live) && freed == old(freed) && used == old(used)
      ensures nodes == old(nodes) - 1 && pageRefusals == old(pageRefusals) && refusals == old(refusals)
    {
      nodes := nodes - 1;
    }
  }

  /** The kernel's record of an open file. */
  class OpenFile {
    var pos: nat

    constructor ()
      ensures pos == 0
    {
      pos := 0;
    }
  }

  /** A user mapping: which disk page backs each virtual page number. */
  type Mapping = map<nat, array<byte>>

  datatype MapResult = Invalid | Mapped(pages: Mapping)

  ghost predicate PageSized(pages: seq<array<byte>>) {
    forall p <- pages :: p.Length == PAGE_SIZE
  }

  /** User addresses end at 3 GiB. */
  const TASK_SIZE := 0xC000_0000

  /** What a mapping from `start` to `end` with page offset `pgoff` should be:
      each page of the range is the page at its place in the file. */
  ghost predicate Backed(m: Mapping, pages: seq<array<byte>>, start: nat, end: nat, pgoff: nat) {
    forall v | start / PAGE_SIZE <= v < end / PAGE_SIZE ::
      v in m && pgoff + v - start / PAGE_SIZE < |pages| && m[v] == pages[pgoff + v - start / PAGE_SIZE]
  }

  /** The driver's answer to a mapping request: a refusal, or the list pages of
      the range from the byte offset on, each at its place, and nothing else. */
  ghost predicate Answers(pages: seq<array<byte>>, start: nat, end: nat, pgoff: nat, r: MapResult) {
    var offset := U32(pgoff * PAGE_SIZE);
    match r
    case Invalid => end - start > |pages| * PAGE_SIZE || offset > |pages|
    case Mapped(m) =>
      && end - start <= |pages| * PAGE_SIZE && offset <= |pages|
      && (forall v :: v in m <==> start / PAGE_SIZE + offset <= v < end / PAGE_SIZE)
      && (forall v <- m :: v - start / PAGE_SIZE < |pages| && m[v] == pages[v - start / PAGE_SIZE])
  }

  /** A byte read through a mapping is the byte of the flat file. */
  lemma MappedByte(m: Mapping, pages: seq<array<byte>>, start: nat, end: nat, a: nat)
    requires PageSized(pages) && Backed(m, pages, start, end, 0)
    requires start <= a < end && start % PAGE_SIZE == 0 && end % PAGE_SIZE == 0
    ensures a / PAGE_SIZE in m && m[a / PAGE_SIZE].Length == PAGE_SIZE
    ensures a - start < |pages| * PAGE_SIZE
    ensures m[a / PAGE_SIZE][a % PAGE_SIZE] == Flat(pages)[a - start]
  {
    hide Flat;
    PageOf(start, end, a);
    var k := a / PAGE_SIZE - start / PAGE_SIZE;
    assert a / PAGE_SIZE in m;
    assert m[a / PAGE_SIZE] == pages[k] && pages[k] in pages;
    FlatCell(pages, k, a % PAGE_SIZE, a - start);
  }

  /** A byte stored through a mapping goes into the flat file at its place and
      nowhere else. */
  method StoreMapped(m: Mapping, ghost pages: seq<array<byte>>, ghost start: nat, ghost end: nat, a: nat, b: byte)
    requires PageSized(pages) && Distinct(pages) && Backed(m, pages, start, end, 0)
    requires start <= a < end && start % PAGE_SIZE == 0 && end % PAGE_SIZE == 0
    requires a / PAGE_SIZE in m
    modifies m[a / PAGE_SIZE]
    ensures end - start <= |pages| * PAGE_SIZE
    ensures Flat(pages) == Patch(old(Flat(pages)), a - start, [b])
  {
    PageOf(start, end, a);
    PageOf(start, end, end - 1);
    assert end / PAGE_SIZE - 1 in m;
    assert (a - start) / PAGE_SIZE == a / PAGE_SIZE - start / PAGE_SIZE;
    CopyToPage(m[a / PAGE_SIZE], a % PAGE_SIZE, [b], pages, (a - start) / PAGE_SIZE);
  }

  ghost predicate Distinct(pages: seq<array<byte>>) {
    forall i, j | 0 <= i < j < |pages| :: pages[i] != pages[j]
  }

  ghost function PageSet(pages: seq<array<byte>>): set<array<byte>> {
    set p <- pages
  }

  lemma RemoveFirst(pages: seq<array<byte>>)
    requires pages != [] && Distinct(pages)
    ensures PageSet(pages[1..]) == PageSet(pages) - {pages[0]} && Distinct(pages[1..])
  {
    assert pages == [pages[0]] + pages[1..];
  }

  lemma AddLast(pages: seq<array<byte>>, page: array<byte>)
    requires Distinct(pages) && page !in PageSet(pages)
    ensures PageSet(pages + [page]) == PageSet(pages) + {page} && Distinct(pages + [page])
  {
    assert forall i | 0 <= i < |pages| :: pages[i] in PageSet(pages);
  }

  /** The bytes of the pages, in list order. */
  ghost function Flat(pages: seq<array<byte>>): (s: seq<byte>)
    requires PageSized(pages)
    reads pages
    ensures |s| == |pages| * PAGE_SIZE
  {
    if pages == [] then []
    else Flat(pages[..|pages| - 1]) + pages[|pages| - 1][..]
  }

  lemma {:induction false} FlatSlice(pages: seq<array<byte>>, k: nat, at: nat, n: nat)
    requires PageSized(pages) && k < |pages| && at + n <= PAGE_SIZE
    ensures k * PAGE_SIZE + at + n <= |pages| * PAGE_SIZE
    ensures Flat(pages)[k * PAGE_SIZE + at..k * PAGE_SIZE + at + n] == pages[k][at..at + n]
  {
    var init, last := pages[..|pages| - 1], |pages| - 1;
    var from := k * PAGE_SIZE + at;
    if k < last {
      FlatSlice(init, k, at, n);
      SliceLeft(Flat(init), pages[last][..], from, from + n);
    } else {
      SliceRight(Flat(init), pages[last][..], at, at + n);
      assert pages[last][..][at..at + n] == pages[last][at..at + n];
    }
  }

  lemma {:induction false} FlatCell(pages: seq<array<byte>>, k: nat, at: nat, i: nat)
    requires PageSized(pages) && k < |pages| && at < PAGE_SIZE && i == k * PAGE_SIZE + at
    ensures i < |pages| * PAGE_SIZE && Flat(pages)[i] == pages[k][at]
  {
    if k < |pages| - 1 {
      FlatCell(pages[..|pages| - 1], k, at, i);
    }
  }

  ghost function Values(pages: seq<array<byte>>): seq<seq<byte>>
    reads pages
  {
    seq(|pages|, i requires 0 <= i < |pages| reads pages => pages[i][..])
  }

  lemma {:induction false} FlatValues(pages: seq<array<byte>>)
    requires PageSized(pages)
    ensures Flat(pages) == Concat(Values(pages))
  {
    if pages != [] {
      var init := pages[..|pages| - 1];
      FlatValues(init);
      assert Values(pages)[..|pages| - 1] == Values(init);
    }
  }

  lemma {:induction false} ConcatPatch(parts: seq<seq<byte>>, k: nat, at: nat, src: seq<byte>, i: nat)
    requires (forall v <- parts :: |v| == PAGE_SIZE) && k < |parts| && at + |src| <= PAGE_SIZE
    requires i == k * PAGE_SIZE + at
    ensures |Concat(parts)| == |parts| * PAGE_SIZE
    ensures Concat(parts[k := Patch(parts[k], at, src)]) == Patch(Concat(parts), i, src)
  {
    var init, last := parts[..|parts| - 1], |parts| - 1;
    ConcatLength(init);
    var after := parts[k := Patch(parts[k], at, src)];
    assert Concat(after) == Concat(after[..last]) + after[last];
    if k < last {
      ConcatPatch(init, k, at, src, i);
      assert after[..last] == init[k := Patch(init[k], at, src)];
      PatchLeft(Concat(init), parts[last], i, src);
      assert Concat(after) == Patch(Concat(init), i, src) + parts[last];
    } else {
      assert after[..last] == init;
      PatchRight(Concat(init), parts[last], at, src);
      assert Concat(after) == Concat(init) + Patch(parts[last], at, src);
    }
  }

  lemma {:induction false} ConcatLength(parts: seq<seq<byte>>)
    requires forall v <- parts :: |v| == PAGE_SIZE
    ensures |Concat(parts)| == |parts| * PAGE_SIZE
  {
    if parts != [] {
      ConcatLength(parts[..|parts| - 1]);
    }
  }

  lemma {:induction false} FlatSplit(pages: seq<array<byte>>, n: nat)
    requires PageSized(pages) && n <= |pages|
    ensures Flat(pages)[..n * PAGE_SIZE] == Flat(pages[..n])
  {
    if n < |pages| {
      var init := pages[..|pages| - 1];
      FlatSplit(init, n);
      assert init[..n] == pages[..n];
      assert Flat(pages)[..n * PAGE_SIZE] == Flat(init)[..n * PAGE_SIZE];
    } else {
      assert pages[..n] == pages;
    }
  }

  /** The kernel's `min((int)x, (int)y)` on sizes that fit. */
  method MinInt(x: int, y: int) returns (m: int)
    requires 0 <= x < S32_LIMIT && 0 <= y < S32_LIMIT
    ensures m == Min(x, y)
  {
    FitsS32(x);
    FitsS32(y);
    m := Min(S32(x), S32(y));
  }

  /** `copy_to_user` of part of one page. */
  method CopyFromPage(pages: seq<array<byte>>, k: nat, at: nat, n: nat) returns (chunk: seq<byte>)
    requires PageSized(pages) && k < |pages| && at + n <= PAGE_SIZE
    ensures |chunk| == n && chunk == Flat(pages)[k * PAGE_SIZE + at..k * PAGE_SIZE + at + n]
  {
    chunk := pages[k][at..at + n];
    FlatSlice(pages, k, at, n);
  }

  method CopyInto(page: array<byte>, at: nat, src: seq<byte>)
    requires at + |src| <= page.Length
    modifies page
    ensures page[..] == Patch(old(page[..]), at, src)
  {
    forall i | 0 <= i < |src| {
      page[at + i] := src[i];
    }
  }

  /** `copy_from_user` into part of one page. */
  method CopyToPage(page: array<byte>, at: nat, src: seq<byte>, ghost pages: seq<array<byte>>, ghost k: nat)
    requires PageSized(pages) && Distinct(pages) && k < |pages| && page == pages[k]
    requires at + |src| <= PAGE_SIZE
    modifies page
    ensures k * PAGE_SIZE + at + |src| <= |pages| * PAGE_SIZE
    ensures Flat(pages) == Patch(old(Flat(pages)), k * PAGE_SIZE + at, src)
  {
    ghost var was := Values(pages);
    FlatValues(pages);
    ConcatPatch(was, k, at, src, k * PAGE_SIZE + at);
    CopyInto(page, at, src);
    assert forall i | 0 <= i < |pages| && i != k :: pages[i] != page;
    assert Values(pages) == was[k := Patch(was[k], at, src)];
    FlatValues(pages);
  }

  class Disk {
    const kernel: Kernel
    var pages: seq<array<byte>>   // mem_list
    var numPages: int
    var dataSize: nat
    var nprocs: int
    var maxNprocs: int

    /** The list holds exactly `numPages` distinct pages, which are exactly the
        live pages of the allocator; every list node is accounted for, but
        for one lost at each refused page. */
    ghost predicate Valid()
      reads this, kernel
    {
      && ListOk()
      && numPages == |pages| <= kernel.frames
      && dataSize <= |pages| * PAGE_SIZE
    }

    ghost predicate ListOk()
      reads this, kernel
    {
      && kernel.Valid()
      && PageSized(pages)
      && Distinct(pages)
      && PageSet(pages) == kernel.live
      && kernel.used == |pages|
      && kernel.nodes == |pages| + kernel.pageRefusals
    }

    ghost function File(): (f: FF.File)
      requires PageSized(pages)
      reads this, pages
      ensures |f.bytes| == |pages| * PAGE_SIZE
    {
      FF.File(Flat(pages), dataSize)
    }

    constructor (kernel: Kernel)
      requires kernel.Valid() && kernel.live == {} && kernel.used == 0
      requires kernel.nodes == kernel.pageRefusals
      ensures Valid() && this.kernel == kernel
      ensures File() == FF.File([], 0) && nprocs == 0 && maxNprocs == 1
    {
      this.kernel := kernel;
      pages, numPages, dataSize := [], 0, 0;
      nprocs, maxNprocs := 0, 1;
    }

    /** Frees the first page, unlinks its node and frees the node. */
    method FreeFirst()
      requires ListOk() && pages != []
      modifies this`pages, kernel
      ensures ListOk() && pages == old(pages[1..])
      ensures kernel.live == old(kernel.live) - {old(pages[0])}
      ensures kernel.freed == old(kernel.freed) + {old(pages[0])}
      ensures kernel.pageRefusals == old(kernel.pageRefusals)
    {
      RemoveFirst(pages);
      assert pages[0] in PageSet(pages);
      kernel.FreePage(pages[0]);
      pages := pages[1..];
      kernel.FreeNode();
    }

    method FreeMemoryPages()
      requires Valid()
      modifies this, kernel
      ensures Valid() && pages == [] && dataSize == 0
      ensures kernel.live == {} && kernel.freed == old(kernel.freed) + old(kernel.live)
      ensures kernel.nodes == kernel.pageRefusals == old(kernel.pageRefusals)
      ensures nprocs == old(nprocs) && maxNprocs == old(maxNprocs)
    {
      while pages != []
        invariant ListOk()
        invariant kernel.live + kernel.freed == old(kernel.live) + old(kernel.freed)
        invariant kernel.pageRefusals == old(kernel.pageRefusals)
        invariant nprocs == old(nprocs) && maxNprocs == old(maxNprocs)
        decreases |pages|
      {
        assert pages[0] in PageSet(pages);
        FreeFirst();
      }
      assert kernel.live == {};
      dataSize := 0;
      numPages := 0;
    }

    method Open(flags: nat) returns (ok: bool)
      requires Valid()
      modifies this, kernel
      ensures Valid()
      ensures ok <==> old(nprocs) < old(maxNprocs)
      ensures maxNprocs == old(maxNprocs) && nprocs == old(nprocs) + if ok then 1 else 0
      ensures ok && FF.WriteOnly(flags) ==> File() == FF.File([], 0)
      ensures ok && flags % 4 == 1 ==> pages == [] && dataSize == 0
      ensures flags % 4 != 1 ==> pages == old(pages) && dataSize == old(dataSize)
      ensures ok && FF.WriteOnly(flags) ==> old(kernel.live) <= kernel.freed
      ensures !(ok && FF.WriteOnly(flags)) ==> pages == old(pages) && dataSize == old(dataSize)
    {
      if nprocs >= maxNprocs {
        return false;
      }
      nprocs := nprocs + 1;
      if flags % 4 == 1 {
        FreeMemoryPages();
      }
      return true;
    }

    method Release()
      modifies this`nprocs
      ensures nprocs == old(nprocs) - 1
    {
      nprocs := nprocs - 1;
    }

    /** Sets the limit: 22 is EINVAL, 25 is ENOTTY. */
    method Ioctl(kind: char, nr: int, arg: int) returns (r: FF.Result)
      modifies this`maxNprocs
      ensures r == if kind != 'k' then FF.Err(22) else if nr != 1 then FF.Err(25)
                   else if arg < 0 then FF.Err(22) else FF.Ok(0)
      ensures maxNprocs == if r == FF.Ok(0) then arg else old(maxNprocs)
    {
      if kind != FF.IOC_TYPE {
        return FF.Err(FF.EINVAL);
      }
      if nr != FF.SET_NPROC_OP {
        return FF.Err(FF.ENOTTY);
      }
      if arg < 0 {
        return FF.Err(FF.EINVAL);
      }
      maxNprocs := arg;
      return FF.Ok(0);
    }

    /** A read returns the slice of the flat file at the position. */
    method Read(f: OpenFile, count: nat) returns (data: seq<byte>)
      requires Valid() && count < U32_MOD
      modifies f
      ensures data == FF.ReadOut(File(), old(f.pos), count)
      ensures |data| == if old(f.pos) >= dataSize then 0 else Min(count, dataSize - old(f.pos))
      ensures f.pos == old(f.pos) + |data|
    {
      var beginOffset := f.pos % PAGE_SIZE;
      var beginPageNo := S32(f.pos / PAGE_SIZE);
      if f.pos > dataSize {
        return [];
      }
      FitsS32(f.pos / PAGE_SIZE);
      var sizeFromPages := SizeFromPages(f.pos, count);
      data := Gather(beginPageNo, beginOffset, sizeFromPages, f.pos);
      ghost var bytes := Flat(pages);
      f.pos := f.pos + |data|;
      assert Flat(pages) == bytes;
    }

    /** How much of a request the data can serve. */
    method SizeFromPages(pos: nat, count: nat) returns (n: nat)
      requires Valid() && pos <= dataSize
      ensures n == Min(count, dataSize - pos)
    {
      FitsU32(pos);
      FitsU32(dataSize - pos);
      n := Min(count, U32(dataSize - U32(pos)));
    }

    /** The page walk of a read. */
    method Gather(page: nat, at: nat, size: nat, ghost pos: nat) returns (data: seq<byte>)
      requires Valid() && pos + size <= dataSize
      requires pos == page * PAGE_SIZE + at && at < PAGE_SIZE
      ensures data == Flat(pages)[pos..pos + size]
    {
      var beginPageNo, beginOffset, currPageNo := page, at, -1;
      data := [];
      var k := 0;
      while k < |pages|
        invariant 0 <= k <= |pages| && currPageNo == k - 1
        invariant |data| <= size && data == Flat(pages)[pos..pos + |data|]
        invariant if k <= page then data == [] && beginPageNo == page && beginOffset == at
                  else beginPageNo == k && beginOffset == 0 && pos + |data| == k * PAGE_SIZE
                       && |data| < size
      {
        currPageNo := currPageNo + 1;
        if currPageNo == beginPageNo {
          data := GatherRound(k, beginOffset, size, data, pos);
          if size != |data| {
            beginPageNo := beginPageNo + 1;
            beginOffset := 0;
          } else {
            return;
          }
        }
        k := k + 1;
      }
    }

    /** One page of a read. */
    method GatherRound(k: nat, at: nat, size: nat, got: seq<byte>, ghost pos: nat)
      returns (data: seq<byte>)
      requires PageSized(pages) && k < |pages| && at < PAGE_SIZE
      requires |got| <= size < S32_LIMIT && pos + size <= |pages| * PAGE_SIZE
      requires pos + |got| == k * PAGE_SIZE + at && got == Flat(pages)[pos..pos + |got|]
      ensures |data| <= size && data == Flat(pages)[pos..pos + |data|]
      ensures |data| != size ==> pos + |data| == (k + 1) * PAGE_SIZE
    {
      hide Flat;
      var sizeToRead := MinInt(PAGE_SIZE - at, size - |got|);
      PageRound(pos, |got|, size, k, at, sizeToRead);
      var chunk := CopyFromPage(pages, k, at, sizeToRead);
      JoinSlices(Flat(pages), pos, pos + |got|, pos + |got| + sizeToRead);
      data := got + chunk;
    }

    method Seek(f: OpenFile, offset: int, whence: int) returns (r: int)
      requires Valid() && f.pos < S64_LIMIT && -S64_LIMIT <= offset < S64_LIMIT
      modifies f
      ensures match FF.SeekTarget(File(), old(f.pos), offset, whence)
              case None => r == -FF.EINVAL && f.pos == old(f.pos)
              case Some(p) => r == p == f.pos <= |pages| * PAGE_SIZE
      ensures whence != 0 && whence != 1 && whence != 2 ==> r == -22 && f.pos == old(f.pos)
      ensures var capacity := |pages| * 4096;
              var sum := (if whence == 0 then 0 else if whence == 1 then old(f.pos) else capacity) + offset;
              (whence == 0 || whence == 1 || whence == 2) && sum < 0x8000_0000_0000_0000 ==>
                r == f.pos == if sum < 0 then 0 else if sum > capacity then capacity else sum
    {
      hide Flat, S64, U32;
      var bufferSize := U32(numPages * PAGE_SIZE);
      FitsU32(numPages * PAGE_SIZE);
      FitsS64(offset);
      var testpos;
      if whence == FF.SEEK_SET {
        testpos := offset;
      } else if whence == FF.SEEK_CUR {
        testpos := S64(f.pos + offset);
        FitsS64(f.pos + offset);
      } else if whence == FF.SEEK_END {
        testpos := S64(bufferSize + offset);
        FitsS64(bufferSize + offset);
      } else {
        return -FF.EINVAL;
      }
      if testpos > bufferSize {
        testpos := bufferSize;
      } else if testpos < 0 {
        testpos := 0;
      }
      f.pos := testpos;
      return testpos;
    }

    /** Links one new page at the end of the list, or reports a refusal.  When
        the page is refused its list node is not given back. */
    method AddPage() returns (ok: bool)
      requires Valid()
      modifies this`pages, this`numPages, kernel
      ensures Valid()
      ensures kernel.freed == old(kernel.freed)
      ensures ok ==> |pages| == |old(pages)| + 1 && pages[..|old(pages)|] == old(pages)
      ensures ok ==> fresh(pages[|old(pages)|]) && kernel.refusals == old(kernel.refusals)
      ensures !ok ==> pages == old(pages)
      ensures !ok ==> |pages| == kernel.frames || kernel.refusals < old(kernel.refusals)
      ensures kernel.refusals <= old(kernel.refusals)
    {
      var gotNode := kernel.AllocNode();
      if !gotNode {
        return false;
      }
      var page := kernel.AllocPage();
      if page == null {
        return false;
      }
      AddLast(pages, page);
      pages := pages + [page];
      numPages := numPages + 1;
      return true;
    }

    /** Maps list pages into a user range.  The range gets what it should, each
        page at its file offset, exactly when the page offset is zero: the
        driver compares a byte offset with page indexes. */
    method Mmap(start: nat, end: nat, pgoff: nat) returns (r: MapResult)
      requires Valid() && start <= end <= TASK_SIZE && pgoff < U32_MOD
      requires start % PAGE_SIZE == 0 && end % PAGE_SIZE == 0
      ensures Answers(pages, start, end, pgoff, r)
      ensures r.Mapped? && start < end ==> (Backed(r.pages, pages, start, end, pgoff) <==> pgoff == 0)
    {
      var offset := U32(pgoff * PAGE_SIZE);
      var ramdiskSize := U32(numPages * PAGE_SIZE);
      FitsU32(numPages * PAGE_SIZE);
      if end - start > ramdiskSize || offset > numPages {
        return Invalid;
      }
      var m: Mapping := map[];
      var index := 0;
      while index < |pages|
        invariant 0 <= index <= |pages|
        invariant forall v <- m :: start / PAGE_SIZE + offset <= v < end / PAGE_SIZE
                                   && v - start / PAGE_SIZE < |pages| && m[v] == pages[v - start / PAGE_SIZE]
        invariant forall v | start / PAGE_SIZE + offset <= v < Min(end / PAGE_SIZE, start / PAGE_SIZE + index) :: v in m
      {
        FitsU32(start + index * PAGE_SIZE);
        if index >= offset && U32(start + index * PAGE_SIZE) < end {
          m := m[U32(start + index * PAGE_SIZE) / PAGE_SIZE := pages[index]];
        }
        index := index + 1;
      }
      r := Mapped(m);
      OffsetMatters(pgoff);
      FitsU32(0);
      ghost var first := start / PAGE_SIZE;
      assert start < end ==> first < end / PAGE_SIZE;
      assert start < end && Backed(m, pages, start, end, pgoff) ==> first in m && pgoff < |pages|;
      assert first in m ==> offset == 0;
    }

    /** A page offset whose byte offset wraps to zero lies beyond any disk. */
    lemma OffsetMatters(pgoff: nat)
      ensures pgoff > 0 && U32(pgoff * PAGE_SIZE) == 0 ==> pgoff >= MAX_FRAMES
    {
      if pgoff < MAX_FRAMES {
        FitsU32(pgoff * PAGE_SIZE);
      }
    }

    /** Adds pages until `end` fits, or until the kernel refuses one. */
    method Grow(end: nat) returns (ok: bool)
      requires Valid()
      modifies this`pages, this`numPages, kernel
      ensures Valid()
      ensures old(pages) <= pages
      ensures forall i | |old(pages)| <= i < |pages| :: fresh(pages[i])
      ensures ok ==> |pages| == Max(|old(pages)|, PagesFor(end))
      ensures !ok ==> |pages| * PAGE_SIZE < end
      ensures !ok ==> |pages| == kernel.frames || kernel.refusals < old(kernel.refusals)
      ensures kernel.refusals <= old(kernel.refusals) && kernel.freed == old(kernel.freed)
    {
      ok := true;
      while U32(numPages * PAGE_SIZE) < end
        invariant Valid()
        invariant old(pages) <= pages
        invariant forall i | |old(pages)| <= i < |pages| :: fresh(pages[i])
        invariant |pages| <= Max(|old(pages)|, PagesFor(end))
        invariant ok && kernel.refusals == old(kernel.refusals) && kernel.freed == old(kernel.freed)
        decreases kernel.frames - |pages|
      {
        ok := AddPage();
        if !ok {
          break;
        }
      }
    }

    /** The page-by-page write is a splice into the flat file; a refused
        allocation leaves the data as it was and keeps the pages got so far. */
    method Write(f: OpenFile, buf: seq<byte>) returns (n: nat)
      requires Valid() && |buf| < U32_MOD && f.pos + |buf| < S64_LIMIT
      modifies this`pages, this`numPages, this`dataSize, kernel, f, pages
      ensures Valid()
      ensures old(pages) <= pages
      ensures || (n == |buf| && f.pos == old(f.pos) + n <= |pages| * PAGE_SIZE
                  && FF.Written(old(File()), old(f.pos), buf, File()))
              || (n == 0 && f.pos == old(f.pos) && FF.Refused(old(File()), old(f.pos), buf, File())
                  && (|pages| == kernel.frames || kernel.refusals < old(kernel.refusals)))
      ensures kernel.refusals <= old(kernel.refusals) && kernel.freed == old(kernel.freed)
      ensures forall i | |old(pages)| <= i < |pages| :: fresh(pages[i])
    {
      hide Flat, Patch;
      ghost var was, before := pages, Flat(pages);
      var grown := Grow(f.pos + |buf|);
      assert Flat(was) == before;
      assert pages[..|was|] == was;
      FlatSplit(pages, |was|);
      if !grown {
        return 0;
      }
      ghost var g := Flat(pages);
      n := Store(f, buf);
      PatchIsWritten(old(File()), old(f.pos), buf, g);
    }

    /** The part of a write that follows the growth of the list. */
    method Store(f: OpenFile, buf: seq<byte>) returns (n: nat)
      requires Valid() && f.pos + |buf| <= |pages| * PAGE_SIZE
      modifies this`dataSize, f, pages
      ensures Valid() && n == |buf| && f.pos == old(f.pos) + |buf|
      ensures File() == FF.File(Patch(old(Flat(pages)), old(f.pos), buf), Max(old(dataSize), f.pos))
    {
      var origPos := U32(f.pos);
      var beginOffset := f.pos % PAGE_SIZE;
      var beginPageNo := S32(f.pos / PAGE_SIZE);
      FitsU32(f.pos);
      FitsS32(f.pos / PAGE_SIZE);
      FitsU32(f.pos + |buf|);
      n := Scatter(beginPageNo, beginOffset, buf, f.pos);
      ghost var now := Flat(pages);
      f.pos := f.pos + n;
      dataSize := Max(dataSize, U32(origPos + n));
      assert Flat(pages) == now;
    }

    lemma PatchIsWritten(f: FF.File, pos: nat, buf: seq<byte>, g: seq<byte>)
      requires f.bytes <= g && |g| == Max(|f.bytes|, PagesFor(pos + |buf|) * PAGE_SIZE)
      ensures pos + |buf| <= |g|
      ensures FF.Written(f, pos, buf, FF.File(Patch(g, pos, buf), Max(f.size, pos + |buf|)))
    {
    }

    /** The page walk of a write. */
    method Scatter(page: nat, at: nat, buf: seq<byte>, ghost pos: nat) returns (n: nat)
      requires Valid() && pos + |buf| <= |pages| * PAGE_SIZE
      requires pos == page * PAGE_SIZE + at && at < PAGE_SIZE
      modifies pages
      ensures n == |buf|
      ensures Flat(pages) == Patch(old(Flat(pages)), pos, buf)
    {
      ghost var g := Flat(pages);
      var beginPageNo, beginOffset, currPageNo := page, at, -1;
      n := 0;
      assert Patch(g, pos, []) == g && buf[..|buf|] == buf;
      var k := 0;
      while k < |pages|
        invariant 0 <= k <= |pages| && currPageNo == k - 1
        invariant n <= |buf| && Flat(pages) == Patch(g, pos, buf[..n])
        invariant if k <= page then n == 0 && beginPageNo == page && beginOffset == at
                  else beginPageNo == k && beginOffset == 0 && pos + n == k * PAGE_SIZE && n < |buf|
      {
        currPageNo := currPageNo + 1;
        if currPageNo == beginPageNo {
          n := ScatterRound(k, beginOffset, buf, n, pos, g);
          if n != |buf| {
            beginPageNo := beginPageNo + 1;
            beginOffset := 0;
          } else {
            return;
          }
        }
        k := k + 1;
      }
    }

    /** One page of a write. */
    method ScatterRound(k: nat, at: nat, buf: seq<byte>, done: nat, ghost pos: nat, ghost g: seq<byte>)
      returns (n: nat)
      requires PageSized(pages) && Distinct(pages) && k < |pages| && at < PAGE_SIZE
      requires done <= |buf| < S32_LIMIT && pos + |buf| <= |g|
      requires pos + done == k * PAGE_SIZE + at && Flat(pages) == Patch(g, pos, buf[..done])
      modifies pages[k]
      ensures n <= |buf| && Flat(pages) == Patch(g, pos, buf[..n])
      ensures n != |buf| ==> pos + n == (k + 1) * PAGE_SIZE
    {
      hide Flat, Patch;
      var sizeToWrite := MinInt(PAGE_SIZE - at, |buf| - done);
      PageRound(pos, done, |buf|, k, at, sizeToWrite);
      PatchTwice(g, pos, buf[..done], buf[done..done + sizeToWrite]);
      assert buf[..done] + buf[done..done + sizeToWrite] == buf[..done + sizeToWrite];
      CopyToPage(pages[k], at, buf[done..done + sizeToWrite], pages, k);
      n := done + sizeToWrite;
    }
  }
}
