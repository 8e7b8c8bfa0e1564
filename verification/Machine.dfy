/** The C arithmetic of the Raspberry Pi target: 32-bit `int` and `size_t`,
    64-bit `loff_t`, pages of 4096 bytes. */
module Machine {
  newtype byte = x: int | 0 <= x < 256

  const PAGE_SIZE := 4096
  const U32_MOD := 0x1_0000_0000
  const S32_LIMIT := 0x8000_0000
  const S64_LIMIT := 0x8000_0000_0000_0000

  /** GFP_KERNEL pages come from low memory, which is below 1 GiB. */
  const MAX_FRAMES := 0x4_0000

  /** Conversion to `size_t` or `unsigned long`. */
  function U32(x: int): int {
    x % U32_MOD
  }

  /** Conversion to `int`. */
  function S32(x: int): int {
    if x % U32_MOD < S32_LIMIT then x % U32_MOD else x % U32_MOD - U32_MOD
  }

  /** Conversion to `loff_t`. */
  function S64(x: int): int {
    var r := x % (2 * S64_LIMIT);
    if r < S64_LIMIT then r else r - 2 * S64_LIMIT
  }

  lemma FitsU32(x: nat)
    requires x < U32_MOD
    ensures U32(x) == x
  {
  }

  lemma FitsS32(x: int)
    requires -S32_LIMIT <= x < S32_LIMIT
    ensures S32(x) == x
  {
  }

  lemma FitsS64(x: int)
    ensures -S64_LIMIT <= x < S64_LIMIT ==> S64(x) == x
  {
  }

  /** A conversion changes a value by a multiple of the word size only, into the
      range of its type. */
  lemma Casts(x: int)
    ensures 0 <= U32(x) < 0x1_0000_0000 && (x - U32(x)) % 0x1_0000_0000 == 0
    ensures -0x8000_0000 <= S32(x) < 0x8000_0000 && (x - S32(x)) % 0x1_0000_0000 == 0
    ensures -0x8000_0000_0000_0000 <= S64(x) < 0x8000_0000_0000_0000
    ensures (x - S64(x)) % 0x1_0000_0000_0000_0000 == 0
  {
  }

  /** The pages counted for n bytes hold them, and one page less would not. */
  lemma PagesForIsLeast(n: nat)
    ensures PagesFor(n) * 4096 >= n
    ensures n > 0 ==> (PagesFor(n) - 1) * 4096 < n
  {
  }

  /** One round of a page walk: from byte pos + got, which is byte `at` of page
      k, the round moves as much as the page and the request allow. */
  lemma PageRound(pos: nat, got: nat, total: nat, k: nat, at: nat, size: int)
    requires pos + got == k * PAGE_SIZE + at && at < PAGE_SIZE && got <= total
    requires size == Min(PAGE_SIZE - at, total - got)
    ensures 0 <= size && at + size <= PAGE_SIZE && got + size <= total
    ensures got + size != total ==> pos + got + size == (k + 1) * PAGE_SIZE
  {
  }

  /** Which page of a page-aligned range an address is on, and where. */
  lemma PageOf(start: nat, end: nat, a: nat)
    requires start <= a < end && start % PAGE_SIZE == 0 && end % PAGE_SIZE == 0
    ensures start / PAGE_SIZE <= a / PAGE_SIZE < end / PAGE_SIZE
    ensures (a / PAGE_SIZE - start / PAGE_SIZE) * PAGE_SIZE + a % PAGE_SIZE == a - start
  {
  }

  function Min(x: int, y: int): int {
    if x < y then x else y
  }

  function Max(x: int, y: int): int {
    if x < y then y else x
  }

  /** How many pages hold n bytes. */
  function PagesFor(n: nat): nat {
    (n + PAGE_SIZE - 1) / PAGE_SIZE
  }

  function Concat<T>(parts: seq<seq<T>>): seq<T> {
    if parts == [] then [] else Concat(parts[..|parts| - 1]) + parts[|parts| - 1]
  }

  /** `s` with `part` in place of what was at `at`. */
  function Patch<T>(s: seq<T>, at: nat, part: seq<T>): (r: seq<T>)
    requires at + |part| <= |s|
    ensures |r| == |s|
  {
    s[..at] + part + s[at + |part|..]
  }

  lemma PatchTwice<T>(s: seq<T>, at: nat, a: seq<T>, b: seq<T>)
    requires at + |a| + |b| <= |s|
    ensures Patch(Patch(s, at, a), at + |a|, b) == Patch(s, at, a + b)
  {
  }

  lemma PatchLeft<T>(a: seq<T>, b: seq<T>, at: nat, part: seq<T>)
    requires at + |part| <= |a|
    ensures Patch(a + b, at, part) == Patch(a, at, part) + b
  {
  }

  lemma PatchRight<T>(a: seq<T>, b: seq<T>, at: nat, part: seq<T>)
    requires at + |part| <= |b|
    ensures Patch(a + b, |a| + at, part) == a + Patch(b, at, part)
  {
  }

  /** The beginning of a slice. */
  lemma SliceTake<T>(s: seq<T>, a: nat, n: nat, m: nat)
    requires m <= n && a + n <= |s|
    ensures s[a..a + n][..m] == s[a..a + m]
  {
  }

  lemma SliceLeft<T>(a: seq<T>, b: seq<T>, i: nat, j: nat)
    requires i <= j <= |a|
    ensures (a + b)[i..j] == a[i..j]
  {
  }

  lemma SliceRight<T>(a: seq<T>, b: seq<T>, i: nat, j: nat)
    requires i <= j <= |b|
    ensures (a + b)[|a| + i..|a| + j] == b[i..j]
  {
  }

  lemma JoinSlices<T>(s: seq<T>, a: nat, b: nat, c: nat)
    requires a <= b <= c <= |s|
    ensures s[a..b] + s[b..c] == s[a..c]
  {
  }

  lemma {:induction false} ConcatAppend<T>(xs: seq<seq<T>>, ys: seq<seq<T>>)
    ensures Concat(xs + ys) == Concat(xs) + Concat(ys)
  {
    if ys == [] {
      assert xs + ys == xs;
    } else {
      var init, last := ys[..|ys| - 1], ys[|ys| - 1];
      assert (xs + ys)[..|xs + ys| - 1] == xs + init;
      ConcatAppend(xs, init);
      assert Concat(xs) + (Concat(init) + last) == Concat(xs) + Concat(init) + last;
    }
  }

  lemma ConcatFirst<T>(parts: seq<seq<T>>)
    requires parts != []
    ensures Concat(parts) == parts[0] + Concat(parts[1..])
  {
    assert parts == [parts[0]] + parts[1..];
    ConcatAppend([parts[0]], parts[1..]);
    assert Concat([parts[0]]) == parts[0];
  }
}
