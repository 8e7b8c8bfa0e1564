/** The wire of the dummy device: half bytes on four GPIO pins, high half
    first, and a NUL byte after every file. */
module Wire {
  import opened Machine


  /** Bits of the level register that carry the half byte. */
  const PIN0: bv32 := 1 << 7
  const PIN1: bv32 := 1 << 17
  const PIN2: bv32 := 1 << 22
  const PIN3: bv32 := 1 << 24

  function HalfByte(c: bv32): bv8 {
    (if c & PIN0 != 0 then 1 else 0) | (if c & PIN1 != 0 then 2 else 0)
    | (if c & PIN2 != 0 then 4 else 0) | (if c & PIN3 != 0 then 8 else 0)
  }

  /** Pin 7 carries bit 0, pin 17 bit 1, pin 22 bit 2 and pin 24 bit 3. */
  lemma PinBits(c: bv32)
    ensures HalfByte(c) < 16
    ensures HalfByte(c) & 1 != 0 <==> c & 0x80 != 0
    ensures HalfByte(c) & 2 != 0 <==> c & 0x2_0000 != 0
    ensures HalfByte(c) & 4 != 0 <==> c & 0x40_0000 != 0
    ensures HalfByte(c) & 8 != 0 <==> c & 0x100_0000 != 0
  {
  }

  /** Gathers the half byte from the register, bit by bit. */
  method ReadHalfByte(c: bv32) returns (r: bv8)
    ensures r == HalfByte(c) && r < 16
    ensures r & 1 != 0 <==> c & 0x80 != 0
    ensures r & 2 != 0 <==> c & 0x2_0000 != 0
    ensures r & 4 != 0 <==> c & 0x40_0000 != 0
    ensures r & 8 != 0 <==> c & 0x100_0000 != 0
  {
    PinBits(c);
    r := 0;
    if c & PIN0 != 0 { r := r | 1; }
    if c & PIN1 != 0 { r := r | 2; }
    if c & PIN2 != 0 { r := r | 4; }
    if c & PIN3 != 0 { r := r | 8; }
  }

  /** The register while the device sends `h`; every other pin shows `noise`. */
  function Pins(h: bv8, noise: bv32): bv32 {
    (noise & !(PIN0 | PIN1 | PIN2 | PIN3))
    | (if h & 1 != 0 then PIN0 else 0) | (if h & 2 != 0 then PIN1 else 0)
    | (if h & 4 != 0 then PIN2 else 0) | (if h & 8 != 0 then PIN3 else 0)
  }

  /** The device raises the same four lines, and leaves the others alone. */
  lemma PinLines(h: bv8, noise: bv32)
    ensures Pins(h, noise) & 0x80 != 0 <==> h & 1 != 0
    ensures Pins(h, noise) & 0x2_0000 != 0 <==> h & 2 != 0
    ensures Pins(h, noise) & 0x40_0000 != 0 <==> h & 4 != 0
    ensures Pins(h, noise) & 0x100_0000 != 0 <==> h & 8 != 0
    ensures Pins(h, noise) & 0xfebd_ff7f == noise & 0xfebd_ff7f
  {
    Lines(noise, if h & 1 != 0 then PIN0 else 0, if h & 2 != 0 then PIN1 else 0,
          if h & 4 != 0 then PIN2 else 0, if h & 8 != 0 then PIN3 else 0);
  }

  lemma Lines(noise: bv32, a: bv32, b: bv32, c: bv32, d: bv32)
    requires (a == 0 || a == PIN0) && (b == 0 || b == PIN1) && (c == 0 || c == PIN2) && (d == 0 || d == PIN3)
    ensures var r := (noise & !(PIN0 | PIN1 | PIN2 | PIN3)) | a | b | c | d;
            && r & 0x80 == a && r & 0x2_0000 == b && r & 0x40_0000 == c && r & 0x100_0000 == d
            && r & 0xfebd_ff7f == noise & 0xfebd_ff7f
  {
  }

  lemma PinsCarryHalfByte(h: bv8, noise: bv32)
    requires h < 16
    ensures HalfByte(Pins(h, noise)) == h
  {
    var c := Pins(h, noise);
    assert (c & PIN0 != 0) == (h & 1 != 0);
    assert (c & PIN1 != 0) == (h & 2 != 0);
    assert (c & PIN2 != 0) == (h & 4 != 0);
    assert (c & PIN3 != 0) == (h & 8 != 0);
  }

  function High(b: byte): bv8 {
    (b as bv8) >> 4
  }

  function Low(b: byte): bv8 {
    (b as bv8) & 15
  }

  /** The byte put together from two samples. */
  function Combine(c: bv32, d: bv32): byte {
    ((HalfByte(c) << 4) | HalfByte(d)) as byte
  }

  /** The first sample is the high half. */
  lemma HighHalfFirst(c: bv32, d: bv32)
    ensures Combine(c, d) as int == 16 * (HalfByte(c) as int) + (HalfByte(d) as int)
  {
    PinBits(c);
    PinBits(d);
    hide HalfByte;
    JoinHalfBytes(HalfByte(c), HalfByte(d));
  }

  lemma JoinHalfBytes(h: bv8, l: bv8)
    requires h < 16 && l < 16
    ensures ((h << 4) | l) as int == 16 * (h as int) + (l as int)
  {
    assert (h << 4) | l == 16 * h + l;
    assert h as int < 16 && l as int < 16;
  }

  /** A byte sent as two half bytes is put together again. */
  lemma Halves(b: byte, noise: bv32, noise2: bv32)
    ensures Combine(Pins(High(b), noise), Pins(Low(b), noise2)) == b
  {
    PinsCarryHalfByte(High(b), noise);
    PinsCarryHalfByte(Low(b), noise2);
    var x := b as bv8;
    assert ((x >> 4) << 4) | (x & 15) == x;
    assert x as byte == b;
  }

  /** The half byte sent as the i-th sample. */
  function Half(bytes: seq<byte>, i: nat): bv8
    requires i < 2 * |bytes|
  {
    if i % 2 == 0 then High(bytes[i / 2]) else Low(bytes[i / 2])
  }

  /** The samples the device presents for `bytes`. */
  function Encode(bytes: seq<byte>, noise: seq<bv32>): seq<bv32>
    requires |noise| == 2 * |bytes|
  {
    seq(2 * |bytes|, i requires 0 <= i < 2 * |bytes| => Pins(Half(bytes, i), noise[i]))
  }

  /** The bytes that a sequence of samples completes. */
  function Bytes(samples: seq<bv32>): (r: seq<byte>)
    ensures |r| == |samples| / 2
  {
    seq(|samples| / 2, i requires 0 <= i < |samples| / 2 => Combine(samples[2 * i], samples[2 * i + 1]))
  }

  /** A first half completes nothing, a second half completes one byte. */
  lemma BytesAppend(samples: seq<bv32>, c: bv32)
    ensures |samples| % 2 == 0 ==> Bytes(samples + [c]) == Bytes(samples)
    ensures |samples| % 2 == 1 ==>
              Bytes(samples + [c]) == Bytes(samples) + [Combine(samples[|samples| - 1], c)]
  {
    var n := |samples| / 2;
    assert |samples| % 2 == 1 ==> |samples| == 2 * n + 1;
    assert forall i | 0 <= i < n :: (samples + [c])[2 * i] == samples[2 * i]
                                    && (samples + [c])[2 * i + 1] == samples[2 * i + 1];
  }

  lemma BytesOfEncode(bytes: seq<byte>, noise: seq<bv32>)
    requires |noise| == 2 * |bytes|
    ensures Bytes(Encode(bytes, noise)) == bytes
  {
    hide Combine, Pins, High, Low;
    forall i | 0 <= i < |bytes|
      ensures Bytes(Encode(bytes, noise))[i] == bytes[i]
    {
      assert Half(bytes, 2 * i) == High(bytes[i]) && Half(bytes, 2 * i + 1) == Low(bytes[i]);
      Halves(bytes[i], noise[2 * i], noise[2 * i + 1]);
    }
  }

  // ----- files on the byte stream ----------------------------------------

  datatype Files = Files(closed: seq<seq<byte>>, open: seq<byte>)

  /** The files of a stream: a NUL closes one, other bytes belong to it. */
  function Split(bytes: seq<byte>): Files {
    if bytes == [] then Files([], [])
    else
      var f, b := Split(bytes[..|bytes| - 1]), bytes[|bytes| - 1];
      if b == 0 then Files(f.closed + [f.open], []) else f.(open := f.open + [b])
  }

  /** The stream of a list of files. */
  function Frame(files: seq<seq<byte>>): seq<byte> {
    if files == [] then [] else Frame(files[..|files| - 1]) + files[|files| - 1] + [0]
  }

  predicate NulFree(file: seq<byte>) {
    forall i | 0 <= i < |file| :: file[i] != 0
  }

  lemma SplitAppend(bytes: seq<byte>, b: byte)
    ensures var f := Split(bytes);
            Split(bytes + [b]) == if b == 0 then Files(f.closed + [f.open], []) else Files(f.closed, f.open + [b])
  {
    assert (bytes + [b])[..|bytes|] == bytes;
  }

  lemma FrameAppend(files: seq<seq<byte>>, file: seq<byte>)
    ensures Frame(files + [file]) == Frame(files) + file + [0]
  {
    assert (files + [file])[..|files|] == files;
  }

  lemma {:induction false} SplitClean(bytes: seq<byte>, file: seq<byte>)
    requires NulFree(file)
    ensures Split(bytes + file) == Files(Split(bytes).closed, Split(bytes).open + file)
  {
    hide Split;
    if file == [] {
      assert bytes + file == bytes;
      assert Split(bytes).open + file == Split(bytes).open;
    } else {
      var init, b := file[..|file| - 1], file[|file| - 1];
      SplitClean(bytes, init);
      SplitAppend(bytes + init, b);
      assert bytes + file == (bytes + init) + [b];
      assert (Split(bytes).open + init) + [b] == Split(bytes).open + file;
    }
  }

  lemma {:induction false} SplitOfFrame(files: seq<seq<byte>>)
    requires forall f <- files :: NulFree(f)
    ensures Split(Frame(files)) == Files(files, [])
  {
    if files != [] {
      var n := |files| - 1;
      SplitOfFrame(files[..n]);
      SplitClean(Frame(files[..n]), files[n]);
      SplitAppend(Frame(files[..n]) + files[n], 0);
      assert [] + files[n] == files[n];
      assert files[..n] + [files[n]] == files;
      assert Frame(files) == Frame(files[..n]) + files[n] + [0];
    }
  }

  /** Splitting loses nothing: framing the closed files again and adding the
      open one gives the stream, so no other split is possible. */
  lemma {:induction false} FrameOfSplit(bytes: seq<byte>)
    ensures Frame(Split(bytes).closed) + Split(bytes).open == bytes
    ensures NulFree(Split(bytes).open) && forall f <- Split(bytes).closed :: NulFree(f)
  {
    if bytes != [] {
      var n := |bytes| - 1;
      FrameOfSplit(bytes[..n]);
      var f := Split(bytes[..n]);
      assert bytes == bytes[..n] + [bytes[n]];
      SplitAppend(bytes[..n], bytes[n]);
      if bytes[n] == 0 {
        FrameAppend(f.closed, f.open);
      }
    }
  }

  /** Files sent over the wire come back exactly, whatever the other pins
      show. */
  lemma WireRoundTrip(files: seq<seq<byte>>, noise: seq<bv32>)
    requires forall f <- files :: NulFree(f)
    requires |noise| == 2 * |Frame(files)|
    ensures Split(Bytes(Encode(Frame(files), noise))) == Files(files, [])
  {
    BytesOfEncode(Frame(files), noise);
    SplitOfFrame(files);
  }
}
