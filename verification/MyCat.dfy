/** The lab's `cat`: copies a file to standard output in chunks of at most 100
    bytes, coping with short and interrupted calls. */
module MyCat {
  import opened Machine

  const BUFFER_SIZE := 100

  /** What the program sees of the system.  A read returns any positive part
      of what is left; a write accepts any positive part of what it is given;
      either may fail. */
  class Environment {
    var input: seq<byte>       // not yet read
    var output: seq<byte>      // written so far
    var patience: nat          // how many more reads will be interrupted
    ghost var failures: nat    // writes that returned -1
    ghost var readFailed: bool // a read has failed for good

    constructor (input: seq<byte>, patience: nat)
      ensures this.input == input && output == [] && this.patience == patience && failures == 0 && !readFailed
    {
      this.input, this.output, this.patience := input, [], patience;
      failures, readFailed := 0, false;
    }

    /** Returns -1 on failure, with `eintr` telling an interruption. */
    method Read(max: nat) returns (size: int, data: seq<byte>, eintr: bool)
      requires 0 < max
      modifies this
      ensures output == old(output) && failures == old(failures)
      ensures size == -1 || 0 <= size <= max
      ensures size >= 0 ==> |data| == size && data + input == old(input) && patience == old(patience)
      ensures size == 0 ==> input == []
      ensures size < 0 ==> data == [] && input == old(input)
      ensures patience <= old(patience) && (size < 0 && eintr ==> patience < old(patience))
      ensures readFailed <==> old(readFailed) || (size < 0 && !eintr)
    {
      var interrupt: bool, fail: bool := *, *;
      if fail {
        readFailed := true;
        return -1, [], false;
      }
      if interrupt && patience > 0 {
        patience := patience - 1;
        return -1, [], true;
      }
      if input == [] {
        return 0, [], false;
      }
      var k: nat :| 1 <= k <= max && k <= |input|;
      data := input[..k];
      input := input[k..];
      size, eintr := k, false;
    }

    method Write(data: seq<byte>) returns (size: int)
      requires data != []
      modifies this
      ensures input == old(input) && patience == old(patience) && readFailed == old(readFailed)
      ensures size == -1 || 0 < size <= |data|
      ensures size > 0 ==> output == old(output) + data[..size] && failures == old(failures)
      ensures size < 0 ==> output == old(output) && failures == old(failures) + 1
    {
      var fail: bool := *;
      if fail {
        failures := failures + 1;
        return -1;
      }
      var k: nat :| 1 <= k <= |data|;
      output := output + data[..k];
      size := k;
    }
  }

  /** The account kept through the program: `lost` bytes of what was read have
      not been and will not be written, at least one for each failed write, and
      without failures the output, the bytes still in the buffer and the input
      not yet read make up the whole file. */
  ghost predicate Account(whole: seq<byte>, env: Environment, pending: seq<byte>, lost: nat)
    reads env
  {
    && |env.output| + lost + |pending| + |env.input| == |whole|
    && lost >= env.failures
    && (env.failures == 0 ==> env.output + pending + env.input == whole)
  }

  /** The exit is normal exactly when no read failed: a failed write does not
      change it.  On normal exit the output is the input exactly when no write
      failed: the inner loop compares an `int` with a `size_t`, so that -1 passes
      for a complete write and the rest of the chunk is dropped. */
  method Cat(env: Environment) returns (ok: bool)
    requires env.output == [] && env.failures == 0 && !env.readFailed
    modifies env
    ensures ok <==> !env.readFailed
    ensures ok ==> env.input == [] && (env.output == old(env.input) <==> env.failures == 0)
    ensures env.failures == 0 ==> env.output <= old(env.input)
  {
    ghost var whole, lost := env.input, 0;
    assert env.output + [] + env.input == whole;
    while true
      invariant Account(whole, env, [], lost) && !env.readFailed
      decreases |env.input|, env.patience
    {
      ghost var left, patience := |env.input|, env.patience;
      var size, buffer, eintr := env.Read(BUFFER_SIZE);
      while size > 0
        invariant size == -1 || size == |buffer| <= BUFFER_SIZE
        invariant size == 0 ==> env.input == []
        invariant env.readFailed <==> size < 0 && !eintr
        invariant Account(whole, env, buffer, lost)
        invariant |env.input| <= left && env.patience <= patience
        invariant size > 0 ==> |env.input| < left
        invariant size < 0 ==> buffer == [] && (eintr ==> |env.input| < left || env.patience < patience)
        decreases |env.input| + |buffer|
      {
        lost := CopyOut(env, buffer, whole, lost);
        assert env.output + [] + env.input == env.output + env.input;
        size, buffer, eintr := env.Read(BUFFER_SIZE);
      }
      if size < 0 {
        if eintr {
          continue;
        }
        return false;
      }
      return true;
    }
  }

  /** The inner loop: writes one chunk. */
  method CopyOut(env: Environment, buffer: seq<byte>, ghost whole: seq<byte>, ghost lostBefore: nat)
    returns (ghost lost: nat)
    requires 0 < |buffer| <= BUFFER_SIZE && Account(whole, env, buffer, lostBefore)
    modifies env
    ensures env.input == old(env.input) && env.patience == old(env.patience)
    ensures env.readFailed == old(env.readFailed)
    ensures Account(whole, env, [], lost)
  {
    var remaining, written := |buffer|, 0;
    lost := lostBefore;
    assert buffer[written..written + remaining] == buffer;
    var size := env.Write(buffer[written..written + remaining]);
    while U32(size) < remaining
      invariant written + remaining == |buffer| && remaining > 0
      invariant size == -1 || 0 < size <= remaining
      invariant env.input == old(env.input) && env.patience == old(env.patience)
      invariant env.readFailed == old(env.readFailed)
      invariant size > 0 ==> Account(whole, env, buffer[written + size..], lost)
      invariant size < 0 ==> env.failures > 0 && Account(whole, env, [], lost + remaining)
      decreases remaining
    {
      assert size >= 0;  // the error branch of the loop is never taken
      written := written + size;
      remaining := remaining - size;
      assert buffer[written..written + remaining] == buffer[written..];
      size := env.Write(buffer[written..written + remaining]);
    }
    if size < 0 {
      lost := lost + remaining;
    } else {
      assert buffer[written + size..] == [];
    }
  }
}
