/**
 src/buffer.inc.c: the fixed-size write buffer in front of a file descriptor.
 A write may stop early at any point. The system counts the calls it fails, and an
 operation reports success exactly when none of its own failed.
 */
module Buffers {
  import opened Bytes

  /** What a descriptor opened with truncation holds after writing `bs` at `at`;
      bytes skipped over by a seek read as zero. */
  function WriteAt(data: seq<byte>, at: nat, bs: seq<byte>): seq<byte> {
    if bs == [] then data
    else if at < |data| then
      data[..at] + bs + if at + |bs| <= |data| then data[at + |bs|..] else []
    else data + seq(at - |data|, _ => 0) + bs
  }

  /** The file is being written front to back, starting at `base`. */
  predicate Streaming(data: seq<byte>, at: nat, base: nat) {
    (data == [] && at == base) || (|data| == at && base <= at)
  }

  /** What the stream has put into the file so far. */
  function Streamed(data: seq<byte>, base: nat): seq<byte> {
    if |data| <= base then [] else data[base..]
  }

  lemma StreamWrite(data: seq<byte>, at: nat, base: nat, bs: seq<byte>)
    requires Streaming(data, at, base)
    ensures Streaming(WriteAt(data, at, bs), at + |bs|, base)
    ensures Streamed(WriteAt(data, at, bs), base) == Streamed(data, base) + bs
  {
  }

  /** What a program asks for and may be denied. */
  class System {
    ghost var faults: nat   // calls that failed, writes that were short, allocations that were refused

    constructor ()
      ensures faults == 0
    {
      faults := 0;
    }

    /** A call that succeeds or not. */
    method Try() returns (ok: bool)
      modifies this
      ensures faults == old(faults) + if ok then 0 else 1
    {
      ok := *;
      if !ok {
        faults := faults + 1;
      }
    }
  }

  class OutFile {
    const sys: System
    var data: seq<byte>
    var at: nat

    /** A file just opened with truncation. */
    constructor (sys: System)
      ensures data == [] && at == 0 && this.sys == sys
    {
      this.sys, data, at := sys, [], 0;
    }

    /** `seek_set`; the call may fail and then moves nothing. */
    method Seek(pos: nat) returns (ok: bool)
      modifies `at, sys
      ensures at == if ok then pos else old(at)
      ensures sys.faults == old(sys.faults) + if ok then 0 else 1
    {
      ok := sys.Try();
      if ok {
        at := pos;
      }
    }

    /** One `write` call, which may be short. */
    method Write(buf: seq<byte>) returns (w: nat)
      modifies this, sys
      ensures w <= |buf| && sys.faults == old(sys.faults) + if w < |buf| then 1 else 0
      ensures data == WriteAt(old(data), old(at), buf[..w]) && at == old(at) + w
    {
      w := |buf|;
      if buf != [] {
        var whole := sys.Try();
        if !whole {
          w :| 0 <= w < |buf|;
        }
      }
      data := WriteAt(data, at, buf[..w]);
      at := at + w;
    }
  }

  class Buffer {
    const x: array<byte>
    const file: OutFile
    var p: nat

    ghost predicate Valid()
      reads this
    {
      p <= x.Length && x.Length > 0
    }

    /** Everything put so far, flushed or not, after the first `base` bytes. */
    ghost function Out(base: nat): seq<byte>
      requires Valid()
      reads this, x, file
    {
      Streamed(file.data, base) + x[..p]
    }

    /** `buffer_initialize`. */
    constructor (file: OutFile, n: nat)
      requires n > 0
      ensures Valid() && this.file == file && fresh(x) && p == 0 && x.Length == n
    {
      this.file, x, p := file, new byte[n](_ => 0), 0;
    }

    /** `allwrite`: anything short of the whole block is a failure. */
    method AllWrite(buf: seq<byte>) returns (ok: bool)
      modifies file, file.sys
      ensures old(file.sys.faults) <= file.sys.faults && (ok <==> file.sys.faults == old(file.sys.faults))
      ensures ok ==> file.data == WriteAt(old(file.data), old(file.at), buf) && file.at == old(file.at) + |buf|
    {
      ok := true;
      if |buf| > 0 {
        var w := file.Write(buf);
        ok := w == |buf|;
        assert buf[..|buf|] == buf;
      }
    }

    /** `buffer_flush`. */
    method Flush() returns (ok: bool)
      requires Valid()
      modifies `p, file, file.sys
      ensures Valid() && p == 0
      ensures old(file.sys.faults) <= file.sys.faults && (ok <==> file.sys.faults == old(file.sys.faults))
      ensures ok ==> file.data == WriteAt(old(file.data), old(file.at), old(x[..p])) && file.at == old(file.at) + old(p)
    {
      var n := p;
      p := 0;
      if n == 0 {
        return true;
      }
      ok := AllWrite(x[..n]);
    }

    /** Flushing moves bytes to the file and changes nothing of what was put. */
    method FlushStream(ghost base: nat) returns (ok: bool)
      requires Valid() && Streaming(file.data, file.at, base)
      modifies `p, file, file.sys
      ensures Valid() && p == 0
      ensures old(file.sys.faults) <= file.sys.faults && (ok <==> file.sys.faults == old(file.sys.faults))
      ensures ok ==> Streaming(file.data, file.at, base) && Out(base) == old(Out(base)) == Streamed(file.data, base)
    {
      StreamWrite(file.data, file.at, base, x[..p]);
      ok := Flush();
    }

    /** Copies `buf` behind what the buffer holds. */
    method Copy(buf: seq<byte>, ghost base: nat)
      requires Valid() && p + |buf| <= x.Length
      modifies `p, x
      ensures Valid() && p == old(p) + |buf|
      ensures Out(base) == old(Out(base)) + buf
    {
      ghost var before := x[..p];
      forall k | 0 <= k < |buf| {
        x[p + k] := buf[k];
      }
      p := p + |buf|;
      assert x[..p] == before + buf;
      Assoc(Streamed(file.data, base), before, buf);
    }

    /** `buffer_putalign`: the whole of `buf` follows everything put before. */
    method PutAlign(buf: seq<byte>, ghost base: nat) returns (ok: bool)
      requires Valid() && Streaming(file.data, file.at, base)
      modifies `p, x, file, file.sys
      ensures Valid()
      ensures old(file.sys.faults) <= file.sys.faults && (ok <==> file.sys.faults == old(file.sys.faults))
      ensures ok ==> Streaming(file.data, file.at, base) && Out(base) == old(Out(base)) + buf
    {
      hide Streamed, Streaming, Out;
      var rest := buf;
      while |rest| > 0 && x.Length - p < |rest|
        invariant Valid() && Streaming(file.data, file.at, base) && file.sys.faults == old(file.sys.faults)
        invariant Out(base) + rest == old(Out(base)) + buf
        decreases |rest|, p
      {
        var n := x.Length - p;
        Assoc(Out(base), rest[..n], rest[n..]);
        assert rest == rest[..n] + rest[n..];
        Copy(rest[..n], base);
        rest := rest[n..];
        ok := FlushStream(base);
        if !ok {
          return;
        }
      }
      if |rest| > 0 {
        Copy(rest, base);
      }
      ok := true;
    }

    /** `buffer_putflush`: flush, then write past the buffer. */
    method PutFlush(buf: seq<byte>) returns (ok: bool)
      requires Valid()
      modifies `p, file, file.sys
      ensures Valid() && p == 0
      ensures old(file.sys.faults) <= file.sys.faults && (ok <==> file.sys.faults == old(file.sys.faults))
      ensures ok ==> file.data == WriteAt(WriteAt(old(file.data), old(file.at), old(x[..p])), old(file.at) + old(p),
                                          buf)
    {
      ok := Flush();
      if ok {
        ok := AllWrite(buf);
      }
    }
  }
}
