/**
 pipe.c: a ring of PIPESIZE bytes whose 32-bit counters wrap. The pipe's lock is given up only in
 sleep, so any interleaving of readers and writers is a sequence of calls of the methods below.
 */
module Pipe {

  const PIPESIZE := 512
  const TWO32 := 0x1_0000_0000

  type byte = x: int | 0 <= x < 256
  type uint = x: int | 0 <= x < 0x1_0000_0000

  // ---- The ring ----------------------------------------------------------------------------

  // nwrite - nread in unsigned arithmetic.
  function Count(nread: uint, nwrite: uint): (c: nat)
    ensures c < TWO32
  {
    (nwrite - nread) % TWO32
  }

  // The bytes in the ring, oldest first: byte k is where the k-th next read will look for it.
  function Contents(data: seq<byte>, nread: uint, nwrite: uint): (s: seq<byte>)
    requires |data| == PIPESIZE
    ensures |s| == Count(nread, nwrite)
  {
    seq(Count(nread, nwrite), k requires k >= 0 => data[(nread + k) % TWO32 % PIPESIZE])
  }

  // PIPESIZE divides 2^32, so a wrapping counter still goes round the ring.
  lemma WrapIsHarmless(r: int, k: int)
    ensures (r + k) % TWO32 % PIPESIZE == (r + k) % PIPESIZE
  {
    var q := (r + k) / TWO32;
    assert r + k == q * 0x80_0000 * PIPESIZE + (r + k) % TWO32;
  }

  // The slot of the next byte is not in use while the ring is not full.
  lemma SlotIsFree(nread: uint, nwrite: uint, k: int)
    requires 0 <= k < Count(nread, nwrite) < PIPESIZE
    ensures (nread + k) % TWO32 % PIPESIZE != nwrite % PIPESIZE
  {
    var c := Count(nread, nwrite);
    WriteIs(nread, nwrite);
    WrapIsHarmless(nread, k);
    WrapIsHarmless(nread, c);
    ModsDiffer(nread + k, nread + c);
  }

  lemma WriteIs(nread: uint, nwrite: uint)
    ensures (nread + Count(nread, nwrite)) % TWO32 == nwrite
  {
  }

  lemma ModsDiffer(a: int, b: int)
    requires 0 < b - a < PIPESIZE
    ensures a % PIPESIZE != b % PIPESIZE
  {
  }

  lemma Push(data: seq<byte>, nread: uint, nwrite: uint, b: byte)
    requires |data| == PIPESIZE && Count(nread, nwrite) < PIPESIZE
    ensures Count(nread, (nwrite + 1) % TWO32) == Count(nread, nwrite) + 1
    ensures Contents(data[nwrite % PIPESIZE := b], nread, (nwrite + 1) % TWO32) == Contents(data, nread, nwrite) + [b]
  {
    var c, data' := Count(nread, nwrite), data[nwrite % PIPESIZE := b];
    assert Count(nread, (nwrite + 1) % TWO32) == c + 1;
    var s := Contents(data', nread, (nwrite + 1) % TWO32);
    forall k | 0 <= k < c
      ensures s[k] == Contents(data, nread, nwrite)[k]
    {
      SlotIsFree(nread, nwrite, k);
    }
    WriteIs(nread, nwrite);
  }

  lemma Pop(data: seq<byte>, nread: uint, nwrite: uint)
    requires |data| == PIPESIZE && nread != nwrite
    ensures Count(nread, nwrite) > 0 && Count((nread + 1) % TWO32, nwrite) == Count(nread, nwrite) - 1
    ensures Contents(data, nread, nwrite) == [data[nread % PIPESIZE]] + Contents(data, (nread + 1) % TWO32, nwrite)
  {
    var c, s, t := Count(nread, nwrite), Contents(data, nread, nwrite), Contents(data, (nread + 1) % TWO32, nwrite);
    assert Count((nread + 1) % TWO32, nwrite) == c - 1;
    forall k | 0 <= k < c - 1
      ensures t[k] == s[k + 1]
    {
      assert ((nread + 1) % TWO32 + k) % TWO32 == (nread + (k + 1)) % TWO32;
    }
  }

  // pipewrite's test for a full ring, with the sum wrapping as it does in C.
  lemma FullIff(nread: uint, nwrite: uint)
    requires Count(nread, nwrite) <= PIPESIZE
    ensures nwrite == (nread + PIPESIZE) % TWO32 <==> Count(nread, nwrite) == PIPESIZE
    ensures nwrite == nread <==> Count(nread, nwrite) == 0
  {
  }

  // ---- The pipe ---------------------------------------------------------------------------------

  // How a step of a reader or writer ends: it returns, or it sleeps to be run again from there.
  datatype Outcome = Done | Asleep | Failed

  class Pipe {
    var data: array<byte>
    var nread: uint
    var nwrite: uint
    var readopen: bool
    var writeopen: bool
    ghost var accepted: seq<byte>    // every byte a writer has put in
    ghost var delivered: seq<byte>   // every byte a reader has got
    ghost var readers: set<int>      // processes asleep on &nread
    ghost var writers: set<int>      // processes asleep on &nwrite

    ghost predicate Valid()
      reads this, data
    {
      && data.Length == PIPESIZE && Count(nread, nwrite) <= PIPESIZE
      && accepted == delivered + Contents(data[..], nread, nwrite)
    }

    // Nobody sleeps who could go on.
    ghost predicate NoneStuck()
      reads this
    {
      && (readers != {} ==> Count(nread, nwrite) == 0 && writeopen)
      && (writers != {} ==> Count(nread, nwrite) == PIPESIZE && readopen)
    }

    constructor ()
      ensures Valid() && fresh(data) && readopen && writeopen && nread == nwrite
      ensures accepted == [] && readers == {} && writers == {}
    {
      data := new byte[PIPESIZE](_ => 0);
      nread, nwrite, readopen, writeopen := 0, 0, true, true;
      accepted, delivered, readers, writers := [], [], {}, {};
    }

    // pipewrite of bytes from index i on, until it returns or sleeps.
    method Pipewrite(pid: int, addr: seq<byte>, i: nat, killed: bool) returns (o: Outcome, i': nat)
      requires Valid() && i <= |addr|
      modifies this, data
      ensures Valid() && data == old(data) && nread == old(nread)
      ensures delivered == old(delivered) && readopen == old(readopen) && writeopen == old(writeopen)
      ensures i <= i' <= |addr| && accepted == old(accepted) + addr[i..i']
      ensures o.Done? <==> i' == |addr|
      ensures o.Failed? <==> i' < |addr| && (!readopen || killed)
      ensures !o.Done? ==> Count(nread, nwrite) == PIPESIZE
      ensures readers == (if o.Failed? then old(readers) else {})
      ensures writers == (if o.Asleep? then old(writers) + {pid} else old(writers))
      ensures old(NoneStuck()) ==>
                (NoneStuck() <==> !(old(readers) != {} && |addr| - i > PIPESIZE - old(Count(nread, nwrite)) &&
                                    (killed || !old(readopen))))
    {
      i' := i;
      while i' < |addr|
        invariant Valid() && data == old(data) && nread == old(nread)
        invariant delivered == old(delivered) && readopen == old(readopen) && writeopen == old(writeopen)
        invariant i <= i' <= |addr| && accepted == old(accepted) + addr[i..i']
        invariant Count(nread, nwrite) == Count(nread, old(nwrite)) + i' - i
        invariant readers == old(readers) && writers == old(writers)
      {
        FullIff(nread, nwrite);
        if nwrite == (nread + PIPESIZE) % TWO32 {
          if !readopen || killed {
            return Failed, i';
          }
          readers := {};
          writers := writers + {pid};
          return Asleep, i';
        }
        Put(addr[i']);
        i' := i' + 1;
      }
      readers := {};
      o := Done;
    }

    method Put(b: byte)
      requires Valid() && Count(nread, nwrite) < PIPESIZE
      modifies data, `nwrite, `accepted
      ensures Valid() && accepted == old(accepted) + [b] && Count(nread, nwrite) == Count(nread, old(nwrite)) + 1
    {
      hide Contents;
      Push(data[..], nread, nwrite, b);
      ghost var was := data[..];
      data[nwrite % PIPESIZE] := b;
      assert data[..] == was[nwrite % PIPESIZE := b];
      nwrite := (nwrite + 1) % TWO32;
      accepted := accepted + [b];
    }

    // piperead of at most n bytes, until it returns or sleeps.
    method Piperead(pid: int, n: int, killed: bool) returns (o: Outcome, got: seq<byte>)
      requires Valid()
      modifies `nread, `delivered, `readers, `writers
      ensures Valid() && delivered == old(delivered) + got
      ensures old(nread) == nwrite && writeopen ==> got == [] && o == if killed then Failed else Asleep
      ensures old(nread) != nwrite || !writeopen ==>
                var c := old(Count(nread, nwrite)); o.Done? && |got| == if n <= 0 then 0 else if n < c then n else c
      ensures readers == (if o.Asleep? then old(readers) + {pid} else old(readers))
      ensures writers == (if o.Done? then {} else old(writers))
      ensures old(NoneStuck()) ==> NoneStuck()
    {
      got := [];
      FullIff(nread, nwrite);
      if nread == nwrite && writeopen {
        if killed {
          return Failed, got;
        }
        readers := readers + {pid};
        return Asleep, got;
      }
      var i := 0;
      while i < n
        invariant 0 <= i && (i <= n || i == 0) && |got| == i && Valid() && delivered == old(delivered) + got
        invariant Count(nread, nwrite) == old(Count(nread, nwrite)) - i
        invariant readers == old(readers)
        decreases n - i
      {
        FullIff(nread, nwrite);
        if nread == nwrite {
          break;
        }
        var b := Get();
        got := got + [b];
        i := i + 1;
      }
      writers := {};
      o := Done;
    }

    method Get() returns (b: byte)
      requires Valid() && nread != nwrite
      modifies `nread, `delivered
      ensures Valid() && delivered == old(delivered) + [b] && Count(nread, nwrite) == old(Count(nread, nwrite)) - 1
    {
      hide Contents;
      Pop(data[..], nread, nwrite);
      b := data[nread % PIPESIZE];
      nread := (nread + 1) % TWO32;
      delivered := delivered + [b];
    }

    // Closes one end; true if the pipe is given back.
    method Pipeclose(writable: bool) returns (freed: bool)
      requires Valid()
      modifies `readopen, `writeopen, `readers, `writers
      ensures Valid() && accepted == old(accepted)
      ensures readopen == (old(readopen) && writable) && writeopen == (old(writeopen) && !writable)
      ensures readers == (if writable then {} else old(readers)) && writers == (if writable then old(writers) else {})
      ensures freed <==> !readopen && !writeopen
      ensures old(NoneStuck()) ==> NoneStuck()
    {
      if writable {
        writeopen := false;
        readers := {};
      } else {
        readopen := false;
        writers := {};
      }
      freed := !readopen && !writeopen;
    }
  }

  // A reader goes to sleep on an empty pipe; a process that has been killed then writes one byte
  // more than the ring holds. It returns early without a wakeup, and the reader sleeps beside a
  // full ring.
  method StrandedReader(pid: int, addr: seq<byte>) returns (p: Pipe)
    requires |addr| == PIPESIZE + 1
    ensures fresh(p) && p.Valid() && p.readopen && p.writeopen
    ensures p.readers == {pid} && Count(p.nread, p.nwrite) == PIPESIZE && !p.NoneStuck()
  {
    p := new Pipe();
    var o, got := p.Piperead(pid, 1, false);
    assert p.NoneStuck();
    var o', i := p.Pipewrite(pid + 1, addr, 0, true);
    assert o'.Failed?;
  }
}
