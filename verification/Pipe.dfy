/** Pipes (pipe.c).

    Each method is what pipewrite or piperead does from the moment it holds the pipe's lock until it
    sleeps or returns; sleeping gives up the lock in the same step. Any interleaving of readers,
    writers, closes and kills is thus a sequence of calls. */
module Pipe {
  import opened Prelude

  const PIPESIZE: nat := 512
  const WRAP: nat := 0x1_0000_0000

  datatype WriteResult = Wrote | WriteFailed | WriterSlept(next: nat)
  datatype ReadResult = Got(bytes: seq<Byte>) | ReadFailed | ReaderSlept

  /** The source's test for a full pipe, in 32-bit arithmetic, is exact however often the counters
      have wrapped around. */
  lemma FullTestIsExact(total: nat, taken: nat)
    requires taken <= total <= taken + PIPESIZE
    ensures total % WRAP == (taken % WRAP + PIPESIZE) % WRAP <==> total == taken + PIPESIZE
    ensures total % WRAP == taken % WRAP <==> total == taken
  {
  }

  /** A counter that wraps at 2^32 still indexes the buffer as the true count would. */
  lemma WrapKeepsSlot(count: nat)
    ensures count % WRAP % PIPESIZE == count % PIPESIZE
    ensures (count % WRAP + 1) % WRAP == (count + 1) % WRAP
  {
  }

  class Pipe {
    const data: array<Byte>
    var nread: Word
    var nwrite: Word
    var readopen: bool
    var writeopen: bool
    /** Every byte ever written, and how many of them have been read. */
    ghost var written: seq<Byte>
    ghost var taken: nat
    /** Processes asleep on &nread and on &nwrite. */
    ghost var readers: set<nat>
    ghost var writers: set<nat>

    /** The bytes in the buffer are the ones written and not yet read, in order. */
    ghost predicate Valid()
      reads this, data
    {
      && data.Length == PIPESIZE
      && taken <= |written| <= taken + PIPESIZE
      && nwrite == |written| % WRAP && nread == taken % WRAP
      && (forall k :: taken <= k < |written| ==> data[k % PIPESIZE] == written[k])
      && (readers != {} ==> readopen) && (writers != {} ==> writeopen)
    }

    /** Nobody sleeps through what they are waiting for. */
    ghost predicate NobodyStranded()
      reads this
    {
      && (readers != {} ==> taken == |written| && writeopen)
      && (writers != {} ==> |written| == taken + PIPESIZE && readopen)
    }

    constructor ()
      ensures Valid() && NobodyStranded() && fresh(data)
      ensures written == [] && taken == 0 && readopen && writeopen && readers == {} && writers == {}
    {
      data := new Byte[PIPESIZE](_ => 0);
      nread, nwrite, readopen, writeopen := 0, 0, true, true;
      written, taken, readers, writers := [], 0, {}, {};
    }

    /** p->data[p->nwrite++ % PIPESIZE] = c */
    method Store(c: Byte)
      requires Valid() && |written| < taken + PIPESIZE
      modifies this`nwrite, this`written, data
      ensures written == old(written) + [c]
      ensures Valid()
    {
      WrapKeepsSlot(|written|);
      data[nwrite % PIPESIZE] := c;
      nwrite := (nwrite + 1) % WRAP;
      written := written + [c];
      forall k | taken <= k < |written| ensures data[k % PIPESIZE] == written[k] {
        if k < |written| - 1 {
          SlotsDiffer(k, |written| - 1);
        }
      }
    }

    /** p->nwrite == p->nread + PIPESIZE */
    method IsFull() returns (full: bool)
      requires Valid()
      ensures full <==> |written| == taken + PIPESIZE
      ensures |written| <= taken + PIPESIZE
    {
      FullTestIsExact(|written|, taken);
      full := nwrite == (nread + PIPESIZE) % WRAP;
    }

    /** p->nread == p->nwrite */
    method IsEmpty() returns (empty: bool)
      requires Valid()
      ensures empty <==> |written| == taken
      ensures taken <= |written|
    {
      FullTestIsExact(|written|, taken);
      empty := nread == nwrite;
    }

    /** wakeup(&p->nread) and wakeup(&p->nwrite) */
    ghost method Wake(onRead: bool, onWrite: bool)
      requires Valid()
      modifies this`readers, this`writers
      ensures readers == (if onRead then {} else old(readers)) && writers == (if onWrite then {} else old(writers))
      ensures Valid()
    {
      readers := if onRead then {} else readers;
      writers := if onWrite then {} else writers;
    }

    /** sleep(&p->nread, &p->lock) or sleep(&p->nwrite, &p->lock) */
    ghost method Doze(me: nat, onRead: bool)
      requires Valid() && (if onRead then readopen else writeopen)
      modifies this`readers, this`writers
      ensures readers == (if onRead then old(readers) + {me} else old(readers))
      ensures writers == (if onRead then old(writers) else old(writers) + {me})
      ensures Valid()
    {
      readers := if onRead then readers + {me} else readers;
      writers := if onRead then writers else writers + {me};
    }

    /** pipewrite of addr, whose first i bytes are in the pipe already. */
    method Write(addr: seq<Byte>, i: nat, killed: bool, me: nat) returns (r: WriteResult)
      requires Valid() && i <= |addr| && me !in writers && writeopen
      modifies this, data
      ensures taken == old(taken) && readopen == old(readopen) && writeopen
      ensures var room := taken + PIPESIZE - |old(written)|;
              && (r.Wrote? <==> |addr| - i <= room)
              && (r.Wrote? ==> written == old(written) + addr[i..] && readers == {} && writers == old(writers))
              && (!r.Wrote? ==> written == old(written) + addr[i..i + room])
              && (r.WriteFailed? <==> |addr| - i > room && (!readopen || killed))
              && (r.WriteFailed? ==> readers == old(readers) && writers == old(writers))
              && (r.WriterSlept? ==> r.next == i + room && readers == {} && writers == old(writers) + {me})
      ensures Valid()
      ensures old(NobodyStranded()) ==>
                (NobodyStranded() <==> !(killed && |addr| - i > PIPESIZE && old(readers) != {}))
    {
      var j := i;
      while j < |addr|
        invariant i <= j <= |addr| && written == old(written) + addr[i..j] && Valid()
        invariant taken == old(taken) && readers == old(readers) && writers == old(writers)
        invariant readopen == old(readopen) && writeopen == old(writeopen)
        invariant |written| <= taken + PIPESIZE
      {
        var full := IsFull();
        if full {
          if !readopen || killed {
            return WriteFailed;
          }
          Wake(true, false);
          Doze(me, false);
          return WriterSlept(j);
        }
        Store(addr[j]);
        j := j + 1;
      }
      Wake(true, false);
      return Wrote;
    }

    /** piperead of up to n bytes. */
    method Read(n: nat, killed: bool, me: nat) returns (r: ReadResult)
      requires Valid() && me !in readers && readopen
      modifies this
      ensures written == old(written) && readopen && writeopen == old(writeopen)
      ensures r.Got? <==> old(taken) < |written| || !writeopen
      ensures r.ReadFailed? <==> old(taken) == |written| && writeopen && killed
      ensures !r.Got? ==> taken == old(taken) && writers == old(writers)
      ensures r.Got? ==>
                && old(taken) + |r.bytes| == taken <= |written| && r.bytes == written[old(taken)..taken]
                && |r.bytes| == (if n <= |written| - old(taken) then n else |written| - old(taken))
                && readers == old(readers) && writers == {}
      ensures r.ReadFailed? ==> readers == old(readers)
      ensures r.ReaderSlept? ==> readers == old(readers) + {me}
      ensures Valid()
      ensures old(NobodyStranded()) ==> NobodyStranded()
    {
      var empty := IsEmpty();
      if empty && writeopen {
        if killed {
          return ReadFailed;
        }
        Doze(me, true);
        return ReaderSlept;
      }
      var bytes: seq<Byte> := [];
      while |bytes| < n
        invariant Valid() && |bytes| <= n && old(taken) + |bytes| == taken <= |written|
        invariant bytes == written[old(taken)..taken]
        invariant written == old(written) && readers == old(readers) && writers == old(writers)
        invariant readopen && writeopen == old(writeopen)
      {
        empty := IsEmpty();
        if empty {
          break;
        }
        WrapKeepsSlot(taken);
        bytes := bytes + [data[nread % PIPESIZE]];
        nread := (nread + 1) % WRAP;
        taken := taken + 1;
      }
      Wake(false, true);
      return Got(bytes);
    }

    /** pipeclose, when the last descriptor for that end goes; nobody is then inside a call on it. */
    method Close(writable: bool) returns (freed: bool)
      requires Valid() && (if writable then writeopen && writers == {} else readopen && readers == {})
      modifies this
      ensures written == old(written) && taken == old(taken)
      ensures writeopen == (old(writeopen) && !writable) && readopen == (old(readopen) && writable)
      ensures readers == (if writable then {} else old(readers)) && writers == (if writable then old(writers) else {})
      ensures freed <==> !readopen && !writeopen
      ensures freed ==> readers == {} && writers == {}
      ensures Valid()
      ensures old(NobodyStranded()) ==> NobodyStranded()
    {
      if writable {
        writeopen := false;
        Wake(true, false);
      } else {
        readopen := false;
        Wake(false, true);
      }
      freed := !readopen && !writeopen;
    }

    /** kill wakes the process wherever it sleeps. */
    ghost method Kill(p: nat)
      requires Valid()
      modifies this`readers, this`writers
      ensures readers == old(readers) - {p} && writers == old(writers) - {p}
      ensures Valid()
      ensures old(NobodyStranded()) ==> NobodyStranded()
    {
      readers, writers := readers - {p}, writers - {p};
    }
  }

  /** A reader waits for data; a process that has been killed writes one byte more than the pipe
      holds. The write fails without a wakeup, and the reader sleeps on with the pipe full. */
  method KilledWriterStrandsReader(addr: seq<Byte>) returns (p: Pipe)
    requires |addr| == PIPESIZE + 1
    ensures fresh(p) && p.Valid() && p.readers == {1} && p.writeopen && p.taken == 0 && p.written == addr[..PIPESIZE]
    ensures !p.NobodyStranded()
  {
    p := new Pipe();
    var r := p.Read(1, false, 1);
    var w := p.Write(addr, 0, true, 2);
  }

  lemma SlotsDiffer(j: nat, k: nat)
    requires j < k < j + PIPESIZE
    ensures j % PIPESIZE != k % PIPESIZE
  {
  }
}
