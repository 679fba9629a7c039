/** The serial device as the decoder sees it: a byte stream with a read
    position. The device arrives in bursts; between bursts nothing is
    available for a while. */
module Serial {
  import opened Wire

  datatype Option<T> = None | Some(value: T)

  /** Everything the device will deliver (`bytes`), and the offsets in it at
      which the input available so far runs out (`ends`). The end of `bytes`
      is the end of the stream. */
  datatype Source = Source(bytes: seq<byte>, ends: seq<nat>)

  /** Where the input that is available at `pos` runs out: the nearest burst
      end at or after `pos`, or `eof` when there is none before it (see
      `BurstEndIsNearest`). */
  function BurstEnd(ends: seq<nat>, pos: nat, eof: nat): (e: nat)
    requires pos <= eof
    ensures pos <= e <= eof
  {
    if ends == [] then eof
    else
      var later := BurstEnd(ends[1..], pos, eof);
      if pos <= ends[0] < later then ends[0] else later
  }

  /** `BurstEnd` is a burst end (or the end of the stream), and no burst end
      lies between `pos` and it. */
  lemma {:induction false} BurstEndIsNearest(ends: seq<nat>, pos: nat, eof: nat)
    requires pos <= eof
    ensures var e := BurstEnd(ends, pos, eof);
      && (e == eof || e in ends)
      && forall k :: 0 <= k < |ends| && pos <= ends[k] ==> e <= ends[k]
  {
    if ends != [] {
      BurstEndIsNearest(ends[1..], pos, eof);
      var e := BurstEnd(ends, pos, eof);
      forall k | 0 <= k < |ends| && pos <= ends[k] ensures e <= ends[k] {
        if k > 0 {
          assert ends[k] == ends[1..][k - 1];
        }
      }
    }
  }

  /** The opened device file (`@file`). */
  class SerialPort {
    const source: Source
    var pos: nat

    ghost predicate Valid()
      reads this
    {
      pos <= |source.bytes|
    }

    constructor (source: Source)
      ensures Valid() && this.source == source && pos == 0
    {
      this.source := source;
      pos := 0;
    }

    /** `IO#read(n)`: blocks until `n` bytes have arrived or the stream has
        ended; at the end of the stream it gives nil, except that reading
        nothing always gives the empty string. */
    method Read(n: nat) returns (chunk: Option<seq<byte>>)
      requires Valid()
      modifies this
      ensures Valid()
      ensures n > 0 && old(pos) == |source.bytes| ==> chunk == None && pos == old(pos)
      ensures n == 0 || old(pos) < |source.bytes| ==>
        pos == Min(old(pos) + n, |source.bytes|) && chunk == Some(source.bytes[old(pos)..pos])
    {
      if n > 0 && pos == |source.bytes| {
        chunk := None;
      } else {
        var stop := Min(pos + n, |source.bytes|);
        chunk := Some(source.bytes[pos..stop]);
        pos := stop;
      }
    }

    /** `IO#read` with no length on the serial line: reads and drops whatever
        input is available now, up to the end of the current burst. */
    method DropAvailable()
      requires Valid()
      modifies this
      ensures Valid()
      ensures pos == BurstEnd(source.ends, old(pos), |source.bytes|)
    {
      pos := BurstEnd(source.ends, pos, |source.bytes|);
    }
  }
}
