/**
 The match field buffer: a ring of 45-byte records (packet-buffer/match_field_buffer.h).

 The array has the length at which the cursors wrap; match_field_buffer.h:13
 declares it 100 bytes shorter than that.
 */
module MatchFieldBuffers {
  import opened Bytes
  import opened Matching
  import opened PacketBuffers

  /** match_field_buffer_LEN is the length of the packet buffer, and so are its cursor steps. */
  const MATCH_FIELD_BUFFER_LEN: nat := PACKET_BUFFER_LEN

  class MatchFieldBuffer {
    const ring: array<byte>
    var head: nat
    var tail: nat
    var bufferFull: bool
    var bufferEmpty: bool

    ghost var stream: seq<byte>
    ghost var gone: nat

    ghost predicate Valid()
      reads this, ring
    {
      && ring.Length == MATCH_FIELD_BUFFER_LEN
      && gone <= |stream| <= gone + MATCH_FIELD_BUFFER_LEN
      && head == SlotOf(gone) && tail == SlotOf(|stream|)
      && (bufferEmpty <==> gone == |stream|)
      && (|stream| == gone + MATCH_FIELD_BUFFER_LEN ==> bufferFull)
      && forall k :: gone <= k < |stream| ==> ring[SlotOf(k)] == stream[k]
    }

    constructor ()
      ensures Valid() && fresh(ring) && stream == [] && gone == 0 && !bufferFull
    {
      ring := new byte[MATCH_FIELD_BUFFER_LEN];
      head, tail := 0, 0;
      bufferFull, bufferEmpty := false, true;
      stream, gone := [], 0;
    }

    /** Accepts a byte unless the ring has ever been full. */
    method Add(b: byte)
      requires Valid()
      modifies this, ring
      ensures Valid() && gone == old(gone)
      ensures stream == if old(bufferFull) then old(stream) else old(stream) + [b]
      ensures bufferFull <==> old(bufferFull) || |stream| == gone + MATCH_FIELD_BUFFER_LEN
    {
      if !bufferFull {
        NextSlot(|stream|);
        forall k | gone <= k < |stream|
          ensures SlotOf(k) != SlotOf(|stream|)
        {
          SlotsDiffer(k, |stream|);
        }
        SlotsDiffer(gone, |stream| + 1);
        ring[tail] := b;
        stream := stream + [b];
        bufferEmpty := false;
        if tail == MATCH_FIELD_BUFFER_LEN - 1 {
          tail := 0;
        } else {
          tail := tail + 1;
        }
        if tail == head {
          bufferFull := true;
        }
      }
    }

    method Dequeue() returns (data: byte)
      requires Valid()
      modifies this
      ensures Valid() && stream == old(stream) && bufferFull == old(bufferFull)
      ensures if old(gone == |stream|) then data == 0 && gone == old(gone)
              else data == stream[old(gone)] && gone == old(gone) + 1
    {
      if bufferEmpty {
        return 0;
      } else {
        NextSlot(gone);
        SlotsDiffer(gone + 1, |stream|);
        data := ring[head];
        bufferEmpty := false;
        if head == MATCH_FIELD_BUFFER_LEN - 1 {
          head := 0;
        } else {
          head := head + 1;
        }
        gone := gone + 1;
        if tail == head {
          bufferEmpty := true;
        }
      }
    }

    /**
     Reads one record if there is any byte at all. A record cut short by the end of
     the data is filled up with zeros.
     */
    method ReadAMatchField(mf: array<byte>)
      requires Valid() && mf != ring && mf.Length == MTCH_FLD_LEN
      modifies this, mf
      ensures Valid() && stream == old(stream) && bufferFull == old(bufferFull)
      ensures if old(gone == |stream|) then
                gone == old(gone) && forall j :: 0 <= j < MTCH_FLD_LEN ==> mf[j] == old(mf[j])
              else
                && gone == (if old(gone) + MTCH_FLD_LEN <= |stream| then old(gone) + MTCH_FLD_LEN else |stream|)
                && forall j :: 0 <= j < MTCH_FLD_LEN ==>
                     mf[j] == if old(gone) + j < |stream| then stream[old(gone) + j] else 0
    {
      hide SlotOf;
      if !bufferEmpty {
        var i := 0;
        while i < MTCH_FLD_LEN
          invariant 0 <= i <= MTCH_FLD_LEN
          invariant Valid() && stream == old(stream) && bufferFull == old(bufferFull)
          invariant gone == if old(gone) + i <= |stream| then old(gone) + i else |stream|
          invariant forall j :: 0 <= j < i ==> mf[j] == if old(gone) + j < |stream| then stream[old(gone) + j] else 0
        {
          var data := Dequeue();
          mf[i] := data;
          i := i + 1;
        }
      }
    }
  }
}
