/**
 The packet buffer: one ring of bytes with three cursors (packet-buffer/packet_buffer.h).

 Bytes enter at the tail, are read once for pre-processing, and leave at the
 head. The ghost history `stream` holds every byte ever accepted; `read` and
 `gone` count how many of them have been pre-processed and dequeued.
 */
module PacketBuffers {
  import opened Bytes

  const PACKET_BUFFER_LEN: nat := 1000

  /** The cursor after `i`, as each operation computes it. */
  function Next(i: nat): nat {
    if i == PACKET_BUFFER_LEN - 1 then 0 else i + 1
  }

  /** The slot of the k-th byte of a history. */
  function SlotOf(k: nat): (s: nat)
    ensures s < PACKET_BUFFER_LEN
  {
    k % PACKET_BUFFER_LEN
  }

  function Least(a: int, b: int): int {
    if a <= b then a else b
  }

  lemma NextSlot(k: nat)
    ensures Next(SlotOf(k)) == SlotOf(k + 1)
  {
  }

  /** Two bytes of the history share a slot only if a whole lap lies between them. */
  lemma SlotsDiffer(k: nat, n: nat)
    requires k <= n <= k + PACKET_BUFFER_LEN
    ensures SlotOf(k) == SlotOf(n) <==> n == k || n == k + PACKET_BUFFER_LEN
  {
  }

  class PacketBuffer {
    const ring: array<byte>
    var head: nat
    var tail: nat
    var bufferFull: bool
    var bufferEmpty: bool
    var readingHead: nat

    ghost var stream: seq<byte>
    ghost var read: nat
    ghost var gone: nat

    /** What any sequence of calls keeps: the cursors stay inside the ring. */
    ghost predicate InBounds()
      reads this
    {
      ring.Length == PACKET_BUFFER_LEN
      && head < PACKET_BUFFER_LEN && tail < PACKET_BUFFER_LEN && readingHead < PACKET_BUFFER_LEN
    }

    /**
     What every call keeps as long as the pre-processing reader is called with
     unread bytes only: dequeued bytes are a prefix of the pre-processed ones, those
     of the accepted ones, and every byte not yet dequeued is still in its slot.
     */
    ghost predicate Valid()
      reads this, ring
    {
      && Filled()
      && gone <= read <= |stream|
      && readingHead == SlotOf(read)
    }

    /** The invariant without its part about the reading head. */
    ghost predicate Filled()
      reads this, ring
    {
      && InBounds()
      && gone <= |stream| <= gone + PACKET_BUFFER_LEN
      && head == SlotOf(gone) && tail == SlotOf(|stream|)
      && (bufferEmpty <==> gone == |stream|)
      && (|stream| == gone + PACKET_BUFFER_LEN ==> bufferFull)
      && forall k :: gone <= k < |stream| ==> ring[SlotOf(k)] == stream[k]
    }

    constructor ()
      ensures Valid() && fresh(ring) && stream == [] && read == gone == 0 && !bufferFull
    {
      ring := new byte[PACKET_BUFFER_LEN];
      head, tail, readingHead := 0, 0, 0;
      bufferFull, bufferEmpty := false, true;
      stream, read, gone := [], 0, 0;
    }

    /**
     Accepts a byte unless the ring has ever been full: the flag is raised when
     the last slot is taken and nothing takes it down again.
     */
    method Add(b: byte)
      requires Valid()
      modifies this, ring
      ensures Valid() && read == old(read) && gone == old(gone)
      ensures stream == if old(bufferFull) then old(stream) else old(stream) + [b]
      ensures bufferFull <==> old(bufferFull) || |stream| == gone + PACKET_BUFFER_LEN
    {
      if !bufferFull {
        NextSlot(|stream|);
        forall k | gone <= k < |stream|
          ensures SlotOf(k) != SlotOf(|stream|)
        {
          SlotsDiffer(k, |stream|);
        }
        SlotsDiffer(gone, |stream| + 1);
        ring[tail] := b;
        stream := stream + [b];
        bufferEmpty := false;
        if tail == PACKET_BUFFER_LEN - 1 {
          tail := 0;
        } else {
          tail := tail + 1;
        }
        if tail == head {
          bufferFull := true;
        }
      }
    }

    /**
     Hands out the oldest byte, unless there is none, or none is pre-processed, or
     (what the code cannot tell apart) a whole ring full of bytes is.
     */
    method Dequeue() returns (data: byte)
      requires Valid()
      modifies this
      ensures Valid() && stream == old(stream) && read == old(read) && bufferFull == old(bufferFull)
      ensures if old(read == gone || read == gone + PACKET_BUFFER_LEN) then data == 0 && gone == old(gone)
              else data == stream[old(gone)] && gone == old(gone) + 1
    {
      SlotsDiffer(gone, read);
      if bufferEmpty {
        return 0;
      } else if readingHead == head {
        return 0;
      } else {
        NextSlot(gone);
        SlotsDiffer(gone + 1, |stream|);
        data := ring[head];
        bufferEmpty := false;
        if head == PACKET_BUFFER_LEN - 1 {
          head := 0;
        } else {
          head := head + 1;
        }
        gone := gone + 1;
        if tail == head {
          bufferEmpty := true;
        }
      }
    }

    /**
     Hands out the next byte for pre-processing, without asking whether there is an
     unread one. The invariant survives exactly when there was, or when the buffer
     was empty.
     */
    method DequeueForPreprocessing() returns (data: byte)
      requires InBounds()
      modifies this
      ensures InBounds() && stream == old(stream) && gone == old(gone) && bufferFull == old(bufferFull)
      ensures old(bufferEmpty) ==> data == 0 && read == old(read) && readingHead == old(readingHead)
      ensures !old(bufferEmpty) ==>
                && data == ring[old(readingHead)] && readingHead == Next(old(readingHead))
                && read == (if old(read) < |stream| then old(read) + 1 else old(read))
      ensures bufferEmpty == old(bufferEmpty) && (old(Filled()) ==> Filled())
      ensures old(Valid()) ==>
                && (Valid() <==> old(bufferEmpty) || old(read) < |stream|)
                && (!old(bufferEmpty) && old(read) < |stream| ==> data == stream[old(read)] && read == old(read) + 1)
    {
      if bufferEmpty {
        return 0;
      } else {
        NextSlot(read);
        data := ring[readingHead];
        bufferEmpty := false;
        if readingHead == PACKET_BUFFER_LEN - 1 {
          readingHead := 0;
        } else {
          readingHead := readingHead + 1;
        }
        read := if read < |stream| then read + 1 else read;
      }
    }

    /** Some framed packet, length byte first, begins at byte `k` of the history and ends by byte `end`. */
    ghost predicate FrameAt(k: nat, end: nat)
      reads this
    {
      k < end <= |stream| && k + 1 + stream[k] as nat <= end
    }

    /**
     Reads one packet for transmission: its length byte, then that many bytes. If
     the packet is pre-processed in part only, zeros stand for the rest, and the
     frames that follow are lost.
     */
    method ReadAPacket(pk: array<byte>)
      requires Valid() && pk != ring && pk.Length > 0
      requires gone < read < gone + PACKET_BUFFER_LEN ==> stream[gone] as nat < pk.Length
      modifies this, pk
      ensures Valid() && stream == old(stream) && read == old(read) && bufferFull == old(bufferFull)
      ensures if old(gone == |stream|) then
                gone == old(gone)
                && forall j :: 0 <= j < pk.Length ==> pk[j] == if j == 0 then 0 else old(pk[j])
              else if old(read == gone || read == gone + PACKET_BUFFER_LEN) then
                gone == old(gone)
                && forall j :: 0 <= j < pk.Length ==> pk[j] == old(pk[j])
              else
                var n := stream[old(gone)] as nat;
                gone == Least(old(gone) + 1 + n, read)
                && forall j :: 0 <= j < pk.Length ==>
                     pk[j] == if j > n then old(pk[j]) else if old(gone) + j < read then stream[old(gone) + j] else 0
    {
      hide SlotOf;
      SlotsDiffer(gone, read);
      if bufferEmpty {
        pk[0] := 0;
      } else if readingHead == head {
        return;
      } else {
        var packetLength := Dequeue();
        pk[0] := packetLength;
        TakeBytes(pk, packetLength as nat);
      }
    }

    /** The copying loop of `read_a_packet`: `n` more bytes into pk[1..]. */
    method TakeBytes(pk: array<byte>, n: nat)
      requires Valid() && pk != ring && n < pk.Length
      requires read < gone + PACKET_BUFFER_LEN
      modifies this, pk
      ensures Valid() && stream == old(stream) && read == old(read) && bufferFull == old(bufferFull)
      ensures gone == Least(old(gone) + n, read)
      ensures forall j :: 0 <= j < pk.Length ==>
                pk[j] == if 1 <= j <= n then (if old(gone) + j - 1 < read then stream[old(gone) + j - 1] else 0)
                         else old(pk[j])
    {
      hide SlotOf;
      var i := 1;
      while i <= n
        invariant 1 <= i <= n + 1
        invariant Valid() && stream == old(stream) && read == old(read) && bufferFull == old(bufferFull)
        invariant gone == Least(old(gone) + i - 1, read)
        invariant forall j :: 0 <= j < pk.Length ==>
                    pk[j] == if 1 <= j < i then (if old(gone) + j - 1 < read then stream[old(gone) + j - 1] else 0)
                             else old(pk[j])
      {
        var data := Dequeue();
        pk[i] := data;
        i := i + 1;
      }
    }

    /**
     Reads one packet for pre-processing, leaving it in the buffer. The invariant
     survives exactly when the buffer was empty or held the packet as a whole.
     */
    method ReadAPacketForPreprocessing(pk: array<byte>)
      requires Valid() && pk != ring && pk.Length > 0
      requires gone < |stream| ==> ring[readingHead] as nat < pk.Length
      modifies this, pk
      ensures InBounds() && stream == old(stream) && gone == old(gone) && bufferFull == old(bufferFull)
      ensures Valid() <==> old(gone == |stream|) || FrameAt(old(read), |stream|)
      ensures old(gone == |stream|) ==>
                read == old(read)
                && forall j :: 0 <= j < pk.Length ==> pk[j] == if j == 0 then 0 else old(pk[j])
      ensures FrameAt(old(read), |stream|) ==>
                var n := stream[old(read)] as nat;
                read == old(read) + 1 + n
                && forall j :: 0 <= j < pk.Length ==> pk[j] == if j <= n then stream[old(read) + j] else old(pk[j])
    {
      ghost var start := read;
      if bufferEmpty {
        pk[0] := 0;
      } else {
        FetchForPreprocessing(pk);
        InvariantSurvives(start, pk[0]);
        if FrameAt(start, |stream|) {
          FrameBytes(start, pk[0]);
        }
      }
    }

    /** The bytes the reader fetches from a buffer that is not empty, from wherever the reading head is. */
    method FetchForPreprocessing(pk: array<byte>)
      requires Valid() && !bufferEmpty && pk != ring
      requires ring[readingHead] as nat < pk.Length
      modifies this, pk
      ensures Filled() && stream == old(stream) && gone == old(gone) && bufferFull == old(bufferFull)
      ensures pk[0] == ring[SlotOf(old(read))] && !bufferEmpty
      ensures var k := old(read) + 1 + pk[0] as nat; read == Least(k, |stream|) && readingHead == SlotOf(k)
      ensures forall j :: 0 <= j < pk.Length ==>
                pk[j] == if j <= pk[0] as nat then ring[SlotOf(old(read) + j)] else old(pk[j])
    {
      hide SlotOf;
      ghost var start := read;
      NextSlot(start);
      var packetLength := DequeueForPreprocessing();
      pk[0] := packetLength;
      TakeBytesForPreprocessing(pk, packetLength as nat, start + 1);
    }

    lemma InvariantSurvives(start: nat, n: byte)
      requires Filled() && gone <= start <= |stream| && n == ring[SlotOf(start)]
      requires var k := start + 1 + n as nat; read == Least(k, |stream|) && readingHead == SlotOf(k)
      ensures Valid() <==> FrameAt(start, |stream|)
    {
      hide SlotOf;
      var k := start + 1 + n as nat;
      SlotsDiffer(Least(k, |stream|), k);
    }

    lemma FrameBytes(start: nat, n: byte)
      requires Filled() && gone <= start && FrameAt(start, |stream|) && n == ring[SlotOf(start)]
      ensures n == stream[start]
      ensures forall k :: start <= k <= start + n as nat ==> ring[SlotOf(k)] == stream[k]
    {
      hide SlotOf;
    }

    /** The copying loop of `read_a_packet_for_preprocessing`, which goes on beyond the tail if it must. */
    method TakeBytesForPreprocessing(pk: array<byte>, n: nat, ghost k: nat)
      requires Filled() && !bufferEmpty && pk != ring && n < pk.Length
      requires gone <= read == Least(k, |stream|) && readingHead == SlotOf(k)
      modifies this, pk
      ensures Filled() && stream == old(stream) && gone == old(gone) && bufferFull == old(bufferFull)
      ensures read == Least(k + n, |stream|) && readingHead == SlotOf(k + n)
      ensures forall j :: 0 <= j < pk.Length ==>
                pk[j] == if 1 <= j <= n then ring[SlotOf(k + j - 1)] else old(pk[j])
    {
      hide SlotOf;
      var i := 1;
      while i <= n
        invariant 1 <= i <= n + 1
        invariant Filled() && stream == old(stream) && gone == old(gone) && bufferFull == old(bufferFull)
        invariant !bufferEmpty && read == Least(k + i - 1, |stream|) && readingHead == SlotOf(k + i - 1)
        invariant forall j :: 0 <= j < pk.Length ==>
                    pk[j] == if 1 <= j < i then ring[SlotOf(k + j - 1)] else old(pk[j])
      {
        NextSlot(k + i - 1);
        var data := DequeueForPreprocessing();
        pk[i] := data;
        i := i + 1;
      }
    }
  }
}
