/**
 Packets framed in the packet buffer: what is loaded comes out of both readers
 frame by frame (packet/packet.h:311-340 and packet-buffer/packet_buffer.h:142-296).
 */
module Packets {
  import opened Bytes
  import opened PacketBuffers

  /** A captured packet: its length on the wire, its port and metadata, and the bytes captured of it. */
  datatype WirePacket = WirePacket(len: nat, port: seq<byte>, metadata: seq<byte>, data: seq<byte>)

  predicate Wired(p: WirePacket) {
    |p.port| == 4 && |p.metadata| == 8
  }

  /** What `load_a_packet_to_the_packet_buffer` writes; the length byte is `len` + 12 truncated to a byte. */
  function Frame(p: WirePacket): (s: seq<byte>)
    requires Wired(p)
    ensures |s| == 13 + |p.data|
  {
    [LengthOf(p.len)] + p.port + p.metadata + p.data
  }

  /** The length byte tells the truth. */
  predicate WellFramed(p: WirePacket)
    requires Wired(p)
  {
    (p.len + 12) % 256 == 12 + |p.data|
  }

  /** A frame gives back what went into it, and its length byte measures it exactly when it is well framed. */
  lemma FrameDecodes(p: WirePacket)
    requires Wired(p)
    ensures Frame(p)[1..5] == p.port && Frame(p)[5..13] == p.metadata && Frame(p)[13..] == p.data
    ensures 1 + Frame(p)[0] as nat == |Frame(p)| <==> WellFramed(p)
  {
    hide Frame;
    FrameIsParts(p);
    LengthByte(p.len);
  }

  function LengthOf(len: nat): byte {
    Truncated(len + 12)
  }

  lemma LengthByte(len: nat)
    ensures LengthOf(len) as nat == (len + 12) % 256
  {
    TruncatedValue(len + 12);
  }

  lemma FrameIsParts(p: WirePacket)
    requires Wired(p)
    ensures Frame(p)[0] == LengthOf(p.len)
    ensures Frame(p)[1..5] == p.port && Frame(p)[5..13] == p.metadata && Frame(p)[13..] == p.data
  {
    hide LengthOf;
    FrameParts([LengthOf(p.len)], p.port, p.metadata, p.data);
  }

  lemma FrameParts(a: seq<byte>, b: seq<byte>, c: seq<byte>, d: seq<byte>)
    requires |a| == 1 && |b| == 4 && |c| == 8
    ensures var s := a + b + c + d;
            s[0] == a[0] && s[1..5] == b && s[5..13] == c && s[13..] == d
  {
  }

  /** In particular a packet captured whole is well framed exactly when its frame length fits a byte. */
  lemma WholePacketIsWellFramed(p: WirePacket)
    requires Wired(p) && p.len == |p.data|
    ensures WellFramed(p) <==> 12 + p.len < 256
  {
  }

  /** How many of `n` bytes a ring takes. */
  function Accepted(full: bool, used: nat, n: nat): (r: nat)
    requires used <= PACKET_BUFFER_LEN
    ensures r <= n
  {
    if full then 0 else if used + n <= PACKET_BUFFER_LEN then n else PACKET_BUFFER_LEN - used
  }

  method AddBytes(pb: PacketBuffer, s: seq<byte>)
    requires pb.Valid()
    modifies pb, pb.ring
    ensures pb.Valid() && pb.read == old(pb.read) && pb.gone == old(pb.gone)
    ensures pb.stream == old(pb.stream) + s[..Accepted(old(pb.bufferFull), old(|pb.stream| - pb.gone), |s|)]
    ensures pb.bufferFull <==> old(pb.bufferFull) || |pb.stream| == pb.gone + PACKET_BUFFER_LEN
  {
    hide SlotOf;
    ghost var used := |pb.stream| - pb.gone;
    for i := 0 to |s|
      invariant pb.Valid() && pb.read == old(pb.read) && pb.gone == old(pb.gone)
      invariant pb.stream == old(pb.stream) + s[..Accepted(old(pb.bufferFull), used, i)]
      invariant pb.bufferFull <==> old(pb.bufferFull) || |pb.stream| == pb.gone + PACKET_BUFFER_LEN
    {
      pb.Add(s[i]);
    }
  }

  /** The buffer `before`, with `used` bytes in it, after `s` has been offered to it. */
  ghost predicate Offered(pb: PacketBuffer, full: bool, used: nat, before: seq<byte>, s: seq<byte>)
    reads pb
  {
    && used <= PACKET_BUFFER_LEN && (used == PACKET_BUFFER_LEN ==> full)
    && pb.gone <= |before| && |before| - pb.gone == used
    && pb.stream == before + s[..Accepted(full, used, |s|)]
    && (pb.bufferFull <==> full || used + Accepted(full, used, |s|) == PACKET_BUFFER_LEN)
  }

  method OfferMore(pb: PacketBuffer, ghost full: bool, ghost used: nat, ghost before: seq<byte>, ghost a: seq<byte>,
                   b: seq<byte>)
    requires pb.Valid() && Offered(pb, full, used, before, a)
    modifies pb, pb.ring
    ensures pb.Valid() && pb.read == old(pb.read) && pb.gone == old(pb.gone)
    ensures Offered(pb, full, used, before, a + b)
  {
    hide SlotOf;
    AcceptedTwice(full, used, a, b);
    AddBytes(pb, b);
  }

  /** Appends a frame; whatever no longer fits is dropped. */
  method LoadAPacketToThePacketBuffer(p: WirePacket, pb: PacketBuffer)
    requires pb.Valid() && Wired(p)
    modifies pb, pb.ring
    ensures pb.Valid() && pb.read == old(pb.read) && pb.gone == old(pb.gone)
    ensures pb.stream
            == old(pb.stream) + Frame(p)[..Accepted(old(pb.bufferFull), old(|pb.stream| - pb.gone), |Frame(p)|)]
    ensures pb.bufferFull <==> old(pb.bufferFull) || |pb.stream| == pb.gone + PACKET_BUFFER_LEN
  {
    hide SlotOf, Accepted;
    ghost var full, used, before := pb.bufferFull, |pb.stream| - pb.gone, pb.stream;
    var length := [LengthOf(p.len)];
    assert Offered(pb, full, used, before, []) by { NothingAccepted(full, used); }
    LoadRest(p, pb, full, used, before, length);
    assert Frame(p) == [] + length + p.port + p.metadata + p.data;
    assert Offered(pb, full, used, before, Frame(p));
    assert |pb.stream| == |before| + Accepted(full, used, |Frame(p)|);
  }

  lemma NothingAccepted(full: bool, used: nat)
    requires used <= PACKET_BUFFER_LEN
    ensures Accepted(full, used, 0) == 0
  {
  }

  method LoadRest(p: WirePacket, pb: PacketBuffer, ghost full: bool, ghost used: nat, ghost before: seq<byte>,
                  length: seq<byte>)
    requires pb.Valid() && Wired(p) && Offered(pb, full, used, before, [])
    modifies pb, pb.ring
    ensures pb.Valid() && pb.read == old(pb.read) && pb.gone == old(pb.gone)
    ensures Offered(pb, full, used, before, [] + length + p.port + p.metadata + p.data)
  {
    hide SlotOf, Offered;
    OfferMore(pb, full, used, before, [], length);
    OfferMore(pb, full, used, before, [] + length, p.port);
    OfferMore(pb, full, used, before, [] + length + p.port, p.metadata);
    OfferMore(pb, full, used, before, [] + length + p.port + p.metadata, p.data);
  }

  /** Loading two stretches of bytes is loading one. */
  lemma AcceptedTwice(full: bool, used: nat, a: seq<byte>, b: seq<byte>)
    requires used <= PACKET_BUFFER_LEN && (used == PACKET_BUFFER_LEN ==> full)
    ensures var n := Accepted(full, used, |a|);
            var m := Accepted(full || used + n == PACKET_BUFFER_LEN, used + n, |b|);
            && Accepted(full, used, |a + b|) == n + m
            && (a + b)[..n + m] == a[..n] + b[..m]
  {
  }

  // ---- histories of whole frames ----

  function Frames(ps: seq<WirePacket>): seq<byte>
    requires forall p :: p in ps ==> Wired(p)
  {
    if |ps| == 0 then [] else Frames(ps[..|ps| - 1]) + Frame(ps[|ps| - 1])
  }

  /** Where the k-th frame begins. */
  function Boundary(ps: seq<WirePacket>, k: nat): nat
    requires k <= |ps| && forall p :: p in ps ==> Wired(p)
  {
    |Frames(ps[..k])|
  }

  lemma {:induction false} FrameInFrames(ps: seq<WirePacket>, k: nat)
    requires k < |ps| && forall p :: p in ps ==> Wired(p)
    ensures Boundary(ps, k + 1) == Boundary(ps, k) + |Frame(ps[k])| <= |Frames(ps)|
    ensures Frames(ps)[Boundary(ps, k)..Boundary(ps, k + 1)] == Frame(ps[k])
    decreases |ps|
  {
    var n := |ps| - 1;
    assert ps[..k + 1][..k] == ps[..k];
    if k < n {
      FrameInFrames(ps[..n], k);
      assert ps[..n][..k] == ps[..k] && ps[..n][..k + 1] == ps[..k + 1];
      var a, b := Boundary(ps, k), Boundary(ps, k + 1);
      assert Frames(ps)[a..b] == Frames(ps[..n])[a..b];
    } else {
      assert ps[..k + 1] == ps;
    }
  }

  lemma BoundariesOrdered(ps: seq<WirePacket>, j: nat, k: nat)
    requires j <= k <= |ps| && forall p :: p in ps ==> Wired(p)
    ensures Boundary(ps, j) <= Boundary(ps, k) <= |Frames(ps)|
    ensures j < k ==> Boundary(ps, j) + |Frame(ps[j])| <= Boundary(ps, k)
    decreases k - j
  {
    if j < k {
      FrameInFrames(ps, j);
      BoundariesOrdered(ps, j + 1, k);
    } else if j < |ps| {
      FrameInFrames(ps, j);
    } else {
      assert ps[..j] == ps;
    }
  }

  lemma BoundariesKept(ps: seq<WirePacket>, p: WirePacket, k: nat)
    requires k <= |ps| && Wired(p) && forall q :: q in ps ==> Wired(q)
    ensures forall q :: q in ps + [p] ==> Wired(q)
    ensures Boundary(ps + [p], k) == Boundary(ps, k) && Frames(ps + [p]) == Frames(ps) + Frame(p)
  {
    hide Frame;
    assert (ps + [p])[..k] == ps[..k];
    assert (ps + [p])[..|ps|] == ps;
  }

  /** A frame that stands whole in a history is found at its boundary, and its first byte measures it. */
  lemma FrameAtBoundary(ps: seq<WirePacket>, k: nat)
    requires k < |ps| && (forall p :: p in ps ==> Wired(p)) && WellFramed(ps[k])
    ensures Boundary(ps, k) < |Frames(ps)| && 1 + Frames(ps)[Boundary(ps, k)] as nat == |Frame(ps[k])|
    ensures Boundary(ps, k + 1) == Boundary(ps, k) + |Frame(ps[k])| <= |Frames(ps)|
    ensures forall j :: 0 <= j < |Frame(ps[k])| ==> Frames(ps)[Boundary(ps, k) + j] == Frame(ps[k])[j]
  {
    hide Frame, Boundary, Frames;
    FrameInFrames(ps, k);
    FrameDecodes(ps[k]);
    var a, b := Boundary(ps, k), Boundary(ps, k + 1);
    forall j | 0 <= j < |Frame(ps[k])|
      ensures Frames(ps)[a + j] == Frame(ps[k])[j]
    {
      assert Frames(ps)[a..b][j] == Frames(ps)[a + j];
    }
  }

  // ---- the buffer as a queue of frames ----

  /** All packets are framed truthfully. */
  ghost predicate Framed(ps: seq<WirePacket>) {
    (forall p :: p in ps ==> Wired(p)) && forall k :: 0 <= k < |ps| ==> WellFramed(ps[k])
  }

  /**
   The history of the buffer begins with the frames of `ps`, of which `prepared`
   have been read for pre-processing and `sent` for transmission.
   */
  ghost predicate Holds(pb: PacketBuffer, ps: seq<WirePacket>, prepared: nat, sent: nat)
    reads pb, pb.ring
  {
    && pb.Valid() && Framed(ps) && sent <= prepared <= |ps|
    && Frames(ps) <= pb.stream
    && pb.read == Boundary(ps, prepared) && pb.gone == Boundary(ps, sent)
  }

  /** The ring has never been full and has room for `n` more bytes. */
  ghost predicate HasRoom(pb: PacketBuffer, n: nat)
    reads pb
  {
    !pb.bufferFull && |pb.stream| + n <= pb.gone + PACKET_BUFFER_LEN
  }

  /** A frame joins the others exactly when it fits. */
  method LoadFrame(pb: PacketBuffer, p: WirePacket, ghost ps: seq<WirePacket>, ghost prepared: nat, ghost sent: nat)
    requires Holds(pb, ps, prepared, sent) && |pb.stream| == |Frames(ps)| && Wired(p)
    modifies pb, pb.ring
    ensures pb.Valid() && pb.gone == old(pb.gone) && pb.read == old(pb.read)
    ensures pb.bufferFull <==> old(pb.bufferFull) || |pb.stream| == pb.gone + PACKET_BUFFER_LEN
    ensures Holds(pb, ps + [p], prepared, sent) <==> WellFramed(p) && old(HasRoom(pb, |Frame(p)|))
    ensures old(HasRoom(pb, |Frame(p)|)) ==> pb.stream == Frames(ps + [p])
  {
    hide SlotOf, Frame, Boundary, Frames, WellFramed;
    BoundariesKept(ps, p, prepared);
    BoundariesKept(ps, p, sent);
    assert (ps + [p])[|ps|] == p;
    assert p in ps + [p];
    LoadAPacketToThePacketBuffer(p, pb);
  }

  /**
   The pre-processing reader hands out the next frame, whatever its length. The
   rest of the caller's array is left alone.
   */
  method ReadForPreprocessing(pb: PacketBuffer, pkt: array<byte>, ghost ps: seq<WirePacket>, ghost prepared: nat,
                              ghost sent: nat)
    requires Holds(pb, ps, prepared, sent) && prepared < |ps|
    requires |Frame(ps[prepared])| <= pkt.Length && pkt != pb.ring
    modifies pb, pkt
    ensures Holds(pb, ps, prepared + 1, sent) && pb.stream == old(pb.stream) && pb.bufferFull == old(pb.bufferFull)
    ensures pkt[..] == Frame(ps[prepared]) + old(pkt[|Frame(ps[prepared])|..])
  {
    hide SlotOf, Frame, Boundary, Frames, WellFramed;
    BoundariesOrdered(ps, sent, prepared);
    FrameAtBoundary(ps, prepared);
    pb.ReadAPacketForPreprocessing(pkt);
  }

  /**
   The transmission reader hands out the oldest frame exactly when one is
   pre-processed and the pre-processed ones do not fill the ring.
   */
  method ReadForTransmission(pb: PacketBuffer, pkt: array<byte>, ghost ps: seq<WirePacket>, ghost prepared: nat,
                             ghost sent: nat)
    requires Holds(pb, ps, prepared, sent) && pkt != pb.ring && pkt.Length > 0
    requires sent < prepared ==> |Frame(ps[sent])| <= pkt.Length
    modifies pb, pkt
    ensures pb.stream == old(pb.stream) && pb.read == old(pb.read) && pb.bufferFull == old(pb.bufferFull)
    ensures if sent < prepared && pb.read < old(pb.gone) + PACKET_BUFFER_LEN then
              && Holds(pb, ps, prepared, sent + 1)
              && pkt[..] == Frame(ps[sent]) + old(pkt[|Frame(ps[sent])|..])
            else
              && Holds(pb, ps, prepared, sent)
              && pkt[..] == if |pb.stream| == pb.gone then [0] + old(pkt[1..]) else old(pkt[..])
  {
    hide SlotOf, Frame, Boundary, Frames, WellFramed;
    BoundariesOrdered(ps, sent, prepared);
    if sent < prepared {
      BoundariesOrdered(ps, sent + 1, prepared);
      FrameAtBoundary(ps, sent);
    }
    pb.ReadAPacket(pkt);
  }

  // ---- the framed round trip ----

  /** Any list of packets, loaded into an empty buffer: its frames, cut off where the ring is full. */
  method LoadAll(pb: PacketBuffer, ps: seq<WirePacket>)
    requires pb.Valid() && pb.stream == [] && !pb.bufferFull
    requires forall p :: p in ps ==> Wired(p)
    modifies pb, pb.ring
    ensures pb.Valid() && pb.read == pb.gone == 0
    ensures pb.stream == Frames(ps)[..Least(|Frames(ps)|, PACKET_BUFFER_LEN)]
  {
    hide SlotOf, Frame, Frames;
    NoFrames(ps);
    for i := 0 to |ps|
      invariant pb.Valid() && pb.read == pb.gone == 0
      invariant pb.stream == Frames(ps[..i])[..Least(|Frames(ps[..i])|, PACKET_BUFFER_LEN)]
      invariant pb.bufferFull <==> |Frames(ps[..i])| >= PACKET_BUFFER_LEN
    {
      assert ps[..i + 1] == ps[..i] + [ps[i]];
      BoundariesKept(ps[..i], ps[i], 0);
      LoadAPacketToThePacketBuffer(ps[i], pb);
    }
    assert ps[..|ps|] == ps;
  }

  lemma NoFrames(ps: seq<WirePacket>)
    ensures Frames(ps[..0]) == []
  {
  }

  lemma {:induction false} FirstFrames(ps: seq<WirePacket>, k: nat)
    requires k <= |ps| && forall p :: p in ps ==> Wired(p)
    ensures Frames(ps[..k]) <= Frames(ps)
  {
    if k < |ps| {
      FirstFrames(ps[..|ps| - 1], k);
      assert ps[..|ps| - 1][..k] == ps[..k];
    } else {
      assert ps[..k] == ps;
    }
  }

  /** The first `k` packets hold the buffer's first frames, and the next one is there as a whole. */
  lemma NextIsHeld(pb: PacketBuffer, ps: seq<WirePacket>, k: nat)
    requires Framed(ps) && k < |ps| && Holds(pb, ps[..k], k, 0)
    requires pb.stream == Frames(ps)[..Least(|Frames(ps)|, PACKET_BUFFER_LEN)]
    ensures Boundary(ps, k + 1) == Boundary(ps, k) + |Frame(ps[k])|
    ensures Boundary(ps, k + 1) <= PACKET_BUFFER_LEN ==> Holds(pb, ps[..k + 1], k, 0)
  {
    hide SlotOf, Frame, Frames, WellFramed;
    FrameInFrames(ps, k);
    FirstFrames(ps, k + 1);
    assert ps[..k + 1][..k] == ps[..k] == ps[..k][..k];
    assert ps[..k + 1][..0] == ps[..k][..0];
  }

  /** Pre-processes every packet whose frame is in the buffer as a whole. */
  method PrepareAll(pb: PacketBuffer, ps: seq<WirePacket>) returns (prepared: seq<seq<byte>>)
    requires pb.Valid() && pb.read == pb.gone == 0 && Framed(ps)
    requires pb.stream == Frames(ps)[..Least(|Frames(ps)|, PACKET_BUFFER_LEN)]
    modifies pb
    ensures |prepared| <= |ps| && Boundary(ps, |prepared|) <= PACKET_BUFFER_LEN
    ensures |prepared| < |ps| ==> PACKET_BUFFER_LEN < Boundary(ps, |prepared| + 1)
    ensures forall k :: 0 <= k < |prepared| ==> prepared[k] == Frame(ps[k])
    ensures Holds(pb, ps[..|prepared|], |prepared|, 0)
  {
    hide SlotOf, Frame, Frames, WellFramed;
    NoFrames(ps);
    assert ps[..0][..0] == ps[..0];
    var k, total := 0, 0;
    prepared := [];
    while k < |ps| && total + 13 + |ps[k].data| <= PACKET_BUFFER_LEN
      invariant k == |prepared| <= |ps| && total == Boundary(ps, k) <= PACKET_BUFFER_LEN
      invariant pb.stream == old(pb.stream) && Holds(pb, ps[..k], k, 0)
      invariant forall j :: 0 <= j < k ==> prepared[j] == Frame(ps[j])
    {
      NextIsHeld(pb, ps, k);
      FrameFitsByte(ps[k]);
      var pkt := new byte[MAX_FRAME](_ => 0);
      ReadForPreprocessing(pb, pkt, ps[..k + 1], k, 0);
      prepared := prepared + [pkt[..13 + |ps[k].data|]];
      total := total + 13 + |ps[k].data|;
      k := k + 1;
    }
    if k < |ps| {
      NextIsHeld(pb, ps, k);
    }
  }

  /** Transmits as many frames as were pre-processed. */
  method SendAll(pb: PacketBuffer, ps: seq<WirePacket>) returns (sent: seq<seq<byte>>)
    requires Holds(pb, ps, |ps|, 0)
    modifies pb
    ensures |sent| == |ps|
    ensures forall k :: 0 <= k < |ps| ==>
              sent[k] == if |Frames(ps)| < PACKET_BUFFER_LEN then Frame(ps[k]) else [0]
  {
    hide SlotOf, Frame, Frames, Boundary, WellFramed, Holds;
    HeldIsFramed(pb, ps, |ps|, 0);
    ghost var full := |Frames(ps)| >= PACKET_BUFFER_LEN;
    sent := [];
    for k := 0 to |ps|
      invariant |sent| == k
      invariant Holds(pb, ps, |ps|, if full then 0 else k)
      invariant forall j :: 0 <= j < k ==> sent[j] == if full then [0] else Frame(ps[j])
    {
      var frame := SendNext(pb, ps, if full then 0 else k, full);
      sent := sent + [frame];
    }
  }

  lemma HeldIsFramed(pb: PacketBuffer, ps: seq<WirePacket>, prepared: nat, sent: nat)
    requires Holds(pb, ps, prepared, sent)
    ensures Framed(ps)
  {
  }

  /** One call of the transmission reader, once every packet has been pre-processed. */
  method SendNext(pb: PacketBuffer, ghost ps: seq<WirePacket>, ghost k: nat, ghost full: bool)
    returns (frame: seq<byte>)
    requires Holds(pb, ps, |ps|, k) && k < |ps|
    requires (full <==> |Frames(ps)| >= PACKET_BUFFER_LEN) && (full ==> k == 0)
    modifies pb
    ensures Holds(pb, ps, |ps|, if full then 0 else k + 1)
    ensures frame == if full then [0] else Frame(ps[k])
  {
    hide SlotOf, Frame, Frames, Boundary, WellFramed;
    AllFrames(ps);
    BoundariesOrdered(ps, 0, k);
    BoundariesOrdered(ps, k, |ps|);
    FrameFitsByte(ps[k]);
    var pkt := new byte[MAX_FRAME](_ => 0);
    ReadForTransmission(pb, pkt, ps, |ps|, k);
    frame := pkt[..1 + pkt[0] as nat];
  }

  lemma AllFrames(ps: seq<WirePacket>)
    requires forall p :: p in ps ==> Wired(p)
    ensures Boundary(ps, |ps|) == |Frames(ps)| && Boundary(ps, 0) == 0
  {
    assert ps[..|ps|] == ps;
  }

  const MAX_FRAME: nat := 256

  lemma FrameFitsByte(p: WirePacket)
    requires Wired(p) && WellFramed(p)
    ensures |Frame(p)| <= MAX_FRAME && 1 + Frame(p)[0] as nat == |Frame(p)|
  {
    hide Frame;
    FrameDecodes(p);
  }

  /**
   Both readers over any list of packets. The pre-processing reader gives back every
   frame that fits the ring as a whole, up to the last slot; the transmission reader
   gives them back exactly when they leave one slot free. One that hands out nothing is
   recorded as [0].
   */
  method FramedRoundTrip(ps: seq<WirePacket>) returns (prepared: seq<seq<byte>>, sent: seq<seq<byte>>)
    requires Framed(ps)
    ensures |sent| == |prepared| <= |ps| && Boundary(ps, |prepared|) <= PACKET_BUFFER_LEN
    ensures |prepared| < |ps| ==> PACKET_BUFFER_LEN < Boundary(ps, |prepared| + 1)
    ensures forall k :: 0 <= k < |prepared| ==> prepared[k] == Frame(ps[k])
    ensures forall k :: 0 <= k < |sent| ==>
              sent[k] == if Boundary(ps, |sent|) < PACKET_BUFFER_LEN then Frame(ps[k]) else [0]
  {
    hide SlotOf, Frame, Frames, WellFramed;
    var pb := new PacketBuffer();
    LoadAll(pb, ps);
    prepared := PrepareAll(pb, ps);
    sent := SendAll(pb, ps[..|prepared|]);
  }

  /** Ten packets of 87 bytes: every frame is well framed, and together they take the whole ring. */
  lemma TenPacketsFillTheRing(p: WirePacket)
    requires Wired(p) && p.len == |p.data| == 87
    ensures var ps := seq(10, _ => p); Framed(ps) && |Frames(ps)| == PACKET_BUFFER_LEN
  {
    hide Frame;
    FramesOfOne(p, 10);
  }

  lemma {:induction false} FramesOfOne(p: WirePacket, n: nat)
    requires Wired(p)
    ensures |Frames(seq(n, _ => p))| == n * |Frame(p)|
  {
    if n > 0 {
      FramesOfOne(p, n - 1);
      assert seq(n, _ => p)[..n - 1] == seq(n - 1, _ => p);
    }
  }

  /** They are loaded and pre-processed without a fault, and none of them can be transmitted. */
  method TenPacketsAreStuck(p: WirePacket) returns (prepared: seq<seq<byte>>, sent: seq<seq<byte>>)
    requires Wired(p) && p.len == |p.data| == 87
    ensures prepared == seq(10, _ => Frame(p)) && sent == seq(10, _ => [0])
  {
    hide Frame, Frames, WellFramed;
    var ps := seq(10, _ => p);
    TenPacketsFillTheRing(p);
    prepared, sent := FramedRoundTrip(ps);
    AllFrames(ps);
    if |prepared| < 10 {
      BoundariesOrdered(ps, |prepared| + 1, 10);
    }
    assert ps[..10] == ps;
  }
}
