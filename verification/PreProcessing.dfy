/**
 From packets in the packet buffer to match fields in the match field buffer, and
 out again in step (pre-composer/pre_processing.h).
 */
module PreProcessing {
  import opened Bytes
  import opened Fields
  import opened Matching
  import opened MatchFieldLayout
  import opened MatchFieldMeaning
  import opened PacketBuffers
  import opened Packets
  import opened MatchFieldBuffers

  const MAX_PACKET_SIZE: nat := 100

  // ---- writing the match field ----

  lemma AfterNext(init: MatchField, calls: seq<Call>, c: Call, pkt: seq<byte>)
    requires AllFit(calls, pkt) && Fits(c, pkt)
    ensures AllFit(calls + [c], pkt)
    ensures After(init, calls + [c], pkt) == Replace(After(init, calls, pkt), c.to, Written(c, pkt))
  {
    assert (calls + [c])[..|calls|] == calls;
  }

  method SetMatchFieldBits(pkt: array<byte>, matchField: array<byte>, startPkt: nat, startMf: nat, length: nat)
    requires pkt != matchField
    requires startPkt + length <= 8 * pkt.Length && startMf + length <= 8 * matchField.Length
    modifies matchField
    ensures matchField[..] == Replace(old(matchField[..]), startMf, Extract(pkt[..], startPkt, length))
  {
    hide Bit, PutBit;
    ghost var v := Extract(pkt[..], startPkt, length);
    for i := 0 to length
      invariant matchField[..] == Replace(old(matchField[..]), startMf, v[..i])
    {
      assert v[..i + 1][..i] == v[..i] && v[..i + 1][i] == Bit(pkt[..], startPkt + i);
      if ReadBit(pkt, startPkt + i) {
        SetBit(matchField, startMf + i);
      } else {
        ResetBit(matchField, startMf + i);
      }
    }
    assert v[..length] == v;
  }

  /** Sets ones, whatever its name says. */
  method SetMatchFieldBitsAsZeros(matchField: array<byte>, startMf: nat, length: nat)
    requires startMf + length <= 8 * matchField.Length
    modifies matchField
    ensures matchField[..] == Replace(old(matchField[..]), startMf, seq(length, _ => true))
  {
    hide Bit, PutBit;
    ghost var v := seq(length, _ => true);
    for i := 0 to length
      invariant matchField[..] == Replace(old(matchField[..]), startMf, v[..i])
    {
      assert v[..i + 1][..i] == v[..i];
      SetBit(matchField, startMf + i);
    }
    assert v[..length] == v;
  }

  /** Ingress port, metadata, both MAC addresses and the EtherType. */
  method ComposeEthernet(pkt: array<byte>, matchField: array<byte>)
    returns (pktLength: nat, mfLength: nat, bits: nat, ghost calls: seq<Call>)
    requires pkt.Length == MAX_PACKET_SIZE && matchField.Length == MTCH_FLD_LEN && pkt != matchField
    modifies matchField
    ensures pktLength == 200 && mfLength == 192 && bits == 16
    ensures calls == [Call(0, 96, FromPacket(8)), Call(144, 48, FromPacket(104)), Call(96, 48, FromPacket(152)),
                      Call(192, 16, FromPacket(200))]
    ensures AllFit(calls, pkt[..]) && matchField[..] == After(old(matchField[..]), calls, pkt[..])
  {
    hide After, AllFit;
    ghost var init := matchField[..];
    AfterNone(init, pkt[..]);
    mfLength, pktLength, bits := 0, 8, 32 + 64;
    calls := CopyNext(pkt, matchField, pktLength, mfLength, bits, init, []);
    pktLength, mfLength, bits := pktLength + bits, mfLength + bits + 48, 48;
    calls := CopyNext(pkt, matchField, pktLength, mfLength, bits, init, calls);
    pktLength, mfLength, bits := pktLength + bits, mfLength - 48, 48;
    calls := CopyNext(pkt, matchField, pktLength, mfLength, bits, init, calls);
    pktLength, mfLength, bits := pktLength + bits, mfLength + 48 + 48, 16;
    calls := CopyNext(pkt, matchField, pktLength, mfLength, bits, init, calls);
  }

  /** VLAN and MPLS tags, copied or filled as the EtherType says. */
  method ComposeTags(pkt: array<byte>, matchField: array<byte>, pktLength0: nat, mfLength0: nat, bits0: nat,
                     ghost init: MatchField, ghost calls: seq<Call>)
    returns (pktLength: nat, mfLength: nat, bits: nat, ghost tags: seq<Call>)
    requires pkt.Length == MAX_PACKET_SIZE && matchField.Length == MTCH_FLD_LEN && pkt != matchField
    requires pktLength0 == 200 && mfLength0 == 192 && bits0 == 16
    requires AllFit(calls, pkt[..]) && matchField[..] == After(init, calls, pkt[..])
    modifies matchField
    ensures match KindOf(pkt[..])
            case IPv4 => (pktLength, mfLength, bits) == (200, 208, 38) && tags == [Call(208, 38, Fill)]
            case Vlan => (pktLength, mfLength, bits) == (236, 223, 23)
                         && tags == [Call(220, 3, FromPacket(232)), Call(208, 12, FromPacket(236)), Call(223, 23, Fill)]
            case Mpls => (pktLength, mfLength, bits) == (224, 223, 23)
                         && tags == [Call(208, 15, Fill), Call(223, 23, FromPacket(215))]
            case Other => (pktLength, mfLength, bits) == (200, 192, 16) && tags == []
    ensures AllFit(calls + tags, pkt[..]) && matchField[..] == After(init, calls + tags, pkt[..])
  {
    hide After, AllFit;
    pktLength, mfLength, bits := pktLength0, mfLength0, bits0;
    var additionalTagLength := 0;
    ghost var all := calls;
    if pkt[25] == 8 && pkt[26] == 0 {
      mfLength, bits := mfLength + bits, 12 + 3 + 20 + 3;
      all := FillNext(pkt, matchField, mfLength, bits, init, all);
    } else if pkt[25] == 129 && pkt[26] == 0 {
      pktLength, mfLength, bits := pktLength + bits + 16, mfLength + bits + 12, 3;
      all := CopyNext(pkt, matchField, pktLength, mfLength, bits, init, all);
      pktLength, mfLength, bits := pktLength + bits + 1, mfLength - 12, 12;
      all := CopyNext(pkt, matchField, pktLength, mfLength, bits, init, all);
      mfLength, bits := mfLength + bits + 3, 20 + 3;
      all := FillNext(pkt, matchField, mfLength, bits, init, all);
    } else if pkt[25] == 136 && pkt[26] == 71 {
      mfLength, bits := mfLength + bits, 12 + 3;
      all := FillNext(pkt, matchField, mfLength, bits, init, all);
      mfLength, pktLength, bits := mfLength + bits, pktLength + bits, 20 + 3;
      all := CopyNext(pkt, matchField, pktLength, mfLength, bits, init, all);
      additionalTagLength := 9;
    }
    pktLength := pktLength + additionalTagLength;
    tags := all[|calls|..];
    assert all == calls + tags;
  }

  /** ToS, protocol, both IPv4 addresses and both ports. */
  method ComposeNetwork(pkt: array<byte>, matchField: array<byte>, pktLength0: nat, mfLength0: nat, bits0: nat,
                        ghost init: MatchField, ghost calls: seq<Call>)
    returns (ghost network: seq<Call>)
    requires pkt.Length == MAX_PACKET_SIZE && matchField.Length == MTCH_FLD_LEN && pkt != matchField
    requires pktLength0 + bits0 + 8 + 190 <= 8 * MAX_PACKET_SIZE && mfLength0 + bits0 + 110 <= FIELD_BITS
    requires AllFit(calls, pkt[..]) && matchField[..] == After(init, calls, pkt[..])
    modifies matchField
    ensures var p, m := pktLength0 + bits0 + 8, mfLength0 + bits0;
            network == [Call(m + 72, 6, FromPacket(p)), Call(m + 64, 8, FromPacket(p + 62)),
                        Call(m, 32, FromPacket(p + 86)), Call(m + 32, 32, FromPacket(p + 118)),
                        Call(m + 78, 16, FromPacket(p + 150)), Call(m + 94, 16, FromPacket(p + 166))]
    ensures AllFit(calls + network, pkt[..]) && matchField[..] == After(init, calls + network, pkt[..])
  {
    hide After, AllFit;
    var pktLength, mfLength, bits := pktLength0 + bits0 + 8, mfLength0 + bits0 + 32 + 32 + 8, 6;
    ghost var all := CopyNext(pkt, matchField, pktLength, mfLength, bits, init, calls);
    pktLength, mfLength, bits := pktLength + bits + 56, mfLength - 8, 8;
    all := CopyNext(pkt, matchField, pktLength, mfLength, bits, init, all);
    pktLength, mfLength, bits := pktLength + bits + 16, mfLength - 32 - 32, 32;
    all := CopyNext(pkt, matchField, pktLength, mfLength, bits, init, all);
    pktLength, mfLength, bits := pktLength + bits, mfLength + bits, 32;
    all := CopyNext(pkt, matchField, pktLength, mfLength, bits, init, all);
    pktLength, mfLength, bits := pktLength + bits, mfLength + bits + 8 + 6, 16;
    all := CopyNext(pkt, matchField, pktLength, mfLength, bits, init, all);
    pktLength, mfLength, bits := pktLength + bits, mfLength + bits, 16;
    all := CopyNext(pkt, matchField, pktLength, mfLength, bits, init, all);
    network := all[|calls|..];
    assert all == calls + network;
  }

  /**
   The body of `prepare_match_field` between reading the packet and passing the
   match field on: its running offsets come out as the calls of MatchFieldLayout.
   */
  method ComposeMatchField(pkt: array<byte>, matchField: array<byte>)
    requires pkt.Length == MAX_PACKET_SIZE && matchField.Length == MTCH_FLD_LEN && pkt != matchField
    modifies matchField
    ensures AllFit(Calls(KindOf(pkt[..])), pkt[..])
    ensures matchField[..] == After(old(matchField[..]), Calls(KindOf(pkt[..])), pkt[..])
  {
    hide After, AllFit;
    ghost var init := matchField[..];
    var pktLength, mfLength, bits;
    ghost var ethernet, tags, network;
    pktLength, mfLength, bits, ethernet := ComposeEthernet(pkt, matchField);
    pktLength, mfLength, bits, tags := ComposeTags(pkt, matchField, pktLength, mfLength, bits, init, ethernet);
    network := ComposeNetwork(pkt, matchField, pktLength, mfLength, bits, init, ethernet + tags);
    assert ethernet + tags + network == Calls(KindOf(pkt[..]));
  }

  lemma AfterNone(init: MatchField, pkt: seq<byte>)
    ensures AllFit([], pkt) && After(init, [], pkt) == init
  {
  }

  /** One copy, and the record of it. */
  method CopyNext(pkt: array<byte>, matchField: array<byte>, startPkt: nat, startMf: nat, length: nat,
                  ghost init: MatchField, ghost calls: seq<Call>)
    returns (ghost calls': seq<Call>)
    requires pkt != matchField && matchField.Length == MTCH_FLD_LEN
    requires startPkt + length <= 8 * pkt.Length && startMf + length <= FIELD_BITS
    requires AllFit(calls, pkt[..]) && matchField[..] == After(init, calls, pkt[..])
    modifies matchField
    ensures calls' == calls + [Call(startMf, length, FromPacket(startPkt))]
    ensures AllFit(calls', pkt[..]) && matchField[..] == After(init, calls', pkt[..])
  {
    hide Bit, Replace, Extract, After;
    AfterNext(init, calls, Call(startMf, length, FromPacket(startPkt)), pkt[..]);
    SetMatchFieldBits(pkt, matchField, startPkt, startMf, length);
    calls' := calls + [Call(startMf, length, FromPacket(startPkt))];
  }

  method FillNext(pkt: array<byte>, matchField: array<byte>, startMf: nat, length: nat,
                  ghost init: MatchField, ghost calls: seq<Call>)
    returns (ghost calls': seq<Call>)
    requires pkt != matchField && matchField.Length == MTCH_FLD_LEN && startMf + length <= FIELD_BITS
    requires AllFit(calls, pkt[..]) && matchField[..] == After(init, calls, pkt[..])
    modifies matchField
    ensures calls' == calls + [Call(startMf, length, Fill)]
    ensures AllFit(calls', pkt[..]) && matchField[..] == After(init, calls', pkt[..])
  {
    hide Bit, Replace, Extract, After;
    AfterNext(init, calls, Call(startMf, length, Fill), pkt[..]);
    SetMatchFieldBitsAsZeros(matchField, startMf, length);
    calls' := calls + [Call(startMf, length, Fill)];
  }

  // ---- histories of whole records ----

  function Records(fs: seq<MatchField>): (s: seq<byte>)
    ensures |s| == MTCH_FLD_LEN * |fs|
  {
    if |fs| == 0 then [] else Records(fs[..|fs| - 1]) + fs[|fs| - 1]
  }

  lemma RecordAppended(fs: seq<MatchField>, f: MatchField)
    ensures Records(fs + [f]) == Records(fs) + f
  {
    assert (fs + [f])[..|fs|] == fs;
  }

  /** The length of the ring is no multiple of that of a record. */
  lemma RecordsNeverFillTheRing(composed: nat, returned: nat)
    ensures MTCH_FLD_LEN * composed != MTCH_FLD_LEN * returned + MATCH_FIELD_BUFFER_LEN
  {
    assert MATCH_FIELD_BUFFER_LEN % MTCH_FLD_LEN != 0;
  }

  lemma {:induction false} RecordInRecords(fs: seq<MatchField>, k: nat, j: nat)
    requires k < |fs| && j < MTCH_FLD_LEN
    ensures MTCH_FLD_LEN * k + j < |Records(fs)| && Records(fs)[MTCH_FLD_LEN * k + j] == fs[k][j]
    decreases |fs|
  {
    if k < |fs| - 1 {
      RecordInRecords(fs[..|fs| - 1], k, j);
    }
  }

  /** How many bytes of one more record the ring takes. */
  function RecordRoom(waiting: nat): (n: nat)
    requires waiting <= MATCH_FIELD_BUFFER_LEN
    ensures n <= MTCH_FLD_LEN
  {
    Least(MTCH_FLD_LEN, MATCH_FIELD_BUFFER_LEN - waiting)
  }

  /** The closing loop of `prepare_match_field`; whatever no longer fits is dropped. */
  method AddRecord(mf: MatchFieldBuffer, matchField: array<byte>)
    requires mf.Valid() && !mf.bufferFull && matchField != mf.ring && matchField.Length == MTCH_FLD_LEN
    modifies mf, mf.ring
    ensures mf.Valid() && mf.gone == old(mf.gone)
    ensures mf.stream == old(mf.stream) + matchField[..RecordRoom(old(|mf.stream| - mf.gone))]
    ensures mf.bufferFull <==> |mf.stream| == mf.gone + MATCH_FIELD_BUFFER_LEN
  {
    hide SlotOf;
    for i := 0 to MTCH_FLD_LEN
      invariant mf.Valid() && mf.gone == old(mf.gone)
      invariant mf.stream == old(mf.stream) + matchField[..Least(i, RecordRoom(old(|mf.stream| - mf.gone)))]
      invariant mf.bufferFull <==> |mf.stream| == mf.gone + MATCH_FIELD_BUFFER_LEN
    {
      mf.Add(matchField[i]);
    }
  }

  /**
   Both buffers, with the history of what went through them: packets loaded,
   match fields composed, and how many pairs have been returned.
   */
  class PreProcessor {
    const pb: PacketBuffer
    const mf: MatchFieldBuffer

    ghost var loaded: seq<WirePacket>
    ghost var fields: seq<MatchField>
    ghost var returned: nat

    /**
     The two buffers are in step: `returned` frames and as many match fields have left,
     and every match field is that of its packet.
     */
    ghost predicate Valid()
      reads this, pb, pb.ring, mf, mf.ring
    {
      && pb.ring != mf.ring
      && PacketsHeld(returned) && |pb.stream| == |Frames(loaded)|
      && FieldsHeld(returned) && returned <= |fields| <= |loaded|
      && forall k :: 0 <= k < |fields| ==> Faithful(loaded[k], fields[k])
    }

    ghost predicate PacketsHeld(sent: nat)
      reads this, pb, pb.ring
    {
      && Holds(pb, loaded, |fields|, sent)
      && forall k :: 0 <= k < |fields| ==> |Frame(loaded[k])| <= MAX_PACKET_SIZE
    }

    ghost predicate FieldsHeld(sent: nat)
      reads this, mf, mf.ring
    {
      mf.Valid() && !mf.bufferFull && mf.stream == Records(fields) && mf.gone == MTCH_FLD_LEN * sent
    }

    constructor ()
      ensures Valid() && fresh(pb) && fresh(pb.ring) && fresh(mf) && fresh(mf.ring)
      ensures loaded == [] && fields == [] && returned == 0 && !pb.bufferFull
    {
      pb := new PacketBuffer();
      mf := new MatchFieldBuffer();
      loaded, fields, returned := [], [], 0;
    }

    /** One more packet: the buffers stay in step exactly when its frame is well formed and fits the ring. */
    method Load(p: WirePacket)
      requires Valid() && Wired(p)
      modifies this, pb, pb.ring
      ensures loaded == old(loaded) + [p] && fields == old(fields) && returned == old(returned)
      ensures Valid() <==> WellFramed(p) && old(HasRoom(pb, |Frame(p)|))
      ensures pb.gone == old(pb.gone) && pb.read == old(pb.read)
      ensures pb.bufferFull <==> old(pb.bufferFull) || |pb.stream| == pb.gone + PACKET_BUFFER_LEN
    {
      hide SlotOf, Frame, Boundary, Frames, Records, Faithful, WellFramed;
      LoadFrame(pb, p, loaded, |fields|, returned);
      loaded := loaded + [p];
    }

    /**
     Composes the match field of the next packet and puts it into the match field
     buffer. The buffers stay in step exactly when there is room for it.
     */
    method PrepareMatchField()
      requires Valid() && |fields| < |loaded| && |Frame(loaded[|fields|])| <= MAX_PACKET_SIZE
      modifies this, pb, mf, mf.ring
      ensures loaded == old(loaded) && returned == old(returned)
      ensures |fields| == old(|fields|) + 1 && fields[..old(|fields|)] == old(fields)
      ensures pb.stream == old(pb.stream) && pb.gone == old(pb.gone) && pb.bufferFull == old(pb.bufferFull)
      ensures Valid() <==> old(|mf.stream| + MTCH_FLD_LEN <= mf.gone + MATCH_FIELD_BUFFER_LEN)
    {
      hide SlotOf, Frame, Boundary, Frames, Records, Faithful, Holds;
      var matchField := ComposeNext();
      RecordAppended(fields, matchField[..]);
      RecordsNeverFillTheRing(|fields|, returned);
      AddRecord(mf, matchField);
      fields := fields + [matchField[..]];
    }

    /** Reads the packet after those already pre-processed, and composes its match field. */
    method ComposeNext() returns (matchField: array<byte>)
      requires PacketsHeld(returned) && |fields| < |loaded| && |Frame(loaded[|fields|])| <= MAX_PACKET_SIZE
      modifies pb
      ensures fresh(matchField) && matchField.Length == MTCH_FLD_LEN
      ensures Holds(pb, loaded, |fields| + 1, returned)
      ensures pb.stream == old(pb.stream) && pb.gone == old(pb.gone) && pb.bufferFull == old(pb.bufferFull)
      ensures Faithful(loaded[|fields|], matchField[..])
    {
      hide SlotOf, Frame, Boundary, Frames, Faithful, After, Calls, AllFit, KindOf;
      matchField := new byte[MTCH_FLD_LEN];
      var pkt := new byte[MAX_PACKET_SIZE];
      ghost var init := matchField[..];
      ReadForPreprocessing(pb, pkt, loaded, |fields|, returned);
      ComposeMatchField(pkt, matchField);
      ComposedIsFaithful(loaded[|fields|], pkt[..], init);
    }

    /**
     Returns the oldest match field together with the oldest packet. They belong to
     each other: the k-th pair returned is the k-th packet loaded and the match
     field composed from that packet. The buffers fall out of step exactly when the
     ring is full of pre-processed packets: then the match field leaves without its
     packet.
     */
    method ReturnMatchFieldAndPacket(returnMtchFld: array<byte>, returnPacket: array<byte>)
      requires Valid()
      requires returnMtchFld.Length == MTCH_FLD_LEN && returnPacket.Length >= MAX_PACKET_SIZE
      requires returnMtchFld != returnPacket
      requires returnMtchFld != pb.ring && returnMtchFld != mf.ring
      requires returnPacket != pb.ring && returnPacket != mf.ring
      modifies this, pb, mf, returnMtchFld, returnPacket
      ensures loaded == old(loaded) && fields == old(fields)
      ensures returned == if old(returned) < |fields| then old(returned) + 1 else old(returned)
      ensures Valid() <==> old(returned) == |fields| || old(pb.read < pb.gone + PACKET_BUFFER_LEN)
      ensures old(returned) < |fields| ==>
                && returnMtchFld[..] == fields[old(returned)]
                && Faithful(loaded[old(returned)], returnMtchFld[..])
      ensures old(returned) < |fields| && Valid() ==> Frame(loaded[old(returned)]) <= returnPacket[..]
      ensures !Valid() ==> returnPacket[..] == old(returnPacket[..])
      ensures pb.stream == old(pb.stream) && mf.stream == old(mf.stream) && pb.bufferFull == old(pb.bufferFull)
    {
      hide SlotOf, Frame, Boundary, Frames, Records, Faithful, Holds;
      ReturnField(returnMtchFld);
      ReturnPacket(returnPacket);
      returned := if returned < |fields| then returned + 1 else returned;
    }

    /** The record read is the one of the oldest pair. */
    method ReturnField(returnMtchFld: array<byte>)
      requires FieldsHeld(returned) && returned <= |fields|
      requires returnMtchFld.Length == MTCH_FLD_LEN && returnMtchFld != mf.ring
      modifies mf, returnMtchFld
      ensures FieldsHeld(if returned < |fields| then returned + 1 else returned) && mf.stream == old(mf.stream)
      ensures returned < |fields| ==> returnMtchFld[..] == fields[returned]
    {
      hide SlotOf, Records;
      if returned < |fields| {
        forall j | 0 <= j < MTCH_FLD_LEN
          ensures MTCH_FLD_LEN * returned + j < |Records(fields)|
          ensures Records(fields)[MTCH_FLD_LEN * returned + j] == fields[returned][j]
        {
          RecordInRecords(fields, returned, j);
        }
      }
      mf.ReadAMatchField(returnMtchFld);
    }

    /** The packet read is the one of the oldest pair, unless the ring is full of pre-processed packets. */
    method ReturnPacket(returnPacket: array<byte>)
      requires PacketsHeld(returned) && returnPacket.Length >= MAX_PACKET_SIZE && returnPacket != pb.ring
      modifies pb, returnPacket
      ensures pb.stream == old(pb.stream) && pb.bufferFull == old(pb.bufferFull)
      ensures PacketsHeld(if returned < |fields| then returned + 1 else returned)
              <==> returned == |fields| || old(pb.read < pb.gone + PACKET_BUFFER_LEN)
      ensures returned < |fields| ==>
                if old(pb.read < pb.gone + PACKET_BUFFER_LEN) then Frame(loaded[returned]) <= returnPacket[..]
                else returnPacket[..] == old(returnPacket[..])
    {
      hide SlotOf, Frame, Boundary, Frames;
      if returned < |fields| {
        BoundariesOrdered(loaded, returned, returned + 1);
      }
      ReadForTransmission(pb, returnPacket, loaded, |fields|, returned);
    }
  }
}
