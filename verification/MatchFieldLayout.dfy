/**
 Where `prepare_match_field` puts what (pre-composer/pre_processing.h:5-28, 61-191).

 The match field is the fifteen header fields one after the other, in the order
 and with the lengths of `pkt_headers`. The code writes it with a dozen copies
 and fills at running offsets; `Calls` lists those, `FieldStart` does not.
 */
module MatchFieldLayout {
  import opened Bytes
  import opened Fields
  import opened Matching

  const NO_OF_HEADERS: nat := 15
  /** The bits that fields occupy; bits 356..359 of a match field belong to none. */
  const FIELD_BITS: nat := 356

  function HeaderLength(f: nat): (n: nat)
    requires f < NO_OF_HEADERS
  {
    [32, 64, 48, 48, 16, 12, 3, 20, 3, 32, 32, 8, 6, 16, 16][f]
  }

  /** Where header field `f` belongs: after all the fields before it. */
  function FieldStart(f: nat): nat
    requires f <= NO_OF_HEADERS
  {
    if f == 0 then 0 else FieldStart(f - 1) + HeaderLength(f - 1)
  }

  datatype Kind = IPv4 | Vlan | Mpls | Other

  /** The EtherType test, on the bytes of the framed packet. */
  function KindOf(pkt: seq<byte>): Kind
    requires |pkt| > 26
  {
    if pkt[25] == 8 && pkt[26] == 0 then IPv4
    else if pkt[25] == 129 && pkt[26] == 0 then Vlan
    else if pkt[25] == 136 && pkt[26] == 71 then Mpls
    else Other
  }

  /** Bits of the packet, or the fill value, for a stretch of the match field. */
  datatype Source = FromPacket(start: nat) | Fill

  /** One call: `n` bits written to the match field from bit `to` on. */
  datatype Call = Call(to: nat, n: nat, source: Source)

  /** The calls of the code, in order, with the offsets it has computed by then. */
  function Calls(kind: Kind): seq<Call> {
    [Call(0, 96, FromPacket(8)), Call(144, 48, FromPacket(104)), Call(96, 48, FromPacket(152)),
     Call(192, 16, FromPacket(200))]
    + match kind
      case IPv4 =>
        [Call(208, 38, Fill),
         Call(318, 6, FromPacket(246)), Call(310, 8, FromPacket(308)), Call(246, 32, FromPacket(332)),
         Call(278, 32, FromPacket(364)), Call(324, 16, FromPacket(396)), Call(340, 16, FromPacket(412))]
      case Vlan =>
        [Call(220, 3, FromPacket(232)), Call(208, 12, FromPacket(236)), Call(223, 23, Fill),
         Call(318, 6, FromPacket(267)), Call(310, 8, FromPacket(329)), Call(246, 32, FromPacket(353)),
         Call(278, 32, FromPacket(385)), Call(324, 16, FromPacket(417)), Call(340, 16, FromPacket(433))]
      case Mpls =>
        [Call(208, 15, Fill), Call(223, 23, FromPacket(215)),
         Call(318, 6, FromPacket(255)), Call(310, 8, FromPacket(317)), Call(246, 32, FromPacket(341)),
         Call(278, 32, FromPacket(373)), Call(324, 16, FromPacket(405)), Call(340, 16, FromPacket(421))]
      case Other =>
        [Call(280, 6, FromPacket(224)), Call(272, 8, FromPacket(286)), Call(208, 32, FromPacket(310)),
         Call(240, 32, FromPacket(342)), Call(286, 16, FromPacket(374)), Call(302, 16, FromPacket(390))]
  }

  /** Bits of the framed packet that the calls read: those before this one. */
  function BitsRead(kind: Kind): nat {
    match kind
    case IPv4 => 428
    case Vlan => 449
    case Mpls => 437
    case Other => 406
  }

  predicate Fits(c: Call, pkt: seq<byte>) {
    c.to + c.n <= FIELD_BITS && (c.source.FromPacket? ==> c.source.start + c.n <= 8 * |pkt|)
  }

  /** The bits a call writes. `set_match_field_bits_as_zeros` sets ones. */
  function Written(c: Call, pkt: seq<byte>): (v: seq<bool>)
    requires Fits(c, pkt)
    ensures |v| == c.n
  {
    match c.source
    case FromPacket(start) => Extract(pkt, start, c.n)
    case Fill => seq(c.n, _ => true)
  }

  predicate AllFit(calls: seq<Call>, pkt: seq<byte>) {
    forall i :: 0 <= i < |calls| ==> Fits(calls[i], pkt)
  }

  /** The match field after a list of calls. */
  function After(init: MatchField, calls: seq<Call>, pkt: seq<byte>): (r: MatchField)
    requires AllFit(calls, pkt)
    decreases |calls|
  {
    if |calls| == 0 then init
    else
      var n := |calls| - 1;
      Replace(After(init, calls[..n], pkt), calls[n].to, Written(calls[n], pkt))
  }

  predicate Covers(c: Call, q: nat) {
    c.to <= q < c.to + c.n
  }

  lemma CallsFit(kind: Kind, pkt: seq<byte>)
    requires BitsRead(kind) <= 8 * |pkt|
    ensures AllFit(Calls(kind), pkt)
  {
  }

  // ---- each bit exactly once ----

  /** The call that covers a given bit. */
  function Writer(kind: Kind, q: nat): (i: nat)
    requires kind != Other && q < FIELD_BITS
    ensures i < |Calls(kind)|
  {
    if q < 96 then 0 else if q < 144 then 2 else if q < 192 then 1 else if q < 208 then 3
    else match kind
      case IPv4 =>
        if q < 246 then 4 else if q < 278 then 7 else if q < 310 then 8 else if q < 318 then 6
        else if q < 324 then 5 else if q < 340 then 9 else 10
      case Vlan =>
        if q < 220 then 5 else if q < 223 then 4 else if q < 246 then 6 else if q < 278 then 9
        else if q < 310 then 10 else if q < 318 then 8 else if q < 324 then 7 else if q < 340 then 11 else 12
      case Mpls =>
        if q < 223 then 4 else if q < 246 then 5 else if q < 278 then 8 else if q < 310 then 9
        else if q < 318 then 7 else if q < 324 then 6 else if q < 340 then 10 else 11
  }

  /** For every recognised EtherType, each of bits 0..355 is written by one call and by no other. */
  lemma EachBitWrittenOnce(kind: Kind, q: nat)
    requires kind != Other && q < FIELD_BITS
    ensures exists i :: OnlyWriter(kind, i, q)
  {
    WriterIsOnly(kind, q);
    assert OnlyWriter(kind, Writer(kind, q), q);
  }

  ghost predicate OnlyWriter(kind: Kind, i: nat, q: nat) {
    && i < |Calls(kind)|
    && forall j :: 0 <= j < |Calls(kind)| ==> (Covers(Calls(kind)[j], q) <==> j == i)
  }

  lemma WriterIsOnly(kind: Kind, q: nat)
    requires kind != Other && q < FIELD_BITS
    ensures forall j :: 0 <= j < |Calls(kind)| ==> (Covers(Calls(kind)[j], q) <==> j == Writer(kind, q))
  {
  }

  /** For any other EtherType the calls leave bits 318..355 as they were in the uninitialised buffer. */
  lemma OtherKindsLeaveBits(q: nat)
    requires 318 <= q < FIELD_BITS
    ensures forall j :: 0 <= j < |Calls(Other)| ==> !Covers(Calls(Other)[j], q)
  {
  }

  // ---- what the bits are ----

  function CallBit(c: Call, pkt: seq<byte>, q: nat): bool
    requires Fits(c, pkt) && Covers(c, q)
  {
    Written(c, pkt)[q - c.to]
  }

  lemma {:induction false} BitAfter(init: MatchField, calls: seq<Call>, pkt: seq<byte>, i: nat, q: nat)
    requires AllFit(calls, pkt) && q < FIELD_BITS && i < |calls|
    requires forall j :: 0 <= j < |calls| ==> (Covers(calls[j], q) <==> j == i)
    ensures Bit(After(init, calls, pkt), q) == CallBit(calls[i], pkt, q)
    decreases |calls|
  {
    hide Bit, Written;
    var n := |calls| - 1;
    var before := After(init, calls[..n], pkt);
    ReplaceAt(before, calls[n].to, Written(calls[n], pkt), q);
    if i < n {
      BitAfter(init, calls[..n], pkt, i, q);
    }
  }

  lemma {:induction false} BitUntouched(init: MatchField, calls: seq<Call>, pkt: seq<byte>, q: nat)
    requires AllFit(calls, pkt) && q < FIELD_BITS
    requires forall j :: 0 <= j < |calls| ==> !Covers(calls[j], q)
    ensures Bit(After(init, calls, pkt), q) == Bit(init, q)
    decreases |calls|
  {
    hide Bit, Written;
    if |calls| > 0 {
      var n := |calls| - 1;
      ReplaceAt(After(init, calls[..n], pkt), calls[n].to, Written(calls[n], pkt), q);
      BitUntouched(init, calls[..n], pkt, q);
    }
  }

  /** Where the value of header field `f` comes from. */
  function FieldSource(kind: Kind, f: nat): Source
    requires kind != Other && f < NO_OF_HEADERS
  {
    if f < 5 then [FromPacket(8), FromPacket(40), FromPacket(152), FromPacket(104), FromPacket(200)][f]
    else match kind
      case IPv4 =>
        [Fill, Fill, Fill, Fill, FromPacket(332), FromPacket(364), FromPacket(308), FromPacket(246),
         FromPacket(396), FromPacket(412)][f - 5]
      case Vlan =>
        [FromPacket(236), FromPacket(232), Fill, Fill, FromPacket(353), FromPacket(385), FromPacket(329),
         FromPacket(267), FromPacket(417), FromPacket(433)][f - 5]
      case Mpls =>
        [Fill, Fill, FromPacket(215), FromPacket(235), FromPacket(341), FromPacket(373), FromPacket(317),
         FromPacket(255), FromPacket(405), FromPacket(421)][f - 5]
  }

  /** The value header field `f` of a packet should have in its match field. */
  function FieldValue(pkt: seq<byte>, f: nat): (v: seq<bool>)
    requires |pkt| > 26 && KindOf(pkt) != Other && BitsRead(KindOf(pkt)) <= 8 * |pkt| && f < NO_OF_HEADERS
    ensures |v| == HeaderLength(f)
  {
    SourcesInside(KindOf(pkt), f);
    match FieldSource(KindOf(pkt), f)
    case FromPacket(start) => Extract(pkt, start, HeaderLength(f))
    case Fill => seq(HeaderLength(f), _ => true)
  }

  lemma SourcesInside(kind: Kind, f: nat)
    requires kind != Other && f < NO_OF_HEADERS
    ensures FieldSource(kind, f).FromPacket? ==> FieldSource(kind, f).start + HeaderLength(f) <= BitsRead(kind)
  {
  }

  /** The starts of the fifteen fields. */
  lemma FieldStarts()
    ensures FieldStart(0) == 0 && FieldStart(1) == 32 && FieldStart(2) == 96 && FieldStart(3) == 144
    ensures FieldStart(4) == 192 && FieldStart(5) == 208 && FieldStart(6) == 220 && FieldStart(7) == 223
    ensures FieldStart(8) == 243 && FieldStart(9) == 246 && FieldStart(10) == 278 && FieldStart(11) == 310
    ensures FieldStart(12) == 318 && FieldStart(13) == 324 && FieldStart(14) == 340 && FieldStart(15) == FIELD_BITS
  {
    assert FieldStart(3) == 144;
    assert FieldStart(6) == 220;
    assert FieldStart(9) == 246;
    assert FieldStart(12) == 318;
  }

  predicate WrittenFromSource(kind: Kind, f: nat, k: nat)
    requires kind != Other && f < NO_OF_HEADERS
  {
    var q := FieldStart(f) + k;
    && q < FIELD_BITS
    && var c := Calls(kind)[Writer(kind, q)];
       && Covers(c, q)
       && c.source.Fill? == FieldSource(kind, f).Fill?
       && (c.source.FromPacket? ==> c.source.start + (q - c.to) == FieldSource(kind, f).start + k)
  }

  /** The call that writes a bit of field `f` takes it from where the field comes from. */
  lemma WriterOfField(kind: Kind, f: nat, k: nat)
    requires kind != Other && f < NO_OF_HEADERS && k < HeaderLength(f)
    ensures WrittenFromSource(kind, f, k)
  {
    FieldStarts();
    if f < 5 {
      CommonFields(kind, f, k);
    } else if f < 9 {
      TagFields(kind, f, k);
    } else {
      NetworkFields(kind, f, k);
    }
  }

  lemma CommonFields(kind: Kind, f: nat, k: nat)
    requires kind != Other && f < 5 && k < HeaderLength(f)
    ensures WrittenFromSource(kind, f, k)
  {
    FieldStarts();
    hide FieldStart;
    assert f == 0 || f == 1 || f == 2 || f == 3 || f == 4;
  }

  lemma TagFields(kind: Kind, f: nat, k: nat)
    requires kind != Other && 5 <= f < 9 && k < HeaderLength(f)
    ensures WrittenFromSource(kind, f, k)
  {
    FieldStarts();
    hide FieldStart;
    assert f == 5 || f == 6 || f == 7 || f == 8;
    match kind case IPv4 => case Vlan => case Mpls =>
  }

  lemma NetworkFields(kind: Kind, f: nat, k: nat)
    requires kind != Other && 9 <= f < NO_OF_HEADERS && k < HeaderLength(f)
    ensures WrittenFromSource(kind, f, k)
  {
    FieldStarts();
    hide FieldStart;
    assert f == 9 || f == 10 || f == 11 || f == 12 || f == 13 || f == 14;
    match kind case IPv4 => case Vlan => case Mpls =>
  }

  /**
   For every recognised packet, whatever the buffer held before, every header
   field stands at its own place with the value it should have.
   */
  lemma FieldInPlace(init: MatchField, pkt: seq<byte>, f: nat)
    requires |pkt| > 26 && KindOf(pkt) != Other && BitsRead(KindOf(pkt)) <= 8 * |pkt| && f < NO_OF_HEADERS
    ensures FieldStart(f) + HeaderLength(f) <= FIELD_BITS
    ensures AllFit(Calls(KindOf(pkt)), pkt)
    ensures Extract(After(init, Calls(KindOf(pkt)), pkt), FieldStart(f), HeaderLength(f)) == FieldValue(pkt, f)
  {
    hide Bit, FieldStart, HeaderLength, KindOf, Calls, BitsRead, After, AllFit, FieldValue;
    var kind := KindOf(pkt);
    var calls := Calls(kind);
    CallsFit(kind, pkt);
    FieldEnd(f);
    SourcesInside(kind, f);
    forall k | 0 <= k < HeaderLength(f)
      ensures Extract(After(init, calls, pkt), FieldStart(f), HeaderLength(f))[k] == FieldValue(pkt, f)[k]
    {
      BitInPlace(init, pkt, f, k);
    }
  }

  lemma BitInPlace(init: MatchField, pkt: seq<byte>, f: nat, k: nat)
    requires |pkt| > 26 && KindOf(pkt) != Other && BitsRead(KindOf(pkt)) <= 8 * |pkt|
    requires f < NO_OF_HEADERS && k < HeaderLength(f)
    ensures AllFit(Calls(KindOf(pkt)), pkt) && FieldStart(f) + k < FIELD_BITS
    ensures Bit(After(init, Calls(KindOf(pkt)), pkt), FieldStart(f) + k) == FieldValue(pkt, f)[k]
  {
    hide Bit, Writer, FieldStart, HeaderLength, FieldSource, KindOf, Calls, BitsRead, After, AllFit;
    var kind := KindOf(pkt);
    CallsFit(kind, pkt);
    FieldEnd(f);
    SourcesInside(kind, f);
    var q := FieldStart(f) + k;
    WriterIsOnly(kind, q);
    WriterOfField(kind, f, k);
    BitAfter(init, Calls(kind), pkt, Writer(kind, q), q);
  }

  lemma FieldEnd(f: nat)
    requires f < NO_OF_HEADERS
    ensures FieldStart(f) + HeaderLength(f) <= FIELD_BITS
  {
    FieldStarts();
  }

  /** The first 356 bits of a match field depend on the packet only. */
  lemma FieldsIgnoreBuffer(init1: MatchField, init2: MatchField, pkt: seq<byte>, q: nat)
    requires |pkt| > 26 && KindOf(pkt) != Other && BitsRead(KindOf(pkt)) <= 8 * |pkt| && q < FIELD_BITS
    ensures AllFit(Calls(KindOf(pkt)), pkt)
    ensures Bit(After(init1, Calls(KindOf(pkt)), pkt), q) == Bit(After(init2, Calls(KindOf(pkt)), pkt), q)
  {
    hide Bit, Writer, KindOf, Calls, BitsRead;
    var kind := KindOf(pkt);
    CallsFit(kind, pkt);
    WriterIsOnly(kind, q);
    BitAfter(init1, Calls(kind), pkt, Writer(kind, q), q);
    BitAfter(init2, Calls(kind), pkt, Writer(kind, q), q);
  }
}
