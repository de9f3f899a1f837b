/**
 The rows of the four tables, and what it means for a packet to agree with a
 flow row under a mask (flow-processing-unit/flow_unit.h:9-30, 355-368).
 */
module Matching {
  import opened Bytes
  import opened Fields

  const MTCH_FLD_LEN: nat := 45
  const FLW_ENT_LEN: nat := 48
  const NO_F_FLWS: nat := 20

  /** 45 bytes of match field; also the shape of a mask and of a packet's match field. */
  type MatchField = s: seq<byte> | |s| == MTCH_FLD_LEN witness seq(MTCH_FLD_LEN, _ => 0)
  /** A match field (bytes 0..44), then priority (45), counter (46) and timeout (47). */
  type FlowRow = s: seq<byte> | |s| == FLW_ENT_LEN witness seq(FLW_ENT_LEN, _ => 0)
  /** A row as the caller supplies it: match field and priority. */
  type Entry = s: seq<byte> | |s| == MTCH_FLD_LEN + 1 witness seq(MTCH_FLD_LEN + 1, _ => 0)
  type ActionSet = s: seq<byte> | |s| == ACTN_ST_LEN witness seq(ACTN_ST_LEN, _ => 0)
  type FlagWord = s: seq<byte> | |s| == 2 witness [0, 0]

  const PRIORITY: nat := 45
  const COUNTER: nat := 46
  const TIMEOUT: nat := 47

  /** Bit 356, that is bit 4 of byte 44, marks the first row of a mask group. */
  predicate Marked(row: seq<byte>)
    requires |row| >= MTCH_FLD_LEN
  {
    BitOf(row[44], 4)
  }

  function WithMarker(row: seq<byte>, v: bool): (r: seq<byte>)
    requires |row| >= MTCH_FLD_LEN
    ensures |r| == |row|
  {
    row[44 := WithBit(row[44], 4, v)]
  }

  /** `write_new_flow_entry`: counter back to 0, timeout to 255, whatever row is written. */
  function Stored(entry: seq<byte>): (r: FlowRow)
    requires |entry| >= MTCH_FLD_LEN + 1
  {
    entry[..MTCH_FLD_LEN + 1] + [0, 255]
  }

  /** One more packet counted, modulo 256. */
  function Bump(row: FlowRow): FlowRow {
    row[COUNTER := row[COUNTER] + 1]
  }

  /** `write_new_mask` clears the three bits that no field uses. */
  function Normalised(mask: MatchField): MatchField {
    PutBit(PutBit(PutBit(mask, 357, false), 358, false), 359, false)
  }

  /** Two bytes agree on the bits selected by `m`. */
  predicate AgreeByte(m: byte, a: byte, b: byte) {
    forall j :: 0 <= j < 8 && BitOf(m, j) ==> BitOf(a, j) == BitOf(b, j)
  }

  predicate Agree(mask: seq<byte>, a: seq<byte>, b: seq<byte>)
    requires |mask| >= MTCH_FLD_LEN && |a| >= MTCH_FLD_LEN && |b| >= MTCH_FLD_LEN
  {
    forall l :: 0 <= l < MTCH_FLD_LEN ==> AgreeByte(mask[l], a[l], b[l])
  }

  /** The mask leaves the marker bit out of matching. */
  predicate MarkerFree(mask: seq<byte>)
    requires |mask| >= MTCH_FLD_LEN
  {
    !BitOf(mask[44], 4)
  }

  /** Bit 356 of a row is its marker. */
  lemma MarkedIsBit(row: seq<byte>)
    requires |row| >= MTCH_FLD_LEN
    ensures Marked(row) <==> Bit(row, 356)
    ensures MarkerFree(row) <==> !Bit(row, 356)
  {
  }

  /** Writing the marker changes bit 356 and no other. */
  lemma WithMarkerBits(row: seq<byte>, v: bool, q: nat)
    requires |row| >= MTCH_FLD_LEN && q < 8 * |row|
    ensures Bit(WithMarker(row, v), q) == if q == 356 then v else Bit(row, q)
  {
    hide Bit, WithBit;
    assert WithMarker(row, v) == PutBit(row, 356, v);
    PutBitAt(row, 356, v, q);
  }

  /** Two match fields agree under a mask when they have the same value in every bit that the mask selects. */
  predicate BitsAgree(mask: seq<byte>, a: seq<byte>, b: seq<byte>)
    requires |mask| >= MTCH_FLD_LEN && |a| >= MTCH_FLD_LEN && |b| >= MTCH_FLD_LEN
  {
    forall q :: 0 <= q < 360 && Bit(mask, q) ==> Bit(a, q) == Bit(b, q)
  }

  /** Comparing byte by byte is comparing bit by bit, and each bit of the mask selects the bit of its own number. */
  lemma AgreeIsBits(mask: seq<byte>, a: seq<byte>, b: seq<byte>)
    requires |mask| >= MTCH_FLD_LEN && |a| >= MTCH_FLD_LEN && |b| >= MTCH_FLD_LEN
    ensures Agree(mask, a, b) <==> BitsAgree(mask, a, b)
  {
    hide BitOf;
    if Agree(mask, a, b) {
      forall q | 0 <= q < 360 && Bit(mask, q)
        ensures Bit(a, q) == Bit(b, q)
      {
        assert AgreeByte(mask[q / 8], a[q / 8], b[q / 8]);
      }
    }
    if BitsAgree(mask, a, b) {
      forall l, j | 0 <= l < MTCH_FLD_LEN && 0 <= j < 8 && BitOf(mask[l], j)
        ensures BitOf(a[l], j) == BitOf(b[l], j)
      {
        BitInByte(mask, l, j);
        BitInByte(a, l, j);
        BitInByte(b, l, j);
        assert Bit(mask, 8 * l + j);
      }
    }
  }

  /** Normalising a mask clears bits 357, 358 and 359, and no other. */
  lemma NormalisedBits(mask: MatchField, q: nat)
    requires q < 360
    ensures Bit(Normalised(mask), q) <==> q < 357 && Bit(mask, q)
  {
    hide Bit, PutBit;
    PutBitAt(mask, 357, false, q);
    PutBitAt(PutBit(mask, 357, false), 358, false, q);
    PutBitAt(PutBit(PutBit(mask, 357, false), 358, false), 359, false, q);
  }

  lemma NormalisedEveryBit(mask: MatchField)
    ensures forall q :: 0 <= q < 360 ==> (Bit(Normalised(mask), q) <==> q < 357 && Bit(mask, q))
  {
    hide Bit, Normalised;
    forall q | 0 <= q < 360
      ensures Bit(Normalised(mask), q) <==> q < 357 && Bit(mask, q)
    {
      NormalisedBits(mask, q);
    }
  }

  /** So bits 357, 358 and 359 of a packet, which nothing writes, have no part in what a stored mask matches. */
  lemma UnusedBitsUnseen(mask: MatchField, a: seq<byte>, a': seq<byte>, b: seq<byte>)
    requires |a| >= MTCH_FLD_LEN && |a'| >= MTCH_FLD_LEN && |b| >= MTCH_FLD_LEN
    requires forall q :: 0 <= q < 357 ==> Bit(a, q) == Bit(a', q)
    ensures Agree(Normalised(mask), a, b) == Agree(Normalised(mask), a', b)
  {
    hide Bit, Agree, Normalised;
    AgreeIsBits(Normalised(mask), a, b);
    AgreeIsBits(Normalised(mask), a', b);
    NormalisedEveryBit(mask);
  }

  /** A stored row is the entry, bit for bit, then a counter at 0 and a timeout at 255. */
  lemma StoredBytes(entry: seq<byte>)
    requires |entry| >= MTCH_FLD_LEN + 1
    ensures Stored(entry)[..46] == entry[..46] && Stored(entry)[46] == 0 && Stored(entry)[47] == 255
  {
  }

  lemma MarkerWritten(row: seq<byte>, v: bool)
    requires |row| >= MTCH_FLD_LEN
    ensures Marked(WithMarker(row, v)) == v
    ensures WithMarker(row, Marked(row)) == row
    ensures forall w :: WithMarker(WithMarker(row, v), w) == WithMarker(row, w)
  {
    FlagValues();
  }

  lemma NormalisedIdempotent(mask: MatchField)
    ensures Normalised(Normalised(mask)) == Normalised(mask)
    ensures MarkerFree(Normalised(mask)) == MarkerFree(mask)
  {
    FlagValues();
    var b := mask[44];
    assert Normalised(mask) == mask[44 := ((b & 0xFB) & 0xFD) & 0xFE];
  }

  /** Under a marker-free mask the marker of a row does not take part in matching. */
  lemma MarkerUnseen(mask: seq<byte>, a: seq<byte>, b: seq<byte>, v: bool)
    requires |mask| >= MTCH_FLD_LEN && |a| >= MTCH_FLD_LEN && |b| >= MTCH_FLD_LEN
    requires MarkerFree(mask)
    ensures Agree(mask, a, WithMarker(b, v)) == Agree(mask, a, b)
    ensures Agree(mask, WithMarker(a, v), b) == Agree(mask, a, b)
  {
    hide BitOf, WithBit;
    forall j | 0 <= j < 8 && BitOf(mask[44], j)
      ensures BitOf(WithBit(a[44], 4, v), j) == BitOf(a[44], j)
      ensures BitOf(WithBit(b[44], 4, v), j) == BitOf(b[44], j)
    {
      WithBitAt(a[44], 4, v, j);
      WithBitAt(b[44], 4, v, j);
    }
    assert AgreeByte(mask[44], a[44], WithBit(b[44], 4, v)) == AgreeByte(mask[44], a[44], b[44]);
    assert AgreeByte(mask[44], WithBit(a[44], 4, v), b[44]) == AgreeByte(mask[44], a[44], b[44]);
    forall l | 0 <= l < MTCH_FLD_LEN
      ensures AgreeByte(mask[l], a[l], WithMarker(b, v)[l]) == AgreeByte(mask[l], a[l], b[l])
      ensures AgreeByte(mask[l], WithMarker(a, v)[l], b[l]) == AgreeByte(mask[l], a[l], b[l])
    {
    }
  }

  /** If the mask does select bit 356, a match can hold or fail by the marker alone. */
  lemma MarkerSeen(mask: MatchField, a: MatchField)
    requires !MarkerFree(mask)
    ensures exists b: MatchField, v :: Agree(mask, a, b) && !Agree(mask, a, WithMarker(b, v))
  {
    var v := !Marked(a);
    assert Agree(mask, a, a);
    MarkerWritten(a, v);
    assert !AgreeByte(mask[44], a[44], WithMarker(a, v)[44]);
    assert !Agree(mask, a, WithMarker(a, v));
  }

  lemma AgreeReflexive(mask: MatchField, a: seq<byte>)
    requires |a| >= MTCH_FLD_LEN
    ensures Agree(mask, a, a)
  {
  }

  lemma ByteOrder(a: byte, b: byte)
    ensures a < b <==> a as nat < b as nat
  {
  }

  /** Only the first 45 bytes of a row take part in matching. */
  lemma AgreeOnPrefix(mask: seq<byte>, a: seq<byte>, row: seq<byte>)
    requires |mask| >= MTCH_FLD_LEN && |a| >= MTCH_FLD_LEN && |row| >= MTCH_FLD_LEN
    ensures Agree(mask, a, row[..MTCH_FLD_LEN]) == Agree(mask, a, row)
  {
    hide AgreeByte;
    forall l | 0 <= l < MTCH_FLD_LEN
      ensures row[..MTCH_FLD_LEN][l] == row[l]
    {
    }
  }
}
