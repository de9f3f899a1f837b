/**
 The four tables and two tails as one value, and what each operation of
 flow-processing-unit/flow_unit.h makes of them. The arrays hold rows beyond
 the tails as well: those rows are part of the value, because the code reads
 them in two places.
 */
module FlowModel {
  import opened Bytes
  import opened Lists
  import opened MaskGroups
  import opened Matching
  import opened Priority

  const RDNDNT: int := -2
  const TBL_FULL: int := -3

  datatype Table = Table(
    rows: seq<FlowRow>, masks: seq<MatchField>, acts: seq<ActionSet>, flags: seq<FlagWord>,
    tail: nat, maskTail: nat)

  predicate Shaped(t: Table) {
    && |t.rows| == |t.masks| == |t.acts| == |t.flags| == NO_F_FLWS
    && t.tail <= NO_F_FLWS && t.maskTail <= NO_F_FLWS
  }

  /** The markers of the live rows. */
  function Marks(t: Table): (m: seq<bool>)
    requires Shaped(t)
    ensures |m| == t.tail
  {
    seq(t.tail, i requires 0 <= i < t.tail => Marked(t.rows[i]))
  }

  function LiveMasks(t: Table): seq<MatchField>
    requires Shaped(t)
  {
    t.masks[..t.maskTail]
  }

  /** The first `n` rows all have a mask in the mask table. */
  predicate Sound(t: Table, n: nat) {
    && Shaped(t) && n <= t.tail
    && forall p :: 0 <= p < n ==> Index(Marks(t), p) < t.maskTail
  }

  /**
   What every operation keeps: one marker for each mask but one, so that every
   live row has a mask, and stored masks normalised.
   */
  ghost predicate GroupInv(t: Table) {
    && Shaped(t)
    && (t.tail > 0 ==> t.maskTail == Count(Marks(t)) + 1)
    && (t.tail == 0 ==> t.maskTail <= 1)
    && forall k :: 0 <= k < t.maskTail ==> Normalised(t.masks[k]) == t.masks[k]
  }

  /** The first mask owns the first row: nothing has emptied the first group. */
  ghost predicate FirstGroupOwned(t: Table)
    requires Shaped(t)
  {
    && (t.tail > 0 ==> !Marked(t.rows[0]))
    && (t.tail == 0 ==> t.maskTail == 0)
  }

  lemma GroupInvIsSound(t: Table)
    requires GroupInv(t)
    ensures Sound(t, t.tail)
    ensures t.maskTail <= t.tail + 1
  {
    forall p | 0 <= p < t.tail
      ensures Index(Marks(t), p) < t.maskTail
    {
      IndexMonotone(Marks(t), p, p);
    }
  }

  function MaskOf(t: Table, p: nat): MatchField
    requires Sound(t, t.tail) && p < t.tail
  {
    t.masks[Index(Marks(t), p)]
  }

  // ---- search_tcam ----

  predicate Matches(t: Table, p: nat, pkt: MatchField)
    requires Shaped(t) && p < t.tail && Index(Marks(t), p) < t.maskTail
  {
    Agree(t.masks[Index(Marks(t), p)], pkt, t.rows[p])
  }

  /** The first `n` rows as candidates for a packet. */
  function CandidatesTo(t: Table, pkt: MatchField, n: nat): (c: seq<Candidate>)
    requires Sound(t, n)
    ensures |c| == n
  {
    seq(n, p requires 0 <= p < n => Candidate(Matches(t, p, pkt), t.rows[p][PRIORITY] as nat))
  }

  function Candidates(t: Table, pkt: MatchField): seq<Candidate>
    requires Sound(t, t.tail)
  {
    CandidatesTo(t, pkt, t.tail)
  }

  /** Every matching row among the first `n` counts the packet, not only the winner. */
  function CountedTo(t: Table, pkt: MatchField, n: nat): (r: seq<FlowRow>)
    requires Sound(t, n)
    ensures |r| == |t.rows|
  {
    seq(|t.rows|, p requires 0 <= p < |t.rows| =>
      if p < n && Matches(t, p, pkt) then Bump(t.rows[p]) else t.rows[p])
  }

  function SearchT(t: Table, pkt: MatchField): (Table, int)
    requires Sound(t, t.tail)
  {
    (t.(rows := CountedTo(t, pkt, t.tail)), Best(Candidates(t, pkt)))
  }

  /**
   What a search leaves behind that comes upon a row without a mask: the rows before the first such row
   have been searched and counted.
   */
  ghost predicate StoppedShort(t: Table, t': Table, pkt: MatchField)
    requires Shaped(t)
  {
    exists n :: 0 <= n < t.tail && Sound(t, n) && !Sound(t, n + 1) && t' == t.(rows := CountedTo(t, pkt, n))
  }

  lemma StopsHere(t: Table, pkt: MatchField, n: nat)
    requires Sound(t, n) && n < t.tail && Index(Marks(t), n) >= t.maskTail
    ensures StoppedShort(t, t.(rows := CountedTo(t, pkt, n)), pkt)
  {
    hide Index, Matches;
    assert Index(Marks(t), n) >= t.maskTail;
    assert Sound(t, n) && !Sound(t, n + 1);
  }

  /**
   What a search finds, in bits: nothing exactly when every row differs from the packet in some bit that
   its mask selects; otherwise a row without such a difference, of the highest priority byte (45), the first
   of these.
   */
  lemma SearchFinds(t: Table, pkt: MatchField)
    requires Sound(t, t.tail)
    ensures var r := SearchT(t, pkt).1;
            && (r == -1 <==> forall p :: 0 <= p < t.tail ==> !BitsAgree(MaskOf(t, p), pkt, t.rows[p]))
            && (r != -1 ==>
                  && 0 <= r < t.tail && BitsAgree(MaskOf(t, r), pkt, t.rows[r])
                  && forall p :: 0 <= p < t.tail && BitsAgree(MaskOf(t, p), pkt, t.rows[p]) ==>
                       || t.rows[p][45] as nat < t.rows[r][45] as nat
                       || (t.rows[p][45] as nat == t.rows[r][45] as nat && r <= p))
  {
    hide BitsAgree, Index, Agree;
    var c := Candidates(t, pkt);
    BestWins(c);
    forall p | 0 <= p < t.tail
      ensures c[p].hit == BitsAgree(MaskOf(t, p), pkt, t.rows[p])
    {
      AgreeIsBits(MaskOf(t, p), pkt, t.rows[p]);
    }
  }

  // ---- moving rows ----

  /** Rows lo..hi-1 rewritten in place, as each move of a row does to the row it moves. */
  function Rewritten(rows: seq<FlowRow>, lo: nat, hi: nat): (r: seq<FlowRow>)
    ensures |r| == |rows|
  {
    seq(|rows|, i requires 0 <= i < |rows| => if lo <= i < hi then Stored(rows[i]) else rows[i])
  }

  /** Slots pos..tail-1 move down by one; slots above `tail` stay. */
  function ShiftedDown<T>(s: seq<T>, pos: nat, tail: nat): (r: seq<T>)
    requires tail < |s|
    ensures |r| == |s|
  {
    seq(|s|, i requires 0 <= i < |s| => if pos < i <= tail then s[i - 1] else s[i])
  }

  /** Flow rows are rewritten as they move; the row that stays in slot `pos` is not. */
  function MovedDown(rows: seq<FlowRow>, pos: nat, tail: nat): (r: seq<FlowRow>)
    requires tail < |rows|
    ensures |r| == |rows|
  {
    Rewritten(ShiftedDown(rows, pos, tail), pos + 1, tail + 1)
  }

  function MovedUp(rows: seq<FlowRow>, pos: nat, tail: nat): (r: seq<FlowRow>)
    requires pos < tail <= |rows|
    ensures |r| == |rows|
  {
    Rewritten(ShiftedBack(rows, pos, tail), pos, tail - 1)
  }

  /** Slots pos+1..tail-1 move up by one; slot `tail - 1` keeps its old contents. */
  function ShiftedBack<T>(s: seq<T>, pos: nat, tail: nat): (r: seq<T>)
    requires pos < tail <= |s|
    ensures |r| == |s|
  {
    seq(|s|, i requires 0 <= i < |s| => if pos <= i < tail - 1 then s[i + 1] else s[i])
  }

  // ---- add_new_entry ----

  /**
   Which byte of the new entry the duplicate scan compares with byte `l` of row
   `r`: flow_unit.h:221 indexes the entry by the row (`ByRow`, the code as
   written) where its surroundings mean the byte (`ByByte`).
   */
  datatype Line221 = ByRow | ByByte {
    function At(r: nat, l: nat): nat {
      if ByRow? then r else l
    }
  }

  /** The 45 bytes of the new entry that the scan compares with row `r`. */
  function Compared(v: Line221, entry: Entry, r: nat): MatchField
    requires r < NO_F_FLWS
  {
    seq(MTCH_FLD_LEN, l requires 0 <= l < MTCH_FLD_LEN => entry[v.At(r, l)])
  }

  predicate ScanHits(v: Line221, mask: MatchField, entry: Entry, row: seq<byte>, r: nat)
    requires |row| >= MTCH_FLD_LEN && r < NO_F_FLWS
  {
    Agree(mask, Compared(v, entry, r), row)
  }

  /**
   What the scan for duplicates compares. Read by byte, each bit of the entry that the mask
   selects with the same bit of the row; as written, bits 0..7 of the entry's byte number `r`, over and over,
   with the bits of the row.
   */
  lemma ScanHitsBits(mask: MatchField, entry: Entry, row: seq<byte>, r: nat)
    requires |row| >= MTCH_FLD_LEN && r < NO_F_FLWS
    ensures ScanHits(ByByte, mask, entry, row, r)
            <==> forall q :: 0 <= q < 360 && Bit(mask, q) ==> Bit(entry, q) == Bit(row, q)
    ensures ScanHits(ByRow, mask, entry, row, r)
            <==> forall q :: 0 <= q < 360 && Bit(mask, q) ==> Bit(entry, 8 * r + q % 8) == Bit(row, q)
  {
    hide BitOf, Agree;
    AgreeIsBits(mask, Compared(ByByte, entry, r), row);
    AgreeIsBits(mask, Compared(ByRow, entry, r), row);
    forall q | 0 <= q < 360
      ensures Bit(Compared(ByByte, entry, r), q) == Bit(entry, q)
      ensures Bit(Compared(ByRow, entry, r), q) == Bit(entry, 8 * r + q % 8)
    {
    }
  }

  /** Some row of start..end-1 is taken for a duplicate. */
  predicate DuplicateIn(v: Line221, t: Table, mask: MatchField, entry: Entry, start: nat, end: nat)
    requires Shaped(t) && end <= NO_F_FLWS
  {
    exists r :: start <= r < end && ScanHits(v, mask, entry, t.rows[r], r)
  }

  function Placed(t: Table, pos: nat, row: FlowRow, action: ActionSet, flag: FlagWord): (r: Table)
    requires Shaped(t) && t.tail < NO_F_FLWS && pos < NO_F_FLWS
    ensures Shaped(r)
  {
    t.(rows := MovedDown(t.rows, pos, t.tail)[pos := row],
       acts := ShiftedDown(t.acts, pos, t.tail)[pos := action],
       flags := ShiftedDown(t.flags, pos, t.tail)[pos := flag],
       tail := t.tail + 1)
  }

  function WithNewMask(t: Table, mask: MatchField): (r: Table)
    requires Shaped(t) && t.maskTail < NO_F_FLWS
    ensures Shaped(r)
  {
    t.(masks := t.masks[t.maskTail := Normalised(mask)], maskTail := t.maskTail + 1)
  }

  /**
   What an add needs so as to stay inside the tables: the group of a stored mask
   can be located, and there is a slot for a mask that is not stored yet. The
   code asks for neither.
   */
  predicate MaskRoom(t: Table, mask: MatchField)
    requires Shaped(t)
  {
    t.tail >= NO_F_FLWS ||
    if mask in LiveMasks(t) then Locate(Marks(t), IndexOf(LiveMasks(t), mask)) != STR_ERR
    else t.maskTail < NO_F_FLWS
  }

  /** The end of a located group is a slot of the table. */
  lemma LocatedGroupEnds(t: Table, mask: MatchField)
    requires Shaped(t) && t.tail < NO_F_FLWS && mask in LiveMasks(t) && MaskRoom(t, mask)
    ensures var start := Locate(Marks(t), IndexOf(LiveMasks(t), mask));
            && start >= 0 && GroupEnd(Marks(t), start) <= t.tail + 1
            && (t.tail > 0 ==> start < t.tail && GroupEnd(Marks(t), start) <= t.tail)
            && (t.tail == 0 ==> start == 0)
  {
  }

  /** Under the group invariant the group of every stored mask is located. */
  lemma StoredMaskHasPlace(t: Table, mask: MatchField)
    requires GroupInv(t) && mask in LiveMasks(t)
    ensures MaskRoom(t, mask)
  {
    var k := IndexOf(LiveMasks(t), mask);
    if k > 0 {
      LocateMarkerSpec(Marks(t), k);
    }
  }

  function AddT(v: Line221, t: Table, mask: MatchField, entry: Entry, action: ActionSet, flag: FlagWord): (Table, int)
    requires Shaped(t) && MaskRoom(t, mask)
  {
    if t.tail >= NO_F_FLWS then (t, TBL_FULL)
    else if mask in LiveMasks(t) then
      LocatedGroupEnds(t, mask);
      var start := Locate(Marks(t), IndexOf(LiveMasks(t), mask));
      var pos := GroupEnd(Marks(t), start);
      if DuplicateIn(v, t, mask, entry, start, pos) then (t, RDNDNT)
      else (Placed(t, pos, WithMarker(Stored(entry), false), action, flag), pos)
    else
      (Placed(WithNewMask(t, mask), t.tail, WithMarker(Stored(entry), t.tail > 0), action, flag), t.tail)
  }

  // ---- delete_flow_entry ----

  /** Row `p` is the only one of its group, and not the first row of the first group. */
  predicate SoleOfGroup(t: Table, p: nat)
    requires Shaped(t) && p < t.tail
  {
    Marked(t.rows[p]) && (p == t.tail - 1 || Marked(t.rows[p + 1]))
  }

  /**
   The row after a deleted group leader becomes the leader. The row looked at
   may lie beyond the tail, but never beyond the array: flow_unit.h:498 has no
   such guard and would read past the flow table when the last slot is deleted.
   */
  function Promoted(t: Table, p: nat): (rows: seq<FlowRow>)
    requires Shaped(t) && p < t.tail
    ensures |rows| == |t.rows|
  {
    if Marked(t.rows[p]) && p + 1 < NO_F_FLWS && !Marked(t.rows[p + 1])
    then t.rows[p + 1 := WithMarker(t.rows[p + 1], true)]
    else t.rows
  }

  /** Masks are normalised again as they move. */
  function MasksMovedUp(masks: seq<MatchField>, pos: nat, tail: nat): (r: seq<MatchField>)
    requires pos < tail <= |masks|
    ensures |r| == |masks|
  {
    seq(|masks|, i requires 0 <= i < |masks| => if pos <= i < tail - 1 then Normalised(masks[i + 1]) else masks[i])
  }

  /** The mask of a row that is alone under it is taken out of the mask table. */
  function WithoutSoleMask(t: Table, p: nat): (r: Table)
    requires Sound(t, t.tail) && p < t.tail
    ensures Shaped(r)
  {
    var k := Index(Marks(t), p);
    assert k < t.maskTail;
    if SoleOfGroup(t, p)
    then t.(masks := MasksMovedUp(t.masks, k, t.maskTail), maskTail := t.maskTail - 1)
    else t
  }

  function RemovedT(t: Table, p: nat): Table
    requires Sound(t, t.tail) && p < t.tail
  {
    WithoutSoleMask(t, p).(
      rows := MovedUp(Promoted(t, p), p, t.tail),
      acts := ShiftedBack(t.acts, p, t.tail),
      flags := ShiftedBack(t.flags, p, t.tail),
      tail := t.tail - 1)
  }

  /** Counting the packet that a search is made with changes no marker, mask, priority or match field. */
  lemma SearchKeeps(t: Table, pkt: MatchField)
    requires Sound(t, t.tail)
    ensures var t' := SearchT(t, pkt).0;
            && Marks(t') == Marks(t) && LiveMasks(t') == LiveMasks(t)
            && Sound(t', t'.tail)
            && (forall p :: 0 <= p < |t.rows| ==> t'.rows[p][..COUNTER] == t.rows[p][..COUNTER])
            && (GroupInv(t) ==> GroupInv(t'))
  {
    var t' := SearchT(t, pkt).0;
    forall p | 0 <= p < |t.rows|
      ensures t'.rows[p][44] == t.rows[p][44]
      ensures t'.rows[p][..COUNTER] == t.rows[p][..COUNTER]
    {
    }
    assert Marks(t') == Marks(t);
  }

  function DeleteT(t: Table, pkt: MatchField): (Table, int)
    requires Sound(t, t.tail) && SearchT(t, pkt).1 >= 0
  {
    SearchKeeps(t, pkt);
    var (t1, p) := SearchT(t, pkt);
    (RemovedT(t1, p), p)
  }
}
