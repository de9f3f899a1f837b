/**
 The flow unit on its flat arrays (flow-processing-unit/flow_unit.h): the loops
 of the code, proved to make of the tables what FlowModel says.
 */
module Tcam {
  import opened Bytes
  import opened Fields
  import opened Lists
  import opened MaskGroups
  import opened Matching
  import opened Priority
  import opened RowTables
  import opened FlowModel
  import opened ModifyModel

  lemma ShiftDownStep(rows: seq<FlowRow>, c: nat, tail: nat)
    requires 0 < c <= tail < |rows|
    ensures var s := MovedDown(rows, c, tail);
            s[c := Stored(s[c - 1])] == MovedDown(rows, c - 1, tail)
  {
    hide Stored;
    var s, s' := MovedDown(rows, c, tail), MovedDown(rows, c - 1, tail);
    assert s[c - 1] == rows[c - 1];
    forall i | 0 <= i < |rows|
      ensures s'[i] == if i == c then Stored(rows[c - 1]) else s[i]
    {
    }
  }

  lemma ShiftedDownStep<T>(s: seq<T>, c: nat, tail: nat)
    requires 0 < c <= tail < |s|
    ensures ShiftedDown(s, c, tail)[c := ShiftedDown(s, c, tail)[c - 1]] == ShiftedDown(s, c - 1, tail)
  {
  }

  lemma ShiftedDownNothing<T>(s: seq<T>, pos: nat, tail: nat)
    requires tail < |s| && tail <= pos
    ensures ShiftedDown(s, pos, tail) == s
  {
  }

  lemma ShiftedBackStep<T>(s: seq<T>, pos: nat, c: nat)
    requires pos <= c && c + 1 < |s|
    ensures ShiftedBack(s, pos, c + 1)[c + 1] == s[c + 1]
    ensures ShiftedBack(s, pos, c + 1)[c := s[c + 1]] == ShiftedBack(s, pos, c + 2)
    ensures ShiftedBack(s, pos, pos + 1) == s
  {
  }

  lemma MasksMovedUpStep(masks: seq<MatchField>, pos: nat, c: nat)
    requires pos <= c && c + 1 < |masks|
    ensures MasksMovedUp(masks, pos, c + 1)[c + 1] == masks[c + 1]
    ensures MasksMovedUp(masks, pos, c + 1)[c := Normalised(masks[c + 1])] == MasksMovedUp(masks, pos, c + 2)
    ensures MasksMovedUp(masks, pos, pos + 1) == masks
  {
    hide Normalised;
  }

  lemma MovedUpStep(rows: seq<FlowRow>, pos: nat, c: nat)
    requires pos <= c && c + 1 < |rows|
    ensures MovedUp(rows, pos, c + 1)[c + 1] == rows[c + 1]
    ensures MovedUp(rows, pos, c + 1)[c := Stored(rows[c + 1])] == MovedUp(rows, pos, c + 2)
    ensures MovedUp(rows, pos, pos + 1) == rows
  {
    hide Stored;
  }

  lemma SearchStart(t: Table, pkt: MatchField)
    requires Shaped(t)
    ensures Sound(t, 0) && CountedTo(t, pkt, 0) == t.rows && Best(CandidatesTo(t, pkt, 0)) == NO_MATCH
    ensures Count(Marks(t)[..0]) == 0
  {
    CountNone(Marks(t)[..0]);
  }

  lemma BestStep(t: Table, pkt: MatchField, n: nat)
    requires Sound(t, n + 1)
    ensures var b := Best(CandidatesTo(t, pkt, n));
            && b < n
            && Best(CandidatesTo(t, pkt, n + 1))
               == if Matches(t, n, pkt) && (b < 0 || t.rows[b][PRIORITY] < t.rows[n][PRIORITY]) then n else b
  {
    hide Matches, Index;
    var b := Best(CandidatesTo(t, pkt, n));
    assert CandidatesTo(t, pkt, n + 1)[..n] == CandidatesTo(t, pkt, n);
    if b >= 0 {
      ByteOrder(t.rows[b][PRIORITY], t.rows[n][PRIORITY]);
    }
  }

  lemma CountStep(t: Table, pkt: MatchField, n: nat)
    requires Sound(t, n + 1)
    ensures CountedTo(t, pkt, n)[n] == t.rows[n]
    ensures forall b :: 0 <= b < n ==> CountedTo(t, pkt, n)[b][PRIORITY] == t.rows[b][PRIORITY]
    ensures CountedTo(t, pkt, n + 1)
            == if Matches(t, n, pkt) then CountedTo(t, pkt, n)[n := Bump(t.rows[n])] else CountedTo(t, pkt, n)
  {
    hide Matches, Index;
  }

  lemma CountedKeepsMarks(t: Table, pkt: MatchField, n: nat)
    requires Sound(t, n) && n < t.tail
    ensures Marked(CountedTo(t, pkt, n)[n]) == Marks(t)[n]
  {
  }

  /** The search has found the winner of section 5.3, or that there is none. */
  lemma SearchEnd(t: Table, pkt: MatchField)
    requires Sound(t, t.tail)
    ensures var r := Best(CandidatesTo(t, pkt, t.tail));
            && (r == NO_MATCH <==> forall p :: 0 <= p < t.tail ==> !Matches(t, p, pkt))
            && (r != NO_MATCH ==> Wins(Candidates(t, pkt), r))
            && r >= NO_MATCH
  {
    hide Matches;
    BestWins(Candidates(t, pkt));
    assert forall p :: 0 <= p < t.tail ==> Candidates(t, pkt)[p].hit == Matches(t, p, pkt);
  }

  lemma MatchesIsAgree(t: Table, p: nat, pkt: MatchField)
    requires Sound(t, p + 1)
    ensures Matches(t, p, pkt) == Agree(t.masks[Index(Marks(t), p)], pkt, t.rows[p])
  {
  }

  const NO_ACTION: ActionSet := seq(ACTN_ST_LEN, _ => 0)
  const NO_FLAG: FlagWord := [0, 0]

  lemma MarkerBeforeStoring(entry: seq<byte>, v: bool)
    requires |entry| >= MTCH_FLD_LEN + 1
    ensures PutBit(entry, 44 * 8 + 4, v) == WithMarker(entry, v)
    ensures Stored(WithMarker(entry, v)) == WithMarker(Stored(entry), v)
  {
    hide WithBit;
  }

  lemma MovedDownNothing(rows: seq<FlowRow>, tail: nat)
    requires tail < |rows|
    ensures MovedDown(rows, tail, tail) == rows
  {
  }

  /** The action tables follow the flow table, whether or not rows had to move. */
  lemma AddPositions(v: Line221, t: Table, mask: MatchField, entry: Entry, action: ActionSet, flag: FlagWord)
    requires Shaped(t) && MaskRoom(t, mask)
    ensures var (t1, r1) := AddT(v, t, mask, entry, NO_ACTION, NO_FLAG);
            var (t2, r2) := AddT(v, t, mask, entry, action, flag);
            && r1 == r2
            && (r1 < 0 ==> t1 == t2 == t)
            && (r1 >= 0 ==>
                  && r1 < NO_F_FLWS && t.tail < NO_F_FLWS && t2.tail == t.tail + 1
                  && t2 == t1.(acts := ShiftedDown(t.acts, r1, t.tail)[r1 := action],
                               flags := ShiftedDown(t.flags, r1, t.tail)[r1 := flag])
                  && (r1 >= t.tail ==> ShiftedDown(t.acts, r1, t.tail) == t.acts
                                       && ShiftedDown(t.flags, r1, t.tail) == t.flags))
  {
    hide ScanHits, Marked, Normalised, WithMarker, GroupEnd, Locate, Count, MovedDown;
    if t.tail < NO_F_FLWS && mask in LiveMasks(t) {
      LocatedGroupEnds(t, mask);
    }
  }

  // ---- modify_entry, one block at a time ----

  function EditStep(action: ActionSet, flag: FlagWord, values: seq<byte>, f: nat): ActionSet
    requires 1 <= f <= LAST_ACTION_FIELD && EnoughValues(flag, values)
  {
    if Selected(flag, f) then Replace(action, Start(f), Value(flag, values, f)) else action
  }

  lemma GroupEndStep(m: seq<bool>, i: nat)
    ensures GroupEnd(m, i) == if i + 1 >= |m| || m[i + 1] then i + 1 else GroupEnd(m, i + 1)
  {
  }

  lemma GroupEndInside(m: seq<bool>, start: nat)
    ensures start < GroupEnd(m, start) && (start < |m| ==> GroupEnd(m, start) <= |m|)
    ensures |m| <= start ==> GroupEnd(m, start) == start + 1
  {
  }

  lemma NoRowsNoDuplicate(v: Line221, t: Table, mask: MatchField, entry: Entry, i: nat)
    requires Shaped(t) && i <= NO_F_FLWS
    ensures !DuplicateIn(v, t, mask, entry, i, i)
  {
  }

  lemma DuplicateInStep(v: Line221, t: Table, mask: MatchField, entry: Entry, start: nat, i: nat, end: nat)
    requires Shaped(t) && start <= i < end <= NO_F_FLWS
    ensures DuplicateIn(v, t, mask, entry, start, i + 1)
            <==> DuplicateIn(v, t, mask, entry, start, i) || ScanHits(v, mask, entry, t.rows[i], i)
    ensures DuplicateIn(v, t, mask, entry, start, i + 1) ==> DuplicateIn(v, t, mask, entry, start, end)
  {
    hide ScanHits;
  }

  lemma EditStart(action: ActionSet, flag: FlagWord, values: seq<byte>)
    requires EnoughValues(flag, values)
    ensures EditedTo(action, flag, values, 1) == action && Offset(flag, 1) == 0
  {
  }

  lemma EditNext(action: ActionSet, flag: FlagWord, values: seq<byte>, f: nat)
    requires 1 <= f <= LAST_ACTION_FIELD && EnoughValues(flag, values)
    ensures EditedTo(action, flag, values, f + 1) == EditStep(EditedTo(action, flag, values, f), flag, values, f)
  {
    hide Selected, Replace, Value;
  }

  lemma {:induction false} DropEditsNothing(action: ActionSet, flag: FlagWord, values: seq<byte>, f: nat)
    requires 1 <= f <= LAST_ACTION_FIELD + 1 && EnoughValues(flag, values)
    requires Bit(flag, 0)
    ensures EditedTo(action, flag, values, f) == action && Offset(flag, f) == 0
    decreases f
  {
    hide Bit, EnoughValues;
    if f > 1 {
      DropEditsNothing(action, flag, values, f - 1);
    }
  }

  function Unbump(row: FlowRow): FlowRow {
    row[COUNTER := row[COUNTER] - 1]
  }

  function RowStep(row: FlowRow, flag: FlagWord, values: seq<byte>, f: nat): FlowRow
    requires LAST_ACTION_FIELD < f <= NO_OF_FIELDS && EnoughValues(flag, values)
  {
    if Selected(flag, f) then row[f + 32 := ByteOf(Value(flag, values, f))] else row
  }

  lemma EditedRowSteps(row: FlowRow, flag: FlagWord, values: seq<byte>)
    requires EnoughValues(flag, values)
    ensures var r14 := RowStep(RowStep(row, flag, values, 13), flag, values, 14);
            var r := if Bit(flag, 14) then Bump(r14) else r14;
            var r15 := RowStep(r, flag, values, 15);
            EditedRow(row, flag, values) == Unbump(r15)
  {
    hide Bit, ByteOf, Offset, Value, Width;
  }

  function OredByte(a: FlagWord, i: nat, x: byte): FlagWord
    requires i < 2
  {
    a[i := a[i] | x]
  }

  lemma TwoBytes(a: FlagWord, b: FlagWord)
    ensures OredByte(OredByte(a, 0, b[0]), 1, b[1]) == OrFlags(a, b)
  {
  }

  class TcamUnit {
    const flowTable: array<byte>
    const maskTable: array<byte>
    const actionTable: array<byte>
    const flagTable: array<byte>
    var flowTail: nat
    var maskTail: nat
    /** How line 221 reads the new entry. */
    const line221: Line221

    ghost predicate Valid()
      reads this
    {
      && flowTable.Length == NO_F_FLWS * FLW_ENT_LEN
      && maskTable.Length == NO_F_FLWS * MTCH_FLD_LEN
      && actionTable.Length == NO_F_FLWS * ACTN_ST_LEN
      && flagTable.Length == NO_F_FLWS * 2
      && flowTable != maskTable && flowTable != actionTable && flowTable != flagTable
      && maskTable != actionTable && maskTable != flagTable && actionTable != flagTable
      && flowTail <= NO_F_FLWS && maskTail <= NO_F_FLWS
    }

    /** The tables and tails as one value. */
    ghost function Tables(): (t: Table)
      requires Valid()
      reads this, flowTable, maskTable, actionTable, flagTable
      ensures Shaped(t)
    {
      Table(RowsOf(flowTable[..], FLW_ENT_LEN), RowsOf(maskTable[..], MTCH_FLD_LEN),
            RowsOf(actionTable[..], ACTN_ST_LEN), RowsOf(flagTable[..], 2), flowTail, maskTail)
    }

    /** A caller's array is none of the four tables. */
    ghost predicate Foreign(a: array<byte>) {
      a != flowTable && a != maskTable && a != actionTable && a != flagTable
    }

    constructor (line221: Line221)
      ensures Valid() && flowTail == 0 && maskTail == 0 && this.line221 == line221
      ensures fresh(flowTable) && fresh(maskTable) && fresh(actionTable) && fresh(flagTable)
    {
      flowTable := new byte[NO_F_FLWS * FLW_ENT_LEN];
      maskTable := new byte[NO_F_FLWS * MTCH_FLD_LEN];
      actionTable := new byte[NO_F_FLWS * ACTN_ST_LEN];
      flagTable := new byte[NO_F_FLWS * 2];
      flowTail, maskTail := 0, 0;
      this.line221 := line221;
    }

    /** The marker bit of row `i`. */
    function Marker(i: nat): (b: bool)
      requires Valid() && i < NO_F_FLWS
      reads this, flowTable, maskTable, actionTable, flagTable
      ensures b == Marked(Tables().rows[i])
    {
      ByteOfRow(flowTable[..], FLW_ENT_LEN, i, 44);
      ReadBit(flowTable, (i * FLW_ENT_LEN + 44) * 8 + 4)
    }

    // ---- writing one row ----

    method WriteNewMask(mask: array<byte>)
      requires Valid() && maskTail < NO_F_FLWS
      requires mask.Length == MTCH_FLD_LEN && Foreign(mask)
      modifies this`maskTail, maskTable, mask
      ensures Valid() && Tables() == WithNewMask(old(Tables()), old(mask[..]))
      ensures mask[..] == Normalised(old(mask[..]))
      ensures forall q :: 0 <= q < 360 ==> (Bit(mask[..], q) <==> q < 357 && Bit(old(mask[..]), q))
    {
      NormalisedEveryBit(mask[..]);
      ResetBit(mask, 357);
      ResetBit(mask, 358);
      ResetBit(mask, 359);
      CopyBytes(mask, 0, maskTable, maskTail * MTCH_FLD_LEN, MTCH_FLD_LEN);
      assert mask[0..0 + MTCH_FLD_LEN] == mask[..];
      RowWritten(old(maskTable[..]), maskTable[..], MTCH_FLD_LEN, maskTail, mask[..]);
      maskTail := maskTail + 1;
    }

    method WriteNewFlowEntry(flowEntry: array<byte>)
      requires Valid() && flowTail < NO_F_FLWS
      requires flowEntry.Length >= MTCH_FLD_LEN + 1 && Foreign(flowEntry)
      modifies this`flowTail, flowTable
      ensures Valid()
      ensures Tables()
              == old(Tables()).(rows := old(Tables()).rows[old(flowTail) := Stored(flowEntry[..])],
                                tail := old(flowTail) + 1)
    {
      CopyBytes(flowEntry, 0, flowTable, flowTail * FLW_ENT_LEN, MTCH_FLD_LEN + 1);
      flowTable[flowTail * FLW_ENT_LEN + COUNTER] := 0;
      flowTable[flowTail * FLW_ENT_LEN + TIMEOUT] := 255;
      ghost var o := flowTail * FLW_ENT_LEN;
      ghost var before := old(flowTable[..]);
      assert flowTable[..] == before[..o] + Stored(flowEntry[..]) + before[o + FLW_ENT_LEN..];
      RowWritten(before, flowTable[..], FLW_ENT_LEN, flowTail, Stored(flowEntry[..]));
      flowTail := flowTail + 1;
    }

    method WriteNewAction(actionSet: array<byte>, flag: array<byte>, pos: nat)
      requires Valid() && pos < NO_F_FLWS
      requires actionSet.Length == ACTN_ST_LEN && Foreign(actionSet)
      requires flag.Length == 2 && Foreign(flag)
      modifies actionTable, flagTable
      ensures Valid()
      ensures Tables()
              == old(Tables()).(acts := old(Tables()).acts[pos := actionSet[..]],
                                flags := old(Tables()).flags[pos := flag[..]])
    {
      CopyBytes(actionSet, 0, actionTable, pos * ACTN_ST_LEN, ACTN_ST_LEN);
      assert actionSet[0..0 + ACTN_ST_LEN] == actionSet[..];
      RowWritten(old(actionTable[..]), actionTable[..], ACTN_ST_LEN, pos, actionSet[..]);
      flagTable[2 * pos] := flag[0];
      flagTable[2 * pos + 1] := flag[1];
      ghost var before := old(flagTable[..]);
      assert flagTable[..] == before[..pos * 2] + flag[..] + before[pos * 2 + 2..];
      RowWritten(before, flagTable[..], 2, pos, flag[..]);
    }

    // ---- moving rows ----

    /** Rows pos..tail-1 move down by one, and the tail grows. */
    method RestructureFlowTable(pos: nat)
      requires Valid() && flowTail < NO_F_FLWS && pos < NO_F_FLWS
      modifies this`flowTail, flowTable
      ensures Valid()
      ensures Tables() == old(Tables()).(rows := MovedDown(old(Tables()).rows, pos, old(flowTail)),
                               tail := old(flowTail) + 1)
    {
      hide RowsOf;
      var dummyFlow := new byte[FLW_ENT_LEN];
      var flowTailOld := flowTail;
      ghost var t := Tables();
      assert MovedDown(t.rows, t.tail, t.tail) == t.rows;
      while flowTail > pos
        invariant Valid() && flowTail <= flowTailOld
        invariant flowTail >= pos || flowTail == flowTailOld
        invariant Tables() == t.(rows := MovedDown(t.rows, flowTail, t.tail), tail := flowTail)
      {
        ShiftDownStep(t.rows, flowTail, t.tail);
        CopyRow(flowTable, FLW_ENT_LEN, flowTail - 1, dummyFlow);
        WriteNewFlowEntry(dummyFlow);
        flowTail := flowTail - 2;
      }
      assert MovedDown(t.rows, flowTail, t.tail)
          == MovedDown(t.rows, pos, t.tail);
      flowTail := flowTailOld + 1;
    }

    /** The same for actions and flags; the flow tail has grown already. */
    method RestructureActionTables(pos: nat)
      requires Valid() && flowTail > 0
      modifies actionTable, flagTable
      ensures Valid()
      ensures Tables() == old(Tables()).(acts := ShiftedDown(old(Tables()).acts, pos, flowTail - 1),
                               flags := ShiftedDown(old(Tables()).flags, pos, flowTail - 1))
    {
      hide RowsOf, ShiftedDown;
      var dummyAction := new byte[ACTN_ST_LEN];
      var dummyFlag := new byte[2];
      ghost var t := Tables();
      var tail := flowTail - 1;
      ShiftedDownNothing(t.acts, tail, tail);
      ShiftedDownNothing(t.flags, tail, tail);
      while tail > pos
        invariant Valid() && tail < flowTail
        invariant tail >= pos || tail == flowTail - 1
        invariant Tables() == t.(acts := ShiftedDown(t.acts, tail, t.tail - 1),
                            flags := ShiftedDown(t.flags, tail, t.tail - 1))
      {
        ShiftedDownStep(t.acts, tail, t.tail - 1);
        ShiftedDownStep(t.flags, tail, t.tail - 1);
        CopyRow(actionTable, ACTN_ST_LEN, tail - 1, dummyAction);
        CopyRow(flagTable, 2, tail - 1, dummyFlag);
        WriteNewAction(dummyAction, dummyFlag, tail);
        tail := tail - 1;
      }
      if tail < pos {
        ShiftedDownNothing(t.acts, pos, tail);
        ShiftedDownNothing(t.flags, pos, tail);
      }
    }

    /** Rows pos+1..tail-1 move up by one, and the tail shrinks. */
    method DeleteRestructureFlow(pos: nat)
      requires Valid() && pos < flowTail
      modifies this`flowTail, flowTable
      ensures Valid()
      ensures Tables()
              == old(Tables()).(rows := MovedUp(old(Tables()).rows, pos, old(flowTail)), tail := old(flowTail) - 1)
    {
      hide RowsOf;
      var dummyFlow := new byte[FLW_ENT_LEN];
      var flowTailOld := flowTail;
      ghost var t := Tables();
      flowTail := pos;
      while flowTail < flowTailOld - 1
        invariant Valid() && pos <= flowTail < flowTailOld
        invariant Tables() == t.(rows := MovedUp(t.rows, pos, flowTail + 1), tail := flowTail)
      {
        MovedUpStep(t.rows, pos, flowTail);
        CopyRow(flowTable, FLW_ENT_LEN, flowTail + 1, dummyFlow);
        WriteNewFlowEntry(dummyFlow);
      }
      flowTail := flowTailOld - 1;
    }

    /** The same for actions and flags; the flow tail has shrunk already. */
    method DeleteRestructureAction(pos: nat)
      requires Valid() && pos <= flowTail < NO_F_FLWS
      modifies actionTable, flagTable
      ensures Valid()
      ensures Tables() == old(Tables()).(acts := ShiftedBack(old(Tables()).acts, pos, flowTail + 1),
                               flags := ShiftedBack(old(Tables()).flags, pos, flowTail + 1))
    {
      hide RowsOf;
      var dummyAction := new byte[ACTN_ST_LEN];
      var dummyFlag := new byte[2];
      ghost var t := Tables();
      var j := pos;
      while j < flowTail
        invariant Valid() && pos <= j <= flowTail
        invariant Tables() == t.(acts := ShiftedBack(t.acts, pos, j + 1), flags := ShiftedBack(t.flags, pos, j + 1))
      {
        ShiftedBackStep(t.acts, pos, j);
        ShiftedBackStep(t.flags, pos, j);
        CopyRow(actionTable, ACTN_ST_LEN, j + 1, dummyAction);
        CopyRow(flagTable, 2, j + 1, dummyFlag);
        WriteNewAction(dummyAction, dummyFlag, j);
        j := j + 1;
      }
    }

    /** Masks pos+1..maskTail-1 move up by one, normalised as they move. */
    method DeleteRestructureMask(pos: nat)
      requires Valid() && pos < maskTail
      modifies this`maskTail, maskTable
      ensures Valid()
      ensures Tables() == old(Tables()).(masks := MasksMovedUp(old(Tables()).masks, pos, old(maskTail)),
                                         maskTail := old(maskTail) - 1)
    {
      hide RowsOf, Normalised;
      var dummyMask := new byte[MTCH_FLD_LEN];
      var maskTailOld := maskTail;
      ghost var t := Tables();
      maskTail := pos;
      while maskTail < maskTailOld - 1
        invariant Valid() && pos <= maskTail < maskTailOld
        invariant Tables() == t.(masks := MasksMovedUp(t.masks, pos, maskTail + 1), maskTail := maskTail)
      {
        MasksMovedUpStep(t.masks, pos, maskTail);
        CopyRow(maskTable, MTCH_FLD_LEN, maskTail + 1, dummyMask);
        WriteNewMask(dummyMask);
      }
      maskTail := maskTailOld - 1;
    }

    // ---- masks and groups ----

    /** Counts the markers up to row `pos`; a position before the table has mask 0. */
    method GetMaskPos(pos: int) returns (maskPos: nat)
      requires Valid()
      ensures 0 <= pos < flowTail ==> maskPos == Index(Marks(Tables()), pos)
      ensures pos >= flowTail ==> maskPos == Count(Marks(Tables()))
      ensures pos < 0 ==> maskPos == 0
    {
      hide RowsOf, Index;
      ghost var m := Marks(Tables());
      maskPos := 0;
      var i := 0;
      while i < flowTail && i <= pos
        invariant 0 <= i <= flowTail && (i <= pos + 1 || i == 0)
        invariant maskPos == Count(m[..i])
      {
        assert m[..i + 1][..i] == m[..i];
        if Marker(i) {
          maskPos := maskPos + 1;
        }
        i := i + 1;
      }
      assert m[..|m|] == m;
      if 0 <= pos < flowTail {
        IndexIsCount(m, pos);
      }
    }

    method LocateMaskGroup(maskNo: nat) returns (r: int)
      requires Valid()
      ensures r == Locate(Marks(Tables()), maskNo)
    {
      hide RowsOf, LocateMarker;
      if maskNo == 0 {
        return 0;
      }
      ghost var m := Marks(Tables());
      var k, i := 0, 0;
      while i < flowTail
        invariant 0 <= i <= flowTail && k == Count(m[..i]) < maskNo
      {
        assert m[..i + 1][..i] == m[..i];
        if Marker(i) {
          k := k + 1;
          if k == maskNo {
            MarkerIsLocated(m, maskNo, i);
            break;
          }
        }
        i := i + 1;
      }
      if i == flowTail {
        assert m[..|m|] == m;
        LocateMarkerSpec(m, maskNo);
        return STR_ERR;
      }
      return i;
    }

    /** The eight bits of one byte: 1 at the first difference under the mask, 0 if there is none. */
    method ByteMismatch(mask: array<byte>, m: nat, a: array<byte>, x: nat, b: array<byte>, y: nat) returns (k: nat)
      requires m < mask.Length && x < a.Length && y < b.Length
      ensures k == if AgreeByte(mask[m], a[x], b[y]) then 0 else 1
    {
      hide BitOf;
      k := 0;
      var j := 0;
      while j < 8
        invariant 0 <= j <= 8 && k == 0
        invariant forall n :: 0 <= n < j && BitOf(mask[m], n) ==> BitOf(a[x], n) == BitOf(b[y], n)
      {
        BitInByte(mask[..], m, j);
        BitInByte(a[..], x, j);
        BitInByte(b[..], y, j);
        if ReadBit(mask, m * 8 + j) {
          if ReadBit(a, x * 8 + j) != ReadBit(b, y * 8 + j) {
            k := k + 1;
            break;
          }
        }
        j := j + 1;
      }
    }

    /**
     Compares two match fields under a mask, bit by bit, leaving off at the first
     difference; `k` stays 0 exactly when they agree.
     */
    method CountMismatch(mask: array<byte>, mo: nat, a: array<byte>, ao: nat, b: array<byte>, bo: nat) returns (k: nat)
      requires mo + MTCH_FLD_LEN <= mask.Length && ao + MTCH_FLD_LEN <= a.Length && bo + MTCH_FLD_LEN <= b.Length
      ensures k <= 1
      ensures k == 0 <==> Agree(mask[mo..mo + MTCH_FLD_LEN], a[ao..ao + MTCH_FLD_LEN], b[bo..bo + MTCH_FLD_LEN])
      ensures k == 0 <==> BitsAgree(mask[mo..mo + MTCH_FLD_LEN], a[ao..ao + MTCH_FLD_LEN], b[bo..bo + MTCH_FLD_LEN])
    {
      hide AgreeByte, BitsAgree;
      AgreeIsBits(mask[mo..mo + MTCH_FLD_LEN], a[ao..ao + MTCH_FLD_LEN], b[bo..bo + MTCH_FLD_LEN]);
      ghost var m, x, y := mask[mo..mo + MTCH_FLD_LEN], a[ao..ao + MTCH_FLD_LEN], b[bo..bo + MTCH_FLD_LEN];
      k := 0;
      var i := 0;
      while i < MTCH_FLD_LEN
        invariant 0 <= i <= MTCH_FLD_LEN && k == 0
        invariant forall l :: 0 <= l < i ==> AgreeByte(m[l], x[l], y[l])
      {
        assert m[i] == mask[mo + i] && x[i] == a[ao + i] && y[i] == b[bo + i];
        k := ByteMismatch(mask, mo + i, a, ao + i, b, bo + i);
        if k == 1 {
          break;
        }
        i := i + 1;
      }
    }

    /** The comparison of a packet with one row under one mask. */
    method RowMismatch(newFlow: array<byte>, maskNo: nat, flowNo: nat) returns (k: nat)
      requires Valid() && maskNo < NO_F_FLWS && flowNo < NO_F_FLWS
      requires newFlow.Length >= MTCH_FLD_LEN
      ensures k == 0 <==> Agree(Tables().masks[maskNo], newFlow[..MTCH_FLD_LEN], Tables().rows[flowNo])
    {
      hide Agree;
      RowInside(MTCH_FLD_LEN, maskNo);
      RowInside(FLW_ENT_LEN, flowNo);
      k := CountMismatch(maskTable, maskNo * MTCH_FLD_LEN, newFlow, 0, flowTable, flowNo * FLW_ENT_LEN);
      ghost var fo := flowNo * FLW_ENT_LEN;
      assert newFlow[0..0 + MTCH_FLD_LEN] == newFlow[..MTCH_FLD_LEN];
      assert Tables().rows[flowNo] == flowTable[..][fo..fo + FLW_ENT_LEN];
      assert flowTable[fo..fo + MTCH_FLD_LEN] == Tables().rows[flowNo][..MTCH_FLD_LEN];
      AgreeOnPrefix(Tables().masks[maskNo], newFlow[..MTCH_FLD_LEN], Tables().rows[flowNo]);
    }

    /** One more packet for row `i`. */
    method CountPacket(i: nat)
      requires Valid() && i < NO_F_FLWS
      modifies flowTable
      ensures Valid() && Tables() == old(Tables()).(rows := old(Tables()).rows[i := Bump(old(Tables()).rows[i])])
    {
      ByteOfRow(flowTable[..], FLW_ENT_LEN, i, COUNTER);
      ByteWritten(flowTable[..], FLW_ENT_LEN, i, COUNTER, flowTable[i * FLW_ENT_LEN + COUNTER] + 1);
      flowTable[i * FLW_ENT_LEN + COUNTER] := flowTable[i * FLW_ENT_LEN + COUNTER] + 1;
    }

    function PriorityOf(i: nat): (b: byte)
      requires Valid() && i < NO_F_FLWS
      reads this, flowTable, maskTable, actionTable, flagTable
      ensures b == Tables().rows[i][PRIORITY]
    {
      ByteOfRow(flowTable[..], FLW_ENT_LEN, i, PRIORITY);
      flowTable[i * FLW_ENT_LEN + PRIORITY]
    }

    /** Compares the packet with a row under a mask, counts a match, and lets it lead if its priority is higher. */
    method VisitRow(newFlow: array<byte>, maskNo: nat, flowNo: nat, best: int) returns (matchNo: int)
      requires Valid() && maskNo < NO_F_FLWS && flowNo < NO_F_FLWS && best < NO_F_FLWS
      requires newFlow.Length >= MTCH_FLD_LEN && Foreign(newFlow)
      modifies flowTable
      ensures Valid()
      ensures var t := old(Tables());
              var hit := Agree(t.masks[maskNo], newFlow[..MTCH_FLD_LEN], t.rows[flowNo]);
              && Tables() == (if hit then t.(rows := t.rows[flowNo := Bump(t.rows[flowNo])]) else t)
              && matchNo == if hit && (best < 0 || t.rows[best][PRIORITY] < t.rows[flowNo][PRIORITY])
                             then flowNo else best
    {
      hide Agree, RowsOf;
      matchNo := best;
      var k := RowMismatch(newFlow, maskNo, flowNo);
      if k == 0 {
        CountPacket(flowNo);
        if matchNo >= 0 {
          if PriorityOf(matchNo) < PriorityOf(flowNo) {
            matchNo := flowNo;
          }
        } else {
          matchNo := flowNo;
        }
      }
    }

    // ---- search ----

    /**
     Counts the packet on every matching row and returns the first of those with
     the highest priority, with the number of its mask; `maskPos` means nothing
     when nothing matches. STR_ERR is returned exactly when some row has no mask
     in the mask table.
     */
    method SearchTcam(newFlow: array<byte>) returns (matchNo: int, maskPos: int)
      requires Valid()
      requires newFlow.Length >= MTCH_FLD_LEN && Foreign(newFlow)
      modifies flowTable
      ensures Valid()
      ensures matchNo == STR_ERR <==> !Sound(old(Tables()), flowTail)
      ensures Sound(old(Tables()), flowTail) ==>
                && (Tables(), matchNo) == SearchT(old(Tables()), newFlow[..MTCH_FLD_LEN])
                && (matchNo == NO_MATCH <==>
                      forall p :: 0 <= p < flowTail ==>
                        !BitsAgree(MaskOf(old(Tables()), p), newFlow[..MTCH_FLD_LEN], old(Tables()).rows[p]))
                && (matchNo != NO_MATCH ==>
                      BitsAgree(MaskOf(old(Tables()), matchNo), newFlow[..MTCH_FLD_LEN], old(Tables()).rows[matchNo]))
                && (matchNo != NO_MATCH ==> Wins(Candidates(old(Tables()), newFlow[..MTCH_FLD_LEN]), matchNo))
                && (matchNo != NO_MATCH ==> maskPos == Index(Marks(old(Tables())), matchNo))
      ensures !Sound(old(Tables()), flowTail) ==>
                StoppedShort(old(Tables()), Tables(), newFlow[..MTCH_FLD_LEN])
    {
      hide RowsOf, Index, Matches, Agree, Marked, Count, CountedTo, CandidatesTo, Best, Wins, BitsAgree,
        StoppedShort;
      ghost var t := Tables();
      ghost var m := Marks(t);
      ghost var pkt := newFlow[..MTCH_FLD_LEN];
      var maskNo, flowNo := 0, 0;
      matchNo, maskPos := -1, -1;
      SearchStart(t, pkt);
      while flowNo < flowTail
        invariant 0 <= flowNo <= flowTail && Valid() && Sound(t, flowNo)
        invariant Tables() == t.(rows := CountedTo(t, pkt, flowNo))
        invariant newFlow[..MTCH_FLD_LEN] == pkt
        invariant maskNo == Count(m[..flowNo])
        invariant matchNo == Best(CandidatesTo(t, pkt, flowNo))
        invariant matchNo >= 0 ==> maskPos == Index(m, matchNo)
      {
        IndexStep(m, flowNo);
        CountedKeepsMarks(t, pkt, flowNo);
        if Marker(flowNo) {
          maskNo := maskNo + 1;
        }
        assert maskNo == Index(m, flowNo);
        if maskNo >= maskTail {
          StopsHere(t, pkt, flowNo);
          return STR_ERR, maskPos;
        }
        IndexIsCount(m, flowNo);
        BestStep(t, pkt, flowNo);
        CountStep(t, pkt, flowNo);
        MatchesIsAgree(t, flowNo, pkt);
        var k := RowMismatch(newFlow, maskNo, flowNo);
        assert k == 0 <==> Matches(t, flowNo, pkt);
        if k == 0 {
          CountPacket(flowNo);
          assert newFlow[..MTCH_FLD_LEN] == pkt;
          assert Tables() == t.(rows := CountedTo(t, pkt, flowNo + 1));
          if matchNo >= 0 {
            if PriorityOf(matchNo) < PriorityOf(flowNo) {
              matchNo := flowNo;
              maskPos := maskNo;
            }
          } else {
            matchNo := flowNo;
            maskPos := maskNo;
          }
        }
        flowNo := flowNo + 1;
      }
      SearchEnd(t, pkt);
      SearchFinds(t, pkt);
    }

    // ---- adding a rule ----

    /** The comparison of the new entry with row `i`, up to the first difference. */
    method ScanRow(mask: array<byte>, flowEntry: array<byte>, i: nat) returns (k: nat)
      requires Valid() && i < NO_F_FLWS
      requires mask.Length == MTCH_FLD_LEN && flowEntry.Length >= MTCH_FLD_LEN + 1
      ensures k <= 1
      ensures k == 0 <==> ScanHits(line221, mask[..], flowEntry[..MTCH_FLD_LEN + 1], Tables().rows[i], i)
    {
      hide AgreeByte, RowsOf;
      ghost var m, e, row := mask[..], flowEntry[..MTCH_FLD_LEN + 1], Tables().rows[i];
      ghost var x := Compared(line221, e, i);
      k := 0;
      var l := 0;
      while l < MTCH_FLD_LEN
        invariant 0 <= l <= MTCH_FLD_LEN && k == 0
        invariant forall n :: 0 <= n < l ==> AgreeByte(m[n], x[n], row[n])
      {
        ByteOfRow(flowTable[..], FLW_ENT_LEN, i, l);
        k := ByteMismatch(mask, l, flowEntry, line221.At(i, l), flowTable, i * FLW_ENT_LEN + l);
        if k == 1 {
          break;
        }
        l := l + 1;
      }
    }

    /** Scans the group that starts at `maskGroupStart`; the row there is scanned even in an empty table. */
    method SearchWithinMaskGroup(mask: array<byte>, flowEntry: array<byte>, maskGroupStart: nat) returns (r: int)
      requires Valid() && flowTail < NO_F_FLWS
      requires mask.Length == MTCH_FLD_LEN && flowEntry.Length >= MTCH_FLD_LEN + 1
      requires maskGroupStart < flowTail || maskGroupStart == 0
      ensures var end := GroupEnd(Marks(Tables()), maskGroupStart);
              && end <= NO_F_FLWS
              && r == if DuplicateIn(line221, Tables(), mask[..], flowEntry[..MTCH_FLD_LEN + 1], maskGroupStart, end)
                      then RDNDNT else end
    {
      hide RowsOf, ScanHits, Marked, GroupEnd, DuplicateIn;
      ghost var t, e := Tables(), flowEntry[..MTCH_FLD_LEN + 1];
      ghost var m := Marks(t);
      var i := maskGroupStart;
      assert !DuplicateIn(line221, t, mask[..], e, i, i) by { NoRowsNoDuplicate(line221, t, mask[..], e, i); }
      while true
        invariant maskGroupStart <= i < NO_F_FLWS && (i < flowTail || i == 0)
        invariant GroupEnd(m, i) == GroupEnd(m, maskGroupStart)
        invariant !DuplicateIn(line221, t, mask[..], e, maskGroupStart, i)
        decreases NO_F_FLWS - i
      {
        GroupEndStep(m, i);
        GroupEndInside(m, maskGroupStart);
        DuplicateInStep(line221, t, mask[..], e, maskGroupStart, i, GroupEnd(m, maskGroupStart));
        var k := ScanRow(mask, flowEntry, i);
        if k == 0 {
          return RDNDNT;
        }
        i := i + 1;
        if Marker(i) || i >= flowTail {
          break;
        }
      }
      return i;
    }

    /** The first stored mask equal to the given one, if any. */
    method FindMask(mask: array<byte>) returns (found: bool, i: nat)
      requires Valid() && mask.Length == MTCH_FLD_LEN
      ensures found <==> mask[..] in LiveMasks(Tables())
      ensures found ==> i == IndexOf(LiveMasks(Tables()), mask[..])
    {
      hide RowsOf;
      ghost var live := LiveMasks(Tables());
      found, i := false, 0;
      while i < maskTail
        invariant 0 <= i <= maskTail && !found
        invariant mask[..] !in live[..i]
      {
        var k := 0;
        var j := 0;
        while j < MTCH_FLD_LEN
          invariant 0 <= j <= MTCH_FLD_LEN && k == 0
          invariant forall n :: 0 <= n < j ==> live[i][n] == mask[n]
        {
          ByteOfRow(maskTable[..], MTCH_FLD_LEN, i, j);
          if maskTable[i * MTCH_FLD_LEN + j] != mask[j] {
            k := k + 1;
            break;
          }
          j := j + 1;
        }
        if k == 0 {
          assert live[i] == mask[..];
          found := true;
          return;
        }
        assert live[..i + 1] == live[..i] + [live[i]];
        i := i + 1;
      }
      assert live[..i] == live;
    }

    /** Opens slot `pos` and writes the new entry there, as a row that starts no group. */
    method InsertIntoGroup(flowEntry: array<byte>, pos: nat)
      requires Valid() && flowTail < NO_F_FLWS && pos < NO_F_FLWS
      requires flowEntry.Length >= MTCH_FLD_LEN + 1 && Foreign(flowEntry)
      modifies this`flowTail, flowTable, flowEntry
      ensures Valid()
      ensures var row := WithMarker(Stored(old(flowEntry[..])), false);
              Tables() == old(Tables()).(rows := MovedDown(old(Tables()).rows, pos, old(flowTail))[pos := row],
                               tail := old(flowTail) + 1)
      ensures flowEntry[..] == WithMarker(old(flowEntry[..]), false)
    {
      hide RowsOf, WithBit, MovedDown;
      RestructureFlowTable(pos);
      ResetBit(flowEntry, 44 * 8 + 4);
      MarkerBeforeStoring(old(flowEntry[..]), false);
      var ch := flowTail;
      flowTail := pos;
      WriteNewFlowEntry(flowEntry);
      flowTail := ch;
    }

    /** Writes a new mask and, at the end of the flow table, the first row of its group. */
    method AppendWithMask(mask: array<byte>, flowEntry: array<byte>)
      requires Valid() && flowTail < NO_F_FLWS && maskTail < NO_F_FLWS
      requires mask.Length == MTCH_FLD_LEN && Foreign(mask)
      requires flowEntry.Length >= MTCH_FLD_LEN + 1 && Foreign(flowEntry) && flowEntry != mask
      modifies this`flowTail, this`maskTail, flowTable, maskTable, mask, flowEntry
      ensures Valid()
      ensures var row := WithMarker(Stored(old(flowEntry[..])), old(flowTail) > 0);
              Tables() == WithNewMask(old(Tables()), old(mask[..])).(rows := old(Tables()).rows[old(flowTail) := row],
                                                           tail := old(flowTail) + 1)
      ensures flowEntry[..] == WithMarker(old(flowEntry[..]), old(flowTail) > 0)
      ensures mask[..] == Normalised(old(mask[..]))
    {
      hide RowsOf, WithBit, Normalised;
      MarkerBeforeStoring(flowEntry[..], flowTail > 0);
      if flowTail == 0 {
        ResetBit(flowEntry, 44 * 8 + 4);
      } else {
        SetBit(flowEntry, 44 * 8 + 4);
      }
      WriteNewMask(mask);
      WriteNewFlowEntry(flowEntry);
    }

    /** The flow and mask tables' part of an add; the position returned is where the action belongs. */
    method AddNewFlowEntry(mask: array<byte>, flowEntry: array<byte>) returns (pos: int)
      requires Valid() && mask.Length == MTCH_FLD_LEN && Foreign(mask)
      requires flowEntry.Length >= MTCH_FLD_LEN + 1 && Foreign(flowEntry) && flowEntry != mask
      requires MaskRoom(Tables(), mask[..])
      modifies this`flowTail, this`maskTail, flowTable, maskTable, mask, flowEntry
      ensures Valid()
      ensures var (t', r) :=
                AddT(line221, old(Tables()), old(mask[..]), old(flowEntry[..MTCH_FLD_LEN + 1]), NO_ACTION, NO_FLAG);
              && pos == r
              && Tables() == t'.(acts := old(Tables()).acts, flags := old(Tables()).flags)
      ensures pos < 0 ==> mask[..] == old(mask[..]) && flowEntry[..] == old(flowEntry[..])
      ensures pos >= 0 ==>
                var isNew := old(mask[..]) !in LiveMasks(old(Tables()));
                && mask[..] == (if isNew then Normalised(old(mask[..])) else old(mask[..]))
                && flowEntry[..] == WithMarker(old(flowEntry[..]), isNew && old(flowTail) > 0)
    {
      hide RowsOf, ScanHits, Marked, Normalised, WithMarker, GroupEnd, Locate, Count, MovedDown;
      ghost var e := flowEntry[..MTCH_FLD_LEN + 1];
      assert Stored(flowEntry[..]) == Stored(e);
      if flowTail >= NO_F_FLWS {
        return TBL_FULL;
      }
      var found, i := FindMask(mask);
      if found {
        LocatedGroupEnds(Tables(), mask[..]);
        var maskGroupStart := LocateMaskGroup(i);
        pos := SearchWithinMaskGroup(mask, flowEntry, maskGroupStart);
        if pos == RDNDNT {
          return RDNDNT;
        }
        InsertIntoGroup(flowEntry, pos);
        return pos;
      }
      MovedDownNothing(Tables().rows, flowTail);
      AppendWithMask(mask, flowEntry);
      return flowTail - 1;
    }

    /**
     Adds a rule with its mask, action set and flag. Everything the tables become
     is AddT; what that means for the list of rules is in Refinement and
     TableTheorems.
     */
    method AddNewEntry(mask: array<byte>, flowEntry: array<byte>, actionSet: array<byte>, flag: array<byte>)
      returns (pos: int)
      requires Valid() && mask.Length == MTCH_FLD_LEN && Foreign(mask)
      requires flowEntry.Length >= MTCH_FLD_LEN + 1 && Foreign(flowEntry) && flowEntry != mask
      requires actionSet.Length == ACTN_ST_LEN && Foreign(actionSet) && actionSet != mask && actionSet != flowEntry
      requires flag.Length == 2 && Foreign(flag) && flag != mask && flag != flowEntry
      requires MaskRoom(Tables(), mask[..])
      modifies this`flowTail, this`maskTail, flowTable, maskTable, actionTable, flagTable, mask, flowEntry
      ensures Valid()
      ensures (Tables(), pos)
              == AddT(line221, old(Tables()), old(mask[..]), old(flowEntry[..MTCH_FLD_LEN + 1]),
                      actionSet[..], flag[..])
      ensures pos < 0 ==> mask[..] == old(mask[..]) && flowEntry[..] == old(flowEntry[..])
      ensures pos >= 0 ==>
                var isNew := old(mask[..]) !in LiveMasks(old(Tables()));
                && mask[..] == (if isNew then Normalised(old(mask[..])) else old(mask[..]))
                && flowEntry[..] == WithMarker(old(flowEntry[..]), isNew && old(flowTail) > 0)
    {
      hide RowsOf, ScanHits, Marked, Normalised, WithMarker, GroupEnd, Locate, Count, MovedDown, MaskRoom, DuplicateIn;
      ghost var t := Tables();
      AddPositions(line221, t, mask[..], flowEntry[..MTCH_FLD_LEN + 1], actionSet[..], flag[..]);
      pos := AddNewFlowEntry(mask, flowEntry);
      if pos == TBL_FULL || pos == RDNDNT {
        return pos;
      }
      if pos < flowTail - 1 {
        RestructureActionTables(pos);
      }
      WriteNewAction(actionSet, flag, pos);
      return pos;
    }

    // ---- deleting a rule ----

    method MakeLeader(i: nat)
      requires Valid() && i < NO_F_FLWS
      modifies flowTable
      ensures Valid()
      ensures Tables()
              == old(Tables()).(rows := old(Tables()).rows[i := WithMarker(old(Tables()).rows[i], true)])
    {
      hide WithBit, RowsOf;
      BitWritten(flowTable[..], FLW_ENT_LEN, i, 44 * 8 + 4, true);
      SetBit(flowTable, (i * FLW_ENT_LEN + 44) * 8 + 4);
    }

    /** The mask goes if row `flowPos` is the only one under it. */
    method DropMaskIfSole(flowPos: nat)
      requires Valid() && Sound(Tables(), flowTail) && flowPos < flowTail
      modifies this`maskTail, maskTable
      ensures Valid() && Tables() == WithoutSoleMask(old(Tables()), flowPos)
    {
      hide RowsOf, Marked, Normalised, Index, MasksMovedUp;
      if Marker(flowPos) && (flowPos == flowTail - 1 || Marker(flowPos + 1)) {
        var maskPos := GetMaskPos(flowPos);
        DeleteRestructureMask(maskPos);
      }
    }

    /** The next row becomes the leader of the group that row `flowPos` leads. */
    method HandOver(flowPos: nat)
      requires Valid() && flowPos < flowTail
      modifies flowTable
      ensures Valid() && Tables() == old(Tables()).(rows := Promoted(old(Tables()), flowPos))
    {
      hide RowsOf, Marked, WithMarker;
      // flow_unit.h:498 reads row flowPos + 1 without asking whether the array has one
      if Marker(flowPos) && flowPos + 1 < NO_F_FLWS && !Marker(flowPos + 1) {
        MakeLeader(flowPos + 1);
      }
    }

    /** Takes row `flowPos` out: its mask if it was alone under it, the row, then its action and flag. */
    method RemoveRow(flowPos: nat)
      requires Valid() && Sound(Tables(), flowTail) && flowPos < flowTail
      modifies this`flowTail, this`maskTail, flowTable, maskTable, actionTable, flagTable
      ensures Valid() && Tables() == RemovedT(old(Tables()), flowPos)
    {
      hide RowsOf, Marked, Normalised, WithMarker, Index, MovedUp, ShiftedBack, MasksMovedUp, SoleOfGroup;
      DropMaskIfSole(flowPos);
      HandOver(flowPos);
      DeleteRestructureFlow(flowPos);
      DeleteRestructureAction(flowPos);
    }

    /** Deletes the rule that wins the search for `flowEntry`; the code relies on there being one. */
    method DeleteFlowEntry(flowEntry: array<byte>) returns (flowPos: int)
      requires Valid() && Sound(Tables(), flowTail)
      requires flowEntry.Length >= MTCH_FLD_LEN && Foreign(flowEntry)
      requires SearchT(Tables(), flowEntry[..MTCH_FLD_LEN]).1 >= 0
      modifies this`flowTail, this`maskTail, flowTable, maskTable, actionTable, flagTable
      ensures Valid() && (Tables(), flowPos) == DeleteT(old(Tables()), flowEntry[..MTCH_FLD_LEN])
    {
      hide RowsOf, RemovedT, CountedTo, Marks, Matches;
      SearchKeeps(Tables(), flowEntry[..MTCH_FLD_LEN]);
      var mask;
      flowPos, mask := SearchTcam(flowEntry);
      RemoveRow(flowPos);
    }

    // ---- modifying a rule ----

    /** Takes the next `width` bits of the new values and writes them over a field of action set `pos`. */
    method UnpackField(pos: nat, start: nat, width: nat, newValues: array<byte>, val: array<byte>, valPos: nat)
      requires Valid() && pos < NO_F_FLWS
      requires Foreign(newValues) && newValues != val && val.Length == 6 && Foreign(val)
      requires start + width <= 8 * ACTN_ST_LEN && width <= 48 && valPos + width <= 8 * newValues.Length
      modifies actionTable, val
      ensures Valid()
      ensures Tables() == old(Tables()).(acts := old(Tables()).acts[pos :=
                Replace(old(Tables()).acts[pos], start, Extract(newValues[..], valPos, width))])
    {
      hide RowsOf, Bit, Replace, Extract;
      ghost var v := Extract(newValues[..], valPos, width);
      ExtractField(newValues, 0, valPos, valPos + width - 1, val);
      assert val[..] == Replace(old(val[..]), 0, v);
      PutGet(old(val[..]), 0, v);
      FieldWritten(actionTable[..], ACTN_ST_LEN, pos, start, v);
      ReplaceField(actionTable, pos, start, start + width - 1, val);
    }

    /** One block of `modify_entry`: unpack the next value if field `f` is selected, and write it to its place. */
    method ModifyField(pos: nat, f: nat, flag: array<byte>, newValues: array<byte>, val: array<byte>, valPos: nat)
      returns (next: nat)
      requires Valid() && pos < NO_F_FLWS && 1 <= f < LAST_ACTION_FIELD
      requires flag.Length == 2 && Foreign(flag) && Foreign(newValues) && newValues != val
      requires val.Length == 6 && Foreign(val) && val != flag
      requires !Bit(flag[..], 0) && EnoughValues(flag[..], newValues[..]) && valPos == Offset(flag[..], f)
      modifies actionTable, val
      ensures Valid() && next == Offset(flag[..], f + 1)
      ensures Tables()
              == old(Tables()).(acts := old(Tables()).acts[pos :=
                    EditStep(old(Tables()).acts[pos], flag[..], newValues[..], f)])
    {
      hide RowsOf, Bit, Replace, Extract, Tables;
      ghost var a := Tables().acts;
      assert a == a[pos := a[pos]];
      next := valPos;
      OffsetMonotone(flag[..], f + 1, NO_OF_FIELDS + 1);
      if ReadBit(flag, f) {
        UnpackField(pos, Start(f), Width(f), newValues, val, valPos);
        next := valPos + Width(f);
      }
    }

    /** MAC addresses, VLAN and MPLS fields, block after block. */
    method ModifyEthernetFields(pos: nat, flag: array<byte>, newValues: array<byte>, val: array<byte>, valPos0: nat)
      returns (valPos: nat)
      requires Valid() && pos < NO_F_FLWS
      requires flag.Length == 2 && Foreign(flag) && Foreign(newValues) && newValues != val
      requires val.Length == 6 && Foreign(val) && val != flag
      requires EnoughValues(flag[..], newValues[..]) && !Bit(flag[..], 0) && valPos0 == 0
      modifies actionTable, val
      ensures Valid() && valPos == Offset(flag[..], 7)
      ensures Tables()
              == old(Tables()).(acts := old(Tables()).acts[pos :=
                    EditedTo(old(Tables()).acts[pos], flag[..], newValues[..], 7)])
    {
      hide RowsOf, Bit, EditStep, Offset, EditedTo, EnoughValues;
      ghost var fl, vs, a := flag[..], newValues[..], Tables().acts[pos];
      EditStart(a, fl, vs);
      valPos := ModifyField(pos, 1, flag, newValues, val, valPos0);
      EditNext(a, fl, vs, 1);
      valPos := ModifyField(pos, 2, flag, newValues, val, valPos);
      EditNext(a, fl, vs, 2);
      valPos := ModifyField(pos, 3, flag, newValues, val, valPos);
      EditNext(a, fl, vs, 3);
      valPos := ModifyField(pos, 4, flag, newValues, val, valPos);
      EditNext(a, fl, vs, 4);
      valPos := ModifyField(pos, 5, flag, newValues, val, valPos);
      EditNext(a, fl, vs, 5);
      valPos := ModifyField(pos, 6, flag, newValues, val, valPos);
      EditNext(a, fl, vs, 6);
    }

    /** IPv4 and TCP fields and the output port, block after block; `a` is the action set before all blocks. */
    method ModifyNetworkFields(pos: nat, ghost a: ActionSet, flag: array<byte>, newValues: array<byte>,
                               val: array<byte>,
                               valPos0: nat)
      returns (valPos: nat)
      requires Valid() && pos < NO_F_FLWS
      requires flag.Length == 2 && Foreign(flag) && Foreign(newValues) && newValues != val
      requires val.Length == 6 && Foreign(val) && val != flag
      requires EnoughValues(flag[..], newValues[..]) && !Bit(flag[..], 0) && valPos0 == Offset(flag[..], 7)
      requires Tables().acts[pos] == EditedTo(a, flag[..], newValues[..], 7)
      modifies actionTable, val
      ensures Valid() && valPos == Offset(flag[..], 13)
      ensures Tables() == old(Tables()).(acts := old(Tables()).acts[pos := EditedTo(a, flag[..], newValues[..], 13)])
    {
      hide RowsOf, Bit, EditStep, Offset, EditedTo, EnoughValues;
      ghost var fl, vs := flag[..], newValues[..];
      valPos := ModifyField(pos, 7, flag, newValues, val, valPos0);
      EditNext(a, fl, vs, 7);
      valPos := ModifyField(pos, 8, flag, newValues, val, valPos);
      EditNext(a, fl, vs, 8);
      valPos := ModifyField(pos, 9, flag, newValues, val, valPos);
      EditNext(a, fl, vs, 9);
      valPos := ModifyField(pos, 10, flag, newValues, val, valPos);
      EditNext(a, fl, vs, 10);
      valPos := ModifyField(pos, 11, flag, newValues, val, valPos);
      EditNext(a, fl, vs, 11);
      valPos := ModifyOutputPort(pos, flag, newValues, val, valPos);
      EditNext(a, fl, vs, 12);
    }

    /** The whole action part of `modify_entry`: nothing at all when packets are to be dropped. */
    method ModifyActions(pos: nat, flag: array<byte>, newValues: array<byte>, val: array<byte>) returns (valPos: nat)
      requires Valid() && pos < NO_F_FLWS
      requires flag.Length == 2 && Foreign(flag) && Foreign(newValues) && newValues != val
      requires val.Length == 6 && Foreign(val) && val != flag
      requires EnoughValues(flag[..], newValues[..])
      modifies actionTable, val
      ensures Valid() && valPos == Offset(flag[..], LAST_ACTION_FIELD + 1)
      ensures Tables() == old(Tables()).(acts := old(Tables()).acts[pos :=
                EditedTo(old(Tables()).acts[pos], flag[..], newValues[..], LAST_ACTION_FIELD + 1)])
    {
      hide RowsOf, Bit, EditStep, Offset, EditedTo, EnoughValues;
      ghost var t, fl, vs := Tables(), flag[..], newValues[..];
      ghost var a := t.acts[pos];
      valPos := 0;
      EditStart(a, fl, vs);
      assert t.acts[pos := a] == t.acts;
      if !ReadBit(flag, 0) {
        valPos := ModifyEthernetFields(pos, flag, newValues, val, valPos);
        valPos := ModifyNetworkFields(pos, a, flag, newValues, val, valPos);
      } else {
        DropEditsNothing(a, fl, vs, LAST_ACTION_FIELD + 1);
      }
    }

    /** The output port is a whole byte of the action set, and is written as one. */
    method ModifyOutputPort(pos: nat, flag: array<byte>, newValues: array<byte>, val: array<byte>, valPos: nat)
      returns (next: nat)
      requires Valid() && pos < NO_F_FLWS
      requires flag.Length == 2 && Foreign(flag) && Foreign(newValues) && newValues != val
      requires val.Length == 6 && Foreign(val) && val != flag
      requires !Bit(flag[..], 0) && EnoughValues(flag[..], newValues[..]) && valPos == Offset(flag[..], 12)
      modifies actionTable, val
      ensures Valid() && next == Offset(flag[..], 13)
      ensures Tables()
              == old(Tables()).(acts := old(Tables()).acts[pos :=
                    EditStep(old(Tables()).acts[pos], flag[..], newValues[..], 12)])
    {
      hide RowsOf, Bit, Replace, Extract, ByteOf, Offset, Width, Start;
      ghost var a := Tables().acts;
      assert a == a[pos := a[pos]];
      next := valPos;
      ByteFields();
      ValueInside(flag[..], newValues[..], 12);
      if ReadBit(flag, 12) {
        ghost var v := Value(flag[..], newValues[..], 12);
        ExtractField(newValues, 0, valPos, valPos + 7, val);
        FirstByte(old(val[..]), v);
        ReplaceByte(a[pos], 30, v);
        ByteWritten(actionTable[..], ACTN_ST_LEN, pos, 30, val[0]);
        actionTable[pos * ACTN_ST_LEN + 30] := val[0];
        next := valPos + 8;
      }
    }

    /** One of the priority, counter and timeout bytes of the row. */
    method ModifyRowByte(pos: nat, f: nat, flag: array<byte>, newValues: array<byte>, val: array<byte>, valPos: nat)
      returns (next: nat)
      requires Valid() && pos < NO_F_FLWS && LAST_ACTION_FIELD < f <= NO_OF_FIELDS
      requires flag.Length == 2 && Foreign(flag) && Foreign(newValues) && newValues != val
      requires val.Length == 6 && Foreign(val) && val != flag
      requires EnoughValues(flag[..], newValues[..]) && valPos == Offset(flag[..], f)
      modifies flowTable, val
      ensures Valid() && next == Offset(flag[..], f + 1)
      ensures Tables()
              == old(Tables()).(rows := old(Tables()).rows[pos :=
                    RowStep(old(Tables()).rows[pos], flag[..], newValues[..], f)])
    {
      hide RowsOf, Bit, Replace, Extract, ByteOf, Offset, Width;
      ghost var r := Tables().rows;
      assert r == r[pos := r[pos]];
      next := valPos;
      ByteFields();
      ValueInside(flag[..], newValues[..], f);
      if ReadBit(flag, f) {
        ExtractField(newValues, 0, valPos, valPos + 7, val);
        FirstByte(old(val[..]), Value(flag[..], newValues[..], f));
        ByteWritten(flowTable[..], FLW_ENT_LEN, pos, f + 32, val[0]);
        flowTable[pos * FLW_ENT_LEN + (f + 32)] := val[0];
        next := valPos + 8;
      }
    }

    /** One packet less for row `i`: what was searched for was not a packet. */
    method UncountPacket(i: nat)
      requires Valid() && i < NO_F_FLWS
      modifies flowTable
      ensures Valid() && Tables() == old(Tables()).(rows := old(Tables()).rows[i := Unbump(old(Tables()).rows[i])])
    {
      ByteOfRow(flowTable[..], FLW_ENT_LEN, i, COUNTER);
      ByteWritten(flowTable[..], FLW_ENT_LEN, i, COUNTER, flowTable[i * FLW_ENT_LEN + COUNTER] - 1);
      flowTable[i * FLW_ENT_LEN + COUNTER] := flowTable[i * FLW_ENT_LEN + COUNTER] - 1;
    }

    method ModifyRow(pos: nat, flag: array<byte>, newValues: array<byte>, val: array<byte>, valPos: nat)
      requires Valid() && pos < NO_F_FLWS
      requires flag.Length == 2 && Foreign(flag) && Foreign(newValues) && newValues != val
      requires val.Length == 6 && Foreign(val) && val != flag
      requires EnoughValues(flag[..], newValues[..]) && valPos == Offset(flag[..], 13)
      modifies flowTable, val
      ensures Valid()
      ensures Tables()
              == old(Tables()).(rows := old(Tables()).rows[pos :=
                    EditedRow(old(Tables()).rows[pos], flag[..], newValues[..])])
    {
      hide RowsOf, Bit, ByteOf, Offset, EnoughValues, Value;
      ghost var row := Tables().rows[pos];
      var p := ModifyRowByte(pos, 13, flag, newValues, val, valPos);
      p := ModifyRowByte(pos, 14, flag, newValues, val, p);
      if ReadBit(flag, 14) {
        CountPacket(pos);
      }
      p := ModifyRowByte(pos, 15, flag, newValues, val, p);
      UncountPacket(pos);
      EditedRowSteps(row, flag[..], newValues[..]);
    }

    /**
     Changes the fields selected by `flag` of the rule that wins the search. The
     code checks for STR_ERR but relies on some rule matching otherwise.
     */
    method ModifyEntry(matchFields: array<byte>, flag: array<byte>, newValues: array<byte>) returns (pos: int)
      requires Valid()
      requires matchFields.Length >= MTCH_FLD_LEN && Foreign(matchFields)
      requires flag.Length == 2 && Foreign(flag) && Foreign(newValues)
      requires EnoughValues(flag[..], newValues[..])
      requires Sound(Tables(), flowTail) ==> SearchT(Tables(), matchFields[..MTCH_FLD_LEN]).1 >= 0
      modifies flowTable, actionTable, flagTable
      ensures Valid()
      ensures Sound(old(Tables()), flowTail) ==>
                (Tables(), pos) == ModifyT(old(Tables()), matchFields[..MTCH_FLD_LEN], flag[..], newValues[..])
      ensures !Sound(old(Tables()), flowTail) ==>
                pos == STR_ERR && StoppedShort(old(Tables()), Tables(), matchFields[..MTCH_FLD_LEN])
    {
      hide RowsOf, Bit, ByteOf, Offset, EnoughValues, Value, EditedTo, EditedRow, CountedTo, Marks, Matches;
      var mask;
      pos, mask := SearchTcam(matchFields);
      if pos == STR_ERR {
        return STR_ERR;
      }
      var val := new byte[6];
      var valPos := ModifyActions(pos, flag, newValues, val);
      ModifyRow(pos, flag, newValues, val, valPos);
      OrFlag(pos, flag);
    }

    method OrFlag(pos: nat, flag: array<byte>)
      requires Valid() && pos < NO_F_FLWS && flag.Length == 2 && Foreign(flag)
      modifies flagTable
      ensures Valid()
      ensures Tables()
              == old(Tables()).(flags := old(Tables()).flags[pos := OrFlags(old(Tables()).flags[pos], flag[..])])
    {
      hide RowsOf, OrFlags, OredByte;
      ghost var was := Tables().flags[pos];
      OrFlagByte(pos, 0, flag[0]);
      OrFlagByte(pos, 1, flag[1]);
      TwoBytes(was, flag[..]);
    }

    method OrFlagByte(pos: nat, b: nat, x: byte)
      requires Valid() && pos < NO_F_FLWS && b < 2
      modifies flagTable
      ensures Valid()
      ensures Tables()
              == old(Tables()).(flags := old(Tables()).flags[pos := OredByte(old(Tables()).flags[pos], b, x)])
    {
      hide RowsOf;
      ByteOfRow(flagTable[..], 2, pos, b);
      ByteWritten(flagTable[..], 2, pos, b, flagTable[pos * 2 + b] | x);
      flagTable[pos * 2 + b] := flagTable[pos * 2 + b] | x;
    }
  }
}
