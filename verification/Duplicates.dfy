/**
 Duplicate rules: what keeps them out of the list of rules, and what the scan for
 them does as it is written (flow-processing-unit/flow_unit.h:208-239).
 */
module Duplicates {
  import opened Bytes
  import opened Lists
  import opened Matching
  import opened FlowModel
  import opened ModifyModel
  import opened RuleList

  /** No two rules of one mask agree on all masked bits. */
  ghost predicate NoDuplicates(s: RuleTable) {
    forall i, j :: 0 <= i < j < |s.rules| && s.rules[i].mask == s.rules[j].mask ==>
      !Agree(s.rules[i].mask, s.rules[i].fields, s.rules[j].fields)
  }

  lemma AgreeSymmetric(mask: MatchField, a: MatchField, b: MatchField)
    ensures Agree(mask, a, b) == Agree(mask, b, a)
  {
    assert forall l :: 0 <= l < MTCH_FLD_LEN ==> AgreeByte(mask[l], a[l], b[l]) == AgreeByte(mask[l], b[l], a[l]);
  }

  lemma ByByteIsAgree(mask: MatchField, entry: Entry, row: seq<byte>, r: nat)
    requires |row| >= MTCH_FLD_LEN && r < NO_F_FLWS
    ensures ScanHits(ByByte, mask, entry, row, r) == Agree(mask, entry, row)
  {
    hide Agree;
    assert Compared(ByByte, entry, r) == entry[..MTCH_FLD_LEN];
    AgreeOnFirst(mask, entry, row);
  }

  lemma AgreeOnFirst(mask: MatchField, entry: Entry, b: seq<byte>)
    requires |b| >= MTCH_FLD_LEN
    ensures Agree(mask, entry[..MTCH_FLD_LEN], b) == Agree(mask, entry, b)
  {
    hide AgreeByte;
    forall l | 0 <= l < MTCH_FLD_LEN
      ensures entry[l] == entry[..MTCH_FLD_LEN][l]
    {
    }
  }

  /**
   The step of an add that keeps duplicates out: the table is full, the scan hits, or there is
   no duplicate to be hit.
   */
  ghost predicate Caught(v: Line221, s: RuleTable, op: Op) {
    op.Add? ==>
      |s.rules| >= NO_F_FLWS
      || TakenForDuplicate(v, s.rules, op.mask, op.entry) || !TakenForDuplicate(ByByte, s.rules, op.mask, op.entry)
  }

  lemma AddKeepsNoDuplicates(v: Line221, s: RuleTable, mask: MatchField, entry: Entry, action: ActionSet,
                             flag: FlagWord)
    requires NoDuplicates(s) && (|s.rules| >= NO_F_FLWS || AddIsSafe(s, mask))
    ensures NoDuplicates(AddR(v, s, mask, entry, action, flag).0) <==> Caught(v, s, Add(mask, entry, action, flag))
  {
    hide ScanHits, NewRule, AfterLast, CleanMask, InsertAt, NoDuplicates;
    if AddR(v, s, mask, entry, action, flag).1 >= 0 {
      var pos := if mask in s.masks then AfterLast(s.rules, mask) else |s.rules|;
      CleanIsMarkerFree(mask);
      if TakenForDuplicate(ByByte, s.rules, mask, entry) {
        var i :| 0 <= i < |s.rules| && i < NO_F_FLWS && s.rules[i].mask == mask
                 && ScanHits(ByByte, mask, entry, s.rules[i].fields, i);
        InsertDuplicates(s, mask, entry, action, flag, pos, i);
      } else {
        InsertKeepsApart(s, mask, entry, action, flag, pos);
      }
    }
  }

  lemma InsertKeepsApart(s: RuleTable, mask: MatchField, entry: Entry, action: ActionSet, flag: FlagWord, pos: nat)
    requires NoDuplicates(s) && |s.rules| < NO_F_FLWS && pos <= |s.rules| && MarkerFree(mask)
    requires !TakenForDuplicate(ByByte, s.rules, mask, entry)
    ensures forall masks ::
              NoDuplicates(RuleTable(InsertAt(s.rules, pos, NewRule(mask, entry, action, flag)), masks))
  {
    hide Agree, MarkerFree, NewRule, ScanHits, InsertAt;
    var added := NewRule(mask, entry, action, flag);
    var now := InsertAt(s.rules, pos, added);
    forall i | 0 <= i < |s.rules| && s.rules[i].mask == mask
      ensures !Agree(mask, s.rules[i].fields, added.fields) && !Agree(mask, added.fields, s.rules[i].fields)
    {
      HitIsDuplicate(mask, entry, action, flag, s.rules[i].fields, i);
    }
    assert added.mask == mask by { NewRuleMask(mask, entry, action, flag); }
    forall i, j | 0 <= i < j < |now| && now[i].mask == now[j].mask
      ensures !Agree(now[i].mask, now[i].fields, now[j].fields)
    {
      InsertedElement(s.rules, pos, added, i);
      InsertedElement(s.rules, pos, added, j);
    }
  }

  lemma InsertDuplicates(s: RuleTable, mask: MatchField, entry: Entry, action: ActionSet, flag: FlagWord, pos: nat,
                         i: nat)
    requires |s.rules| < NO_F_FLWS && pos <= |s.rules| && MarkerFree(mask)
    requires i < |s.rules| && s.rules[i].mask == mask && ScanHits(ByByte, mask, entry, s.rules[i].fields, i)
    ensures forall masks ::
              !NoDuplicates(RuleTable(InsertAt(s.rules, pos, NewRule(mask, entry, action, flag)), masks))
  {
    hide Agree, MarkerFree, NewRule, ScanHits, InsertAt;
    var added := NewRule(mask, entry, action, flag);
    var now := InsertAt(s.rules, pos, added);
    HitIsDuplicate(mask, entry, action, flag, s.rules[i].fields, i);
    NewRuleMask(mask, entry, action, flag);
    InsertedElement(s.rules, pos, added, pos);
    InsertedElement(s.rules, pos, added, if i < pos then i else i + 1);
    forall masks
      ensures !NoDuplicates(RuleTable(now, masks))
    {
      var s' := RuleTable(now, masks);
      var q := if i < pos then i else i + 1;
      assert s'.rules[pos] == added && s'.rules[q] == s.rules[i];
    }
  }

  lemma NewRuleMask(mask: MatchField, entry: Entry, action: ActionSet, flag: FlagWord)
    ensures NewRule(mask, entry, action, flag).mask == mask
  {
  }

  /** Read by byte, the scan hits a row exactly when it agrees with the new rule, either way round. */
  lemma HitIsDuplicate(mask: MatchField, entry: Entry, action: ActionSet, flag: FlagWord, row: MatchField, i: nat)
    requires i < NO_F_FLWS && MarkerFree(mask)
    ensures var fields := NewRule(mask, entry, action, flag).fields;
            && Agree(mask, row, fields) == ScanHits(ByByte, mask, entry, row, i)
            && Agree(mask, fields, row) == ScanHits(ByByte, mask, entry, row, i)
  {
    hide Agree, MarkerFree, WithMarker, ScanHits;
    ByByteIsAgree(mask, entry, row, i);
    AgreeOnFirst(mask, entry, row);
    MarkerUnseen(mask, entry[..MTCH_FLD_LEN], row, false);
    AgreeSymmetric(mask, NewRule(mask, entry, action, flag).fields, row);
  }

  lemma StepKeepsNoDuplicates(v: Line221, s: RuleTable, op: Op)
    requires NoDuplicates(s) && Legal(s, op)
    ensures NoDuplicates(StepR(v, s, op).0) <==> Caught(v, s, op)
  {
    hide Agree, Lookup, EditedTo, Value, Fields.ByteOf, OrFlags, Selected, EnoughValues, AddIsSafe;
    match op
    case Add(mask, entry, action, flag) => AddKeepsNoDuplicates(v, s, mask, entry, action, flag);
    case Delete(pkt) =>
      var p := Lookup(s, pkt);
      assert forall i :: 0 <= i < |s.rules| - 1 ==> RemoveAt(s.rules, p)[i] == s.rules[if i < p then i else i + 1];
    case Modify(pkt, flag, values) =>
    case Search(pkt) =>
  }

  /** No state of the run holds two rules that agree under their common mask. */
  ghost predicate NeverDuplicates(v: Line221, s: RuleTable, ops: seq<Op>)
    requires LegalRun(v, s, ops)
    decreases |ops|
  {
    NoDuplicates(s) && (|ops| > 0 ==> NeverDuplicates(v, StepR(v, s, ops[0]).0, ops[1..]))
  }

  ghost predicate AllCaught(v: Line221, s: RuleTable, ops: seq<Op>)
    requires LegalRun(v, s, ops)
    decreases |ops|
  {
    |ops| > 0 ==> Caught(v, s, ops[0]) && AllCaught(v, StepR(v, s, ops[0]).0, ops[1..])
  }

  /**
   A legal run never holds two rules that agree under their common mask exactly when the
   scan catches every duplicate on the way; read by byte, it always does.
   */
  lemma {:induction false} RunKeepsNoDuplicates(v: Line221, s: RuleTable, ops: seq<Op>)
    requires NoDuplicates(s) && LegalRun(v, s, ops)
    ensures NeverDuplicates(v, s, ops) <==> AllCaught(v, s, ops)
    ensures v == ByByte ==> NeverDuplicates(v, s, ops)
    decreases |ops|
  {
    hide NoDuplicates, StepR, Legal, Caught;
    if |ops| > 0 {
      StepKeepsNoDuplicates(v, s, ops[0]);
      var s1 := StepR(v, s, ops[0]).0;
      if NoDuplicates(s1) {
        RunKeepsNoDuplicates(v, s1, ops[1..]);
      }
      ByByteCatches(s, ops[0]);
    }
  }

  lemma ByByteCatches(s: RuleTable, op: Op)
    ensures Caught(ByByte, s, op)
  {
  }

  // ---- the scan as written ----

  /**
   As written, the scan compares one byte of the new entry, chosen by the row, with all
   bytes of that row. This says that the byte it uses for row `r` agrees, under the mask,
   with every byte of the entry.
   */
  predicate RowByteAgrees(mask: MatchField, entry: Entry, r: nat)
    requires r < NO_F_FLWS
  {
    Agree(mask, Compared(ByRow, entry, r), Compared(ByByte, entry, r))
  }

  predicate ScanFits(s: RuleTable, mask: MatchField, entry: Entry) {
    forall i :: 0 <= i < |s.rules| && i < NO_F_FLWS && s.rules[i].mask == mask ==> RowByteAgrees(mask, entry, i)
  }

  predicate SameGroups(s: RuleTable, s': RuleTable) {
    && s'.masks == s.masks && |s'.rules| == |s.rules|
    && forall i :: 0 <= i < |s.rules| ==> s'.rules[i].mask == s.rules[i].mask
  }

  /**
   An add as written gives, whatever the rules of its group hold, the same answer and
   the same table as one read by byte, exactly when the bytes used for the rows of
   the group agree with all bytes of the entry under the mask.
   */
  lemma ScanAsWrittenIsRightExactly(s: RuleTable, mask: MatchField, entry: Entry, action: ActionSet, flag: FlagWord)
    requires |s.rules| < NO_F_FLWS
    ensures (forall s' :: SameGroups(s, s') ==>
               AddR(ByRow, s', mask, entry, action, flag) == AddR(ByByte, s', mask, entry, action, flag))
            <==> ScanFits(s, mask, entry)
  {
    hide RowByteAgrees, ScanHits, AfterLast, InsertAt, NewRule;
    if ScanFits(s, mask, entry) {
      forall s' | SameGroups(s, s')
        ensures AddR(ByRow, s', mask, entry, action, flag) == AddR(ByByte, s', mask, entry, action, flag)
      {
        FittingScan(s', mask, entry);
      }
    } else {
      var r :| 0 <= r < |s.rules| && s.rules[r].mask == mask && !RowByteAgrees(mask, entry, r);
      MissedAt(s, mask, entry, r);
      var s' := Missing(s, entry, r);
      assert SameGroups(s, s');
      assert AddR(ByRow, s', mask, entry, action, flag).1 >= 0;
      assert AddR(ByByte, s', mask, entry, action, flag).1 == RDNDNT;
    }
  }

  lemma FittingScan(s: RuleTable, mask: MatchField, entry: Entry)
    requires ScanFits(s, mask, entry)
    ensures TakenForDuplicate(ByRow, s.rules, mask, entry) == TakenForDuplicate(ByByte, s.rules, mask, entry)
  {
    hide ScanHits, RowByteAgrees;
    forall i | 0 <= i < |s.rules| && i < NO_F_FLWS && s.rules[i].mask == mask
      ensures ScanHits(ByRow, mask, entry, s.rules[i].fields, i) == ScanHits(ByByte, mask, entry, s.rules[i].fields, i)
    {
      FittingRow(mask, entry, s.rules[i].fields, i);
    }
  }

  lemma FittingRow(mask: MatchField, entry: Entry, row: MatchField, r: nat)
    requires r < NO_F_FLWS && RowByteAgrees(mask, entry, r)
    ensures ScanHits(ByRow, mask, entry, row, r) == ScanHits(ByByte, mask, entry, row, r)
  {
    hide Agree;
    AgreeTransfers(mask, Compared(ByRow, entry, r), Compared(ByByte, entry, r), row);
  }

  /** A table of the same groups: an exact duplicate in row `r`, and elsewhere nothing that the scan hits. */
  function Missing(s: RuleTable, entry: Entry, r: nat): (s': RuleTable)
    requires r < |s.rules| < NO_F_FLWS
  {
    s.(rules := seq(|s.rules|, i requires 0 <= i < |s.rules| =>
      s.rules[i].(fields := if i == r then entry[..MTCH_FLD_LEN] else Flipped(Compared(ByRow, entry, i)))))
  }

  function Flipped(a: MatchField): MatchField {
    seq(MTCH_FLD_LEN, l requires 0 <= l < MTCH_FLD_LEN => !a[l])
  }

  /** If the bytes do not agree at row `r`, a duplicate that stands there is missed. */
  lemma MissedAt(s: RuleTable, mask: MatchField, entry: Entry, r: nat)
    requires r < |s.rules| < NO_F_FLWS && s.rules[r].mask == mask && !RowByteAgrees(mask, entry, r)
    ensures var s' := Missing(s, entry, r);
            && TakenForDuplicate(ByByte, s'.rules, mask, entry) && !TakenForDuplicate(ByRow, s'.rules, mask, entry)
  {
    hide Agree;
    var s' := Missing(s, entry, r);
    assert Compared(ByByte, entry, r) == entry[..MTCH_FLD_LEN];
    AgreeReflexive(mask, entry[..MTCH_FLD_LEN]);
    assert ScanHits(ByByte, mask, entry, s'.rules[r].fields, r);
    forall i | 0 <= i < |s.rules|
      ensures !ScanHits(ByRow, mask, entry, s'.rules[i].fields, i)
    {
      if i != r {
        FlippedDiffers(mask, Compared(ByRow, entry, r), Compared(ByByte, entry, r), Compared(ByRow, entry, i));
      }
    }
  }

  lemma FlippedDiffers(mask: MatchField, a: MatchField, b: MatchField, c: MatchField)
    requires !Agree(mask, a, b)
    ensures !Agree(mask, c, Flipped(c))
  {
    hide BitOf;
    var l :| 0 <= l < MTCH_FLD_LEN && !AgreeByte(mask[l], a[l], b[l]);
    var j :| 0 <= j < 8 && BitOf(mask[l], j) && BitOf(a[l], j) != BitOf(b[l], j);
    FlippedBit(c[l], j);
    assert !AgreeByte(mask[l], c[l], Flipped(c)[l]);
  }

  lemma FlippedBit(b: byte, j: nat)
    requires j < 8
    ensures BitOf(!b, j) == !BitOf(b, j)
  {
    FlagValues();
  }

  ghost predicate FittingRun(s: RuleTable, ops: seq<Op>)
    requires LegalRun(ByRow, s, ops)
    decreases |ops|
  {
    |ops| > 0 ==>
      && (ops[0].Add? ==> ScanFits(s, ops[0].mask, ops[0].entry))
      && FittingRun(StepR(ByRow, s, ops[0]).0, ops[1..])
  }

  /** A run whose adds meet that condition is, as written, the run that is meant, and free of duplicates. */
  lemma {:induction false} FittingRunIsMeant(s: RuleTable, ops: seq<Op>)
    requires LegalRun(ByRow, s, ops) && FittingRun(s, ops)
    ensures LegalRun(ByByte, s, ops) && RunR(ByRow, s, ops) == RunR(ByByte, s, ops)
    ensures NoDuplicates(s) ==> NeverDuplicates(ByRow, s, ops)
    decreases |ops|
  {
    hide NoDuplicates, Legal, AddR, DeleteR, ModifyR, ScanFits, Lookup, Caught;
    if |ops| > 0 {
      var s1 := StepR(ByRow, s, ops[0]).0;
      FittingStep(s, ops[0]);
      FittingRunIsMeant(s1, ops[1..]);
      if NoDuplicates(s) {
        StepKeepsNoDuplicates(ByRow, s, ops[0]);
      }
    }
  }

  lemma FittingStep(s: RuleTable, op: Op)
    requires Legal(s, op) && (op.Add? ==> ScanFits(s, op.mask, op.entry))
    ensures StepR(ByRow, s, op) == StepR(ByByte, s, op) && Caught(ByRow, s, op)
  {
    hide ScanFits, TakenForDuplicate, AfterLast, InsertAt, NewRule, Lookup, ModifiedRule, RemoveR;
    if op.Add? {
      FittingScan(s, op.mask, op.entry);
    }
  }

  lemma AgreeTransfers(mask: MatchField, a: MatchField, b: MatchField, c: MatchField)
    requires Agree(mask, a, b)
    ensures Agree(mask, a, c) == Agree(mask, b, c)
  {
    hide BitOf;
    forall l | 0 <= l < MTCH_FLD_LEN
      ensures AgreeByte(mask[l], a[l], c[l]) == AgreeByte(mask[l], b[l], c[l])
    {
      assert AgreeByte(mask[l], a[l], b[l]);
    }
  }
}
