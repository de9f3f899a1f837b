/**
 Runs from an empty table into the states in which an add works outside the
 tables, or every search fails.
 */
module BrokenTables {
  import opened Lists
  import opened MaskGroups
  import opened Matching
  import opened Priority
  import opened FlowModel
  import opened RuleList
  import opened Refinement
  import opened Duplicates
  import opened TableTheorems
  import opened FailingRuns

  // ---- a mask that is stored and not found ----

  /**
   A rule is added and deleted, and a second one is added under another mask. That mask is stored
   now, but the code finds no group for it: the next add under it begins its scan at row STR_ERR.
   */
  lemma StoredMaskIsNotFound(v: Line221, t: Table, m1: MatchField, e1: Entry, m2: MatchField, e2: Entry,
                             action: ActionSet, flag: FlagWord, pkt: MatchField)
    requires Shaped(t) && t.tail == 0 && t.maskTail == 0
    requires CleanMask(m1) && CleanMask(m2) && m1 != m2 && Agree(m1, pkt, e1)
    ensures var ops := [Add(m1, e1, action, flag), Delete(pkt), Add(m2, e2, action, flag)];
            && CanRun(v, t, ops)
            && var (t', rs) := RunT(v, t, ops);
               && rs == [0, 0, 0] && Shaped(t') && m2 in LiveMasks(t')
               && Locate(Marks(t'), IndexOf(LiveMasks(t'), m2)) == STR_ERR && !MaskRoom(t', m2)
  {
    hide CleanMask, Agree, StepT, CanStep, CanRun, RunT, Abs, TableInv, AddT, LegalRun, RunR, Locate;
    var a, b := Add(m1, e1, action, flag), Add(m2, e2, action, flag);
    EmptyTable(t);
    OnlyRuleDeleted(v, m1, e1, action, flag, pkt);
    RunRefines(v, t, [a, Delete(pkt)]);
    var t2 := RunT(v, t, [a, Delete(pkt)]).0;
    AddToEmptied(v, t2, m1, m2, e2, action, flag);
    assert CanStep(t2, b) && StepT(v, t2, b) == AddT(v, t2, m2, e2, action, flag) by { StepIsAddT(v, t2, b); }
    RunThen(v, t, [a, Delete(pkt)], b);
    assert [a, Delete(pkt)] + [b] == [a, Delete(pkt), b] && [0, 0] + [0] == [0, 0, 0];
  }

  /** Bytes for which this happens. */
  lemma StoredMaskIsNotFoundOfBytes(v: Line221, t: Table, action: ActionSet, flag: FlagWord)
    requires Shaped(t) && t.tail == 0 && t.maskTail == 0
    ensures var ops := [Add(ByteMask(1), EntryOf(ByteField(1, 1), 0), action, flag),
                        Delete(ByteField(1, 1)),
                        Add(ByteMask(2), EntryOf(ByteField(2, 1), 0), action, flag)];
            && CanRun(v, t, ops)
            && var (t', rs) := RunT(v, t, ops);
               && rs == [0, 0, 0] && Shaped(t') && ByteMask(2) in LiveMasks(t') && !MaskRoom(t', ByteMask(2))
  {
    hide CanRun, RunT, CleanMask, Agree, MaskRoom;
    var e1, e2 := EntryOf(ByteField(1, 1), 0), EntryOf(ByteField(2, 1), 0);
    OneByteIsClean(1);
    OneByteIsClean(2);
    ByteMasksDiffer(1, 2);
    OneByteAgree(1, ByteField(1, 1), e1);
    StoredMaskIsNotFound(v, t, ByteMask(1), e1, ByteMask(2), e2, action, flag, ByteField(1, 1));
  }

  lemma OnlyRuleDeleted(v: Line221, mask: MatchField, entry: Entry, action: ActionSet, flag: FlagWord, pkt: MatchField)
    requires CleanMask(mask) && Agree(mask, pkt, entry)
    ensures var ops := [Add(mask, entry, action, flag), Delete(pkt)];
            && LegalRun(v, EMPTY, ops)
            && RunR(v, EMPTY, ops) == (RuleTable([], [mask]), [0, 0])
  {
    hide CleanMask, Agree, LegalRun, RunR, NewRule, RuleMatches;
    var a, rule := Add(mask, entry, action, flag), NewRule(mask, entry, action, flag);
    OneAdd(v, mask, entry, action, flag);
    NewRuleMatches(mask, entry, action, flag, pkt);
    NewRuleMask(mask, entry, action, flag);
    LookupOne(rule, mask, pkt);
    var s := RuleTable([rule], [mask]);
    assert RemoveAt(s.rules, 0) == [] && s.rules[0].mask == mask && s.masks[0] == mask;
    LegalThen(v, EMPTY, [a], Delete(pkt));
    assert [a] + [Delete(pkt)] == [a, Delete(pkt)] && [0] + [0] == [0, 0];
  }

  lemma AddToEmptied(v: Line221, t: Table, m1: MatchField, m2: MatchField, entry: Entry, action: ActionSet,
                     flag: FlagWord)
    requires TableInv(t) && Sound(t, t.tail) && Abs(t) == RuleTable([], [m1]) && m1 != m2 && CleanMask(m2)
    ensures MaskRoom(t, m2)
    ensures var (t', r) := AddT(v, t, m2, entry, action, flag);
            && r == 0 && Shaped(t') && m2 in LiveMasks(t')
            && Locate(Marks(t'), IndexOf(LiveMasks(t'), m2)) == STR_ERR && !MaskRoom(t', m2)
  {
    hide TableInv, WithMarker, Marked, Normalised, ScanHits, Locate;
    var live := LiveMasks(t);
    assert |Rules(t)| == 0 && live == [m1] && |live| == 1;
    CleanIsMarkerFree(m2);
    MarkerWritten(Stored(entry), false);
    var t' := AddT(v, t, m2, entry, action, flag).0;
    assert Marks(t') == [false];
    assert LiveMasks(t') == [m1, m2];
    AddLeavesTheTables(t', m2);
    OneIndex(Marks(t'));
    LocateMarkerSpec(Marks(t'), 1);
    assert Locate(Marks(t'), 1) == LocateMarker(Marks(t'), 1);
  }

  // ---- a row without a mask ----

  /**
   Two rules under two masks are added and deleted, and a rule is added under the first mask. The row that
   comes back to life carries the marker of the second mask, which is gone: it has no mask, and every search
   of this table stops there with STR_ERR.
   */
  lemma EverySearchFails(v: Line221, t: Table, m1: MatchField, e1: Entry, m2: MatchField, e2: Entry, e3: Entry,
                         action: ActionSet, flag: FlagWord, p1: MatchField, p2: MatchField)
    requires Shaped(t) && t.tail == 0 && t.maskTail == 0
    requires CleanMask(m1) && CleanMask(m2) && m1 != m2
    requires Agree(m1, p1, e1) && !Agree(m2, p1, e2) && Agree(m2, p2, e2)
    requires !ScanHits(v, m1, e3, NewRule(m2, e2, action, flag).fields, 0)
    ensures var ops := [Add(m1, e1, action, flag), Add(m2, e2, action, flag), Delete(p1), Delete(p2),
                        Add(m1, e3, action, flag)];
            && CanRun(v, t, ops)
            && var (t', rs) := RunT(v, t, ops);
               rs == [0, 1, 0, 0, 1] && Shaped(t') && t'.tail == 1 && !Sound(t', t'.tail)
  {
    hide CleanMask, Agree, StepT, CanStep, CanRun, RunT, Abs, TableInv, AddT, LegalRun, RunR, NewRule, ScanHits,
      RuleMatches, RemovedT, SearchT;
    var a, b, c := Add(m1, e1, action, flag), Add(m2, e2, action, flag), Add(m1, e3, action, flag);
    var r2 := NewRule(m2, e2, action, flag);
    EmptyTable(t);
    FirstOfTwoDeleted(v, m1, e1, m2, e2, action, flag, p1);
    RunRefines(v, t, [a, b, Delete(p1)]);
    var t3 := RunT(v, t, [a, b, Delete(p1)]).0;
    NewRuleMatches(m2, e2, action, flag, p2);
    LookupSole(r2, [m1, m2], p2);
    SearchRefines(t3, p2);
    var t3' := SearchT(t3, p2).0;
    AbsLength(t3');
    assert CanStep(t3, Delete(p2)) && StepT(v, t3, Delete(p2)) == (RemovedT(t3', 0), 0) by { StepIsDeleteT(v, t3, p2); }
    RunThen(v, t, [a, b, Delete(p1)], Delete(p2));
    NewRuleMask(m2, e2, action, flag);
    RevivedWithoutMask(v, t3', r2, m1, m2, e3, action, flag);
    var e := RemovedT(t3', 0);
    assert CanStep(e, c) && StepT(v, e, c) == AddT(v, e, m1, e3, action, flag) by { StepIsAddT(v, e, c); }
    RunThen(v, t, [a, b, Delete(p1)] + [Delete(p2)], c);
    assert [a, b, Delete(p1)] + [Delete(p2)] + [c] == [a, b, Delete(p1), Delete(p2), c];
    assert [0, 1, 0] + [0] + [1] == [0, 1, 0, 0, 1];
  }

  lemma LookupSole(rule: Rule, masks: seq<MatchField>, pkt: MatchField)
    ensures Lookup(RuleTable([rule], masks), pkt) == if RuleMatches(rule, pkt) then 0 else NO_MATCH
  {
    hide RuleMatches;
  }

  lemma RevivedWithoutMask(v: Line221, t: Table, rule: Rule, m1: MatchField, m2: MatchField, entry: Entry,
                           action: ActionSet, flag: FlagWord)
    requires TableInv(t) && Sound(t, t.tail) && Abs(t) == RuleTable([rule], [m1, m2])
    requires CleanMask(m1) && !ScanHits(v, m1, entry, rule.fields, 0)
    ensures var e := RemovedT(t, 0);
            && TableInv(e) && Sound(e, e.tail) && MaskRoom(e, m1)
            && var (t', r) := AddT(v, e, m1, entry, action, flag);
               r == 1 && Shaped(t') && t'.tail == 1 && !Sound(t', t'.tail)
  {
    hide TableInv, ScanHits, RemovedT, RuleAt, Marked, AddT, Sound, Rules;
    AbsLength(t);
    TableInvIsGroupInv(t);
    RemoveRefines(t, 0);
    var e := RemovedT(t, 0);
    EmptiedTails(t);
    EmptiedRow(t);
    SecondMaskIsMarked(t, rule, m1, m2);
    CleanIsMarkerFree(m1);
    ScanIgnoresMarker(v, t, m1, entry, 0);
    TableInvIsGroupInv(e);
    assert LiveMasks(e) == [m1];
    AddToLeftoverMask(v, e, m1, entry, action, flag);
    AddToEmptiedIsSoundExactly(v, e, m1, entry, action, flag);
  }

  lemma SecondMaskIsMarked(t: Table, rule: Rule, m1: MatchField, m2: MatchField)
    requires TableInv(t) && Sound(t, t.tail) && Abs(t) == RuleTable([rule], [m1, m2])
    ensures Rules(t)[0] == rule && t.masks[0] == m1 && Marked(t.rows[0])
  {
    hide Index, RuleAt, Marked, Normalised, Count;
    assert |Rules(t)| == 1 && |LiveMasks(t)| == 2 && LiveMasks(t)[0] == m1;
    CountFull(Marks(t));
    assert Marked(t.rows[0]) == Marks(t)[0];
  }

  /** In an emptied table the scan for the left-over mask looks at row 0 and no other. */
  lemma AddToLeftoverMask(v: Line221, t: Table, mask: MatchField, entry: Entry, action: ActionSet, flag: FlagWord)
    requires GroupInv(t) && t.tail == 0 && LiveMasks(t) == [mask]
    ensures MaskRoom(t, mask)
    ensures AddT(v, t, mask, entry, action, flag).1
            == if ScanHits(v, mask, entry, t.rows[0], 0) then RDNDNT else 1
  {
    hide ScanHits, WithMarker, Normalised, Count;
    assert IndexOf(LiveMasks(t), mask) == 0;
  }

  /** Bytes for which this happens, with either reading of the scan. */
  lemma EverySearchFailsOfBytes(v: Line221, t: Table, action: ActionSet, flag: FlagWord)
    requires Shaped(t) && t.tail == 0 && t.maskTail == 0
    ensures var e3 := EntryOf(seq(MTCH_FLD_LEN, _ => 2), 0);
            var ops := [Add(ByteMask(1), EntryOf(ByteField(1, 1), 0), action, flag),
                        Add(ByteMask(2), EntryOf(ByteField(2, 1), 0), action, flag),
                        Delete(ByteField(1, 1)), Delete(ByteField(2, 1)),
                        Add(ByteMask(1), e3, action, flag)];
            && CanRun(v, t, ops)
            && var (t', rs) := RunT(v, t, ops);
               rs == [0, 1, 0, 0, 1] && Shaped(t') && t'.tail == 1 && !Sound(t', t'.tail)
  {
    hide CanRun, RunT, CleanMask, Agree, Sound;
    var e1, e2, e3 := EntryOf(ByteField(1, 1), 0), EntryOf(ByteField(2, 1), 0), EntryOf(seq(MTCH_FLD_LEN, _ => 2), 0);
    OneByteIsClean(1);
    OneByteIsClean(2);
    ByteMasksDiffer(1, 2);
    OneByteAgree(1, ByteField(1, 1), e1);
    OneByteAgree(2, ByteField(1, 1), e2);
    OneByteAgree(2, ByteField(2, 1), e2);
    var row := NewRule(ByteMask(2), e2, action, flag).fields;
    assert row[1] == 0 && Compared(v, e3, 0)[1] == 2;
    OneByteAgree(1, Compared(v, e3, 0), row);
    EverySearchFails(v, t, ByteMask(1), e1, ByteMask(2), e2, e3, action, flag, ByteField(1, 1), ByteField(2, 1));
  }

  // ---- a full mask table with a row free ----

  /** `n` adds, each under a mask of its own. */
  function ManyAdds(n: nat, action: ActionSet, flag: FlagWord): seq<Op> {
    seq(n, i requires 0 <= i < n => Add(ByteMask(i), EntryOf(ByteField(i, 1), 0), action, flag))
  }

  function ManyRules(n: nat, action: ActionSet, flag: FlagWord): RuleTable {
    RuleTable(seq(n, i requires 0 <= i < n => NewRule(ByteMask(i), EntryOf(ByteField(i, 1), 0), action, flag)),
              seq(n, i requires 0 <= i < n => ByteMask(i)))
  }

  function Numbers(n: nat): seq<int> {
    seq(n, i requires 0 <= i < n => i)
  }

  lemma {:induction false} ManyAddsRun(v: Line221, n: nat, action: ActionSet, flag: FlagWord)
    requires n <= NO_F_FLWS
    ensures LegalRun(v, EMPTY, ManyAdds(n, action, flag))
    ensures RunR(v, EMPTY, ManyAdds(n, action, flag)) == (ManyRules(n, action, flag), Numbers(n))
  {
    hide LegalRun, RunR, Legal, StepR;
    if n == 0 {
      assert LegalRun(v, EMPTY, []) && RunR(v, EMPTY, []) == (EMPTY, []) by { NoLegalRun(v, EMPTY); }
      assert ManyAdds(0, action, flag) == [] && ManyRules(0, action, flag) == EMPTY && Numbers(0) == [];
    } else {
      var k := n - 1;
      var op := Add(ByteMask(k), EntryOf(ByteField(k, 1), 0), action, flag);
      ManyAddsRun(v, k, action, flag);
      OneMoreAdd(v, k, action, flag);
      LegalThen(v, EMPTY, ManyAdds(k, action, flag), op);
      assert ManyAdds(n, action, flag) == ManyAdds(k, action, flag) + [op];
      assert Numbers(n) == Numbers(k) + [k];
    }
  }

  lemma NoLegalRun(v: Line221, s: RuleTable)
    ensures LegalRun(v, s, []) && RunR(v, s, []) == (s, [])
  {
  }

  lemma OneMoreAdd(v: Line221, k: nat, action: ActionSet, flag: FlagWord)
    requires k < NO_F_FLWS
    ensures var op := Add(ByteMask(k), EntryOf(ByteField(k, 1), 0), action, flag);
            && Legal(ManyRules(k, action, flag), op)
            && StepR(v, ManyRules(k, action, flag), op) == (ManyRules(k + 1, action, flag), k)
  {
    hide CleanMask, ScanHits, ByteMask;
    var s, s' := ManyRules(k, action, flag), ManyRules(k + 1, action, flag);
    OneByteIsClean(k);
    forall i | 0 <= i < k
      ensures s.rules[i].mask != ByteMask(k) && s.masks[i] != ByteMask(k)
    {
      ByteMasksDiffer(i, k);
    }
    assert s'.masks == s.masks + [ByteMask(k)];
    assert s'.rules == InsertAt(s.rules, k, s'.rules[k]);
  }

  /** Twenty rules, and a twenty-first is answered with -3. */
  lemma TwentyOneAdds(v: Line221, mask: MatchField, entry: Entry, action: ActionSet, flag: FlagWord)
    ensures var ops := ManyAdds(20, action, flag) + [Add(mask, entry, action, flag)];
            LegalRun(v, EMPTY, ops) && RunR(v, EMPTY, ops).1 == Numbers(20) + [-3]
  {
    hide LegalRun, RunR, ManyAdds, Numbers, AddIsSafe;
    ManyAddsRun(v, 20, action, flag);
    LegalThen(v, EMPTY, ManyAdds(20, action, flag), Add(mask, entry, action, flag));
  }

  /**
   Twenty rules under twenty masks, of which the first is deleted. Its mask stays, and so the mask table is
   full while the flow table is not: an add under any mask that is not stored writes outside it.
   */
  lemma MaskTableOverflows(v: Line221, t: Table, action: ActionSet, flag: FlagWord)
    requires Shaped(t) && t.tail == 0 && t.maskTail == 0
    ensures var ops := ManyAdds(NO_F_FLWS, action, flag) + [Delete(ByteField(0, 1))];
            && CanRun(v, t, ops)
            && var (t', rs) := RunT(v, t, ops);
               && rs == Numbers(NO_F_FLWS) + [0] && Shaped(t')
               && t'.tail == NO_F_FLWS - 1 && t'.maskTail == NO_F_FLWS
               && forall mask :: mask !in LiveMasks(t') ==> !MaskRoom(t', mask)
  {
    hide LegalRun, RunR, Legal, StepR, CanRun, RunT, ManyAdds, TableInv, Rules, MaskRoom;
    var pkt := ByteField(0, 1);
    var s := ManyRules(NO_F_FLWS, action, flag);
    EmptyTable(t);
    ManyAddsRun(v, NO_F_FLWS, action, flag);
    DeleteFirstOfMany(v, action, flag);
    LegalThen(v, EMPTY, ManyAdds(NO_F_FLWS, action, flag), Delete(pkt));
    RunRefines(v, t, ManyAdds(NO_F_FLWS, action, flag) + [Delete(pkt)]);
    var t' := RunT(v, t, ManyAdds(NO_F_FLWS, action, flag) + [Delete(pkt)]).0;
    AbsLength(t');
    assert |LiveMasks(t')| == NO_F_FLWS;
    forall mask | mask !in LiveMasks(t')
      ensures !MaskRoom(t', mask)
    {
      AddLeavesTheTables(t', mask);
    }
  }

  lemma DeleteFirstOfMany(v: Line221, action: ActionSet, flag: FlagWord)
    ensures var s := ManyRules(NO_F_FLWS, action, flag);
            && Legal(s, Delete(ByteField(0, 1)))
            && var (s', r) := StepR(v, s, Delete(ByteField(0, 1)));
               r == 0 && |s'.rules| == NO_F_FLWS - 1 && s'.masks == s.masks
  {
    hide RuleMatches, ByteMask, ByteField, NewRule, Best;
    var s, pkt := ManyRules(NO_F_FLWS, action, flag), ByteField(0, 1);
    forall i | 0 <= i < NO_F_FLWS
      ensures RuleMatches(s.rules[i], pkt) <==> i == 0
    {
      MatchesOneOfMany(i, action, flag);
    }
    BestWins(RuleCandidates(s.rules, pkt));
    assert RuleCandidates(s.rules, pkt)[0].hit;
    assert s.rules[0].mask == ByteMask(0) == s.masks[0] by {
      NewRuleMask(ByteMask(0), EntryOf(ByteField(0, 1), 0), action, flag);
    }
  }

  lemma MatchesOneOfMany(i: nat, action: ActionSet, flag: FlagWord)
    requires i < NO_F_FLWS
    ensures RuleMatches(NewRule(ByteMask(i), EntryOf(ByteField(i, 1), 0), action, flag), ByteField(0, 1)) <==> i == 0
  {
    hide Agree, CleanMask;
    OneByteIsClean(i);
    NewRuleMatches(ByteMask(i), EntryOf(ByteField(i, 1), 0), action, flag, ByteField(0, 1));
    OneByteAgree(i, ByteField(0, 1), EntryOf(ByteField(i, 1), 0));
  }
}
