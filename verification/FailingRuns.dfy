/**
 Runs from an empty table that end in the failing states of Duplicates,
 TableTheorems and CacheModel: each condition stated there is needed.
 */
module FailingRuns {
  import opened Bytes
  import opened Lists
  import opened MaskGroups
  import opened Matching
  import opened Priority
  import opened FlowModel
  import opened RuleList
  import opened Refinement
  import opened Duplicates
  import opened TableTheorems
  import opened CacheModel

  // ---- runs, one more step at a time ----

  lemma {:induction false} LegalThen(v: Line221, s: RuleTable, ops: seq<Op>, op: Op)
    requires LegalRun(v, s, ops) && Legal(RunR(v, s, ops).0, op)
    ensures LegalRun(v, s, ops + [op])
    ensures RunR(v, s, ops + [op])
            == (StepR(v, RunR(v, s, ops).0, op).0, RunR(v, s, ops).1 + [StepR(v, RunR(v, s, ops).0, op).1])
    decreases |ops|
  {
    hide Legal, StepR;
    if |ops| == 0 {
      assert ops + [op] == [op] && [op][1..] == [];
      assert LegalRun(v, StepR(v, s, op).0, []);
      assert [StepR(v, s, op).1] + [] == [] + [StepR(v, s, op).1];
    } else {
      assert (ops + [op])[1..] == ops[1..] + [op];
      var (s1, r) := StepR(v, s, ops[0]);
      LegalThen(v, s1, ops[1..], op);
      var (s2, rs) := RunR(v, s1, ops[1..]);
      assert [r] + (rs + [StepR(v, s2, op).1]) == [r] + rs + [StepR(v, s2, op).1];
    }
  }

  lemma {:induction false} RunThen(v: Line221, t: Table, ops: seq<Op>, op: Op)
    requires CanRun(v, t, ops) && CanStep(RunT(v, t, ops).0, op)
    ensures CanRun(v, t, ops + [op])
    ensures RunT(v, t, ops + [op])
            == (StepT(v, RunT(v, t, ops).0, op).0, RunT(v, t, ops).1 + [StepT(v, RunT(v, t, ops).0, op).1])
    decreases |ops|
  {
    hide CanStep, StepT;
    if |ops| == 0 {
      assert ops + [op] == [op] && [op][1..] == [];
      assert CanRun(v, StepT(v, t, op).0, []);
      assert [StepT(v, t, op).1] + [] == [] + [StepT(v, t, op).1];
    } else {
      assert (ops + [op])[1..] == ops[1..] + [op];
      var (t1, r) := StepT(v, t, ops[0]);
      RunThen(v, t1, ops[1..], op);
      var (t2, rs) := RunT(v, t1, ops[1..]);
      assert [r] + (rs + [StepT(v, t2, op).1]) == [r] + rs + [StepT(v, t2, op).1];
    }
  }

  lemma StepIsAddT(v: Line221, t: Table, op: Op)
    requires op.Add? && TableInv(t) && Sound(t, t.tail) && MaskRoom(t, op.mask)
    ensures CanStep(t, op) && StepT(v, t, op) == AddT(v, t, op.mask, op.entry, op.action, op.flag)
  {
  }

  lemma StepIsDeleteT(v: Line221, t: Table, pkt: MatchField)
    requires TableInv(t) && Sound(t, t.tail) && SearchT(t, pkt).1 >= 0
    ensures CanStep(t, Delete(pkt)) && StepT(v, t, Delete(pkt)) == DeleteT(t, pkt)
  {
  }

  // ---- masks, match fields and rules of one byte ----

  /** The mask that selects byte `i`. */
  function ByteMask(i: nat): MatchField {
    seq(MTCH_FLD_LEN, l => if l == i then 255 else 0)
  }

  /** 0 everywhere but `x` in byte `i`. */
  function ByteField(i: nat, x: byte): MatchField {
    seq(MTCH_FLD_LEN, l => if l == i then x else 0)
  }

  function EntryOf(fields: MatchField, priority: byte): Entry {
    fields + [priority]
  }

  lemma OneByteAgree(i: nat, a: seq<byte>, b: seq<byte>)
    requires i < MTCH_FLD_LEN && |a| >= MTCH_FLD_LEN && |b| >= MTCH_FLD_LEN
    ensures Agree(ByteMask(i), a, b) <==> a[i] == b[i]
  {
    FlagValues();
    hide Flag;
    assert forall j :: 0 <= j < 8 ==> BitOf(255, j) && !BitOf(0, j);
    if AgreeByte(255, a[i], b[i]) {
      ByteExtensionality(a[i], b[i]);
    }
    assert Agree(ByteMask(i), a, b) ==> AgreeByte(ByteMask(i)[i], a[i], b[i]);
  }

  lemma OneByteIsClean(i: nat)
    requires i < 44
    ensures CleanMask(ByteMask(i))
  {
    FlagValues();
    assert ByteMask(i)[44] == 0;
  }

  lemma ByteMasksDiffer(i: nat, j: nat)
    requires i < MTCH_FLD_LEN && j < MTCH_FLD_LEN && i != j
    ensures ByteMask(i) != ByteMask(j)
  {
    assert ByteMask(i)[i] == 255 && ByteMask(j)[i] == 0;
  }

  // ---- the first rules of a table ----

  lemma OneAdd(v: Line221, mask: MatchField, entry: Entry, action: ActionSet, flag: FlagWord)
    requires CleanMask(mask)
    ensures var add := Add(mask, entry, action, flag);
            && LegalRun(v, EMPTY, [add])
            && RunR(v, EMPTY, [add]) == (RuleTable([NewRule(mask, entry, action, flag)], [mask]), [0])
  {
    hide CleanMask, ScanHits, NewRule;
    var add := Add(mask, entry, action, flag);
    assert [] + [add] == [add] && [] + [0] == [0];
    LegalThen(v, EMPTY, [], add);
    assert InsertAt([], 0, NewRule(mask, entry, action, flag)) == [NewRule(mask, entry, action, flag)];
    assert EMPTY.masks + [mask] == [mask];
  }

  /** A second rule under the same mask, which the scan lets pass. */
  lemma TwoAdds(v: Line221, mask: MatchField, e1: Entry, e2: Entry, action: ActionSet, flag: FlagWord)
    requires CleanMask(mask) && !ScanHits(v, mask, e2, NewRule(mask, e1, action, flag).fields, 0)
    ensures var a, b := Add(mask, e1, action, flag), Add(mask, e2, action, flag);
            && LegalRun(v, EMPTY, [a, b])
            && RunR(v, EMPTY, [a, b])
               == (RuleTable([NewRule(mask, e1, action, flag), NewRule(mask, e2, action, flag)], [mask]), [0, 1])
  {
    hide CleanMask, ScanHits, LegalRun, RunR;
    var a, b := Add(mask, e1, action, flag), Add(mask, e2, action, flag);
    var r1, r2 := NewRule(mask, e1, action, flag), NewRule(mask, e2, action, flag);
    var s := RuleTable([r1], [mask]);
    OneAdd(v, mask, e1, action, flag);
    assert s.rules[0] == r1 && r1.mask == mask;
    assert OwnsRule(s.rules, mask) && AfterLast(s.rules, mask) == 1;
    assert InsertAt(s.rules, 1, r2) == [r1, r2];
    LegalThen(v, EMPTY, [a], b);
    assert [a] + [b] == [a, b] && [0] + [1] == [0, 1];
  }

  /** A second rule under a second mask. */
  lemma TwoMasks(v: Line221, m1: MatchField, e1: Entry, m2: MatchField, e2: Entry, action: ActionSet, flag: FlagWord)
    requires CleanMask(m1) && CleanMask(m2) && m1 != m2
    ensures var a, b := Add(m1, e1, action, flag), Add(m2, e2, action, flag);
            && LegalRun(v, EMPTY, [a, b])
            && RunR(v, EMPTY, [a, b])
               == (RuleTable([NewRule(m1, e1, action, flag), NewRule(m2, e2, action, flag)], [m1, m2]), [0, 1])
  {
    hide CleanMask, ScanHits, LegalRun, RunR;
    var a, b := Add(m1, e1, action, flag), Add(m2, e2, action, flag);
    var r1, r2 := NewRule(m1, e1, action, flag), NewRule(m2, e2, action, flag);
    var s := RuleTable([r1], [m1]);
    OneAdd(v, m1, e1, action, flag);
    assert s.rules[0].mask == m1 && s.masks[0] == m1;
    assert InsertAt(s.rules, 1, r2) == [r1, r2] && s.masks + [m2] == [m1, m2];
    LegalThen(v, EMPTY, [a], b);
    assert [a] + [b] == [a, b] && [0] + [1] == [0, 1];
  }

  // ---- duplicates ----

  /** As written, the scan lets the same rule into an empty table twice. */
  lemma ScanAsWrittenAdmitsDuplicates(action: ActionSet, flag: FlagWord)
    ensures var add := Add(ByteMask(1), EntryOf(ByteField(1, 1), 0), action, flag);
            && LegalRun(ByRow, EMPTY, [add, add])
            && RunR(ByRow, EMPTY, [add, add]).1 == [0, 1]
            && !NoDuplicates(RunR(ByRow, EMPTY, [add, add]).0)
  {
    hide LegalRun, RunR, CleanMask, Agree, AddR;
    var mask, entry := ByteMask(1), EntryOf(ByteField(1, 1), 0);
    var rule := NewRule(mask, entry, action, flag);
    OneByteIsClean(1);
    assert Compared(ByRow, entry, 0)[1] == 0 && rule.fields[1] == 1;
    OneByteAgree(1, Compared(ByRow, entry, 0), rule.fields);
    TwoAdds(ByRow, mask, entry, entry, action, flag);
    AgreeReflexive(mask, rule.fields);
    var s := RunR(ByRow, EMPTY, [Add(mask, entry, action, flag), Add(mask, entry, action, flag)]).0;
    assert s.rules[0] == s.rules[1] == rule;
  }

  /**
   A mask that has a bit of 357..359 is stored without it, and when it is supplied once
   more it is not recognised: the same mask is stored twice and the same rule accepted twice.
   */
  lemma UncleanMaskIsStoredTwice(v: Line221, t: Table, mask: MatchField, entry: Entry, action: ActionSet,
                                 flag: FlagWord)
    requires Shaped(t) && t.tail == 0 && t.maskTail == 0 && Normalised(mask) != mask
    ensures var add := Add(mask, entry, action, flag);
            && CanRun(v, t, [add, add])
            && var (t', rs) := RunT(v, t, [add, add]);
               && rs == [0, 1] && Shaped(t')
               && LiveMasks(t') == [Normalised(mask), Normalised(mask)] && !Distinct(LiveMasks(t'))
  {
    hide CanRun, RunT, Normalised, WithMarker;
    var add := Add(mask, entry, action, flag);
    var t1 := AddT(v, t, mask, entry, action, flag).0;
    AddKeepsGroupInv(v, t, mask, entry, action, flag);
    GroupInvIsSound(t1);
    assert LiveMasks(t1) == [Normalised(mask)];
    var t2 := AddT(v, t1, mask, entry, action, flag).0;
    assert LiveMasks(t2) == [Normalised(mask), Normalised(mask)];
    assert LiveMasks(t2)[0] == LiveMasks(t2)[1];
    NoRun(v, t);
    RunThen(v, t, [], add);
    assert [] + [add] == [add];
    RunThen(v, t, [add], add);
    assert [add] + [add] == [add, add];
  }

  lemma NoRun(v: Line221, t: Table)
    ensures CanRun(v, t, []) && RunT(v, t, []) == (t, [])
  {
  }

  /** There is such a mask: the one that selects bit 357 only. */
  lemma UncleanMask()
    ensures Normalised(ByteField(44, 4)) != ByteField(44, 4)
  {
    FlagValues();
    assert ByteField(44, 4)[44] == 4;
  }

  // ---- the answers ----

  /** The numbers that a run returns: -1 for no match, -2 for a redundant rule, and positions. */
  lemma AnswersOfRun(mask: MatchField, entry: Entry, action: ActionSet, flag: FlagWord, pkt: MatchField)
    requires CleanMask(mask) && BitsAgree(mask, pkt, entry)
    ensures var add := Add(mask, entry, action, flag);
            && LegalRun(ByByte, EMPTY, [Search(pkt), add, add, Search(pkt), Delete(pkt), Search(pkt)])
            && RunR(ByByte, EMPTY, [Search(pkt), add, add, Search(pkt), Delete(pkt), Search(pkt)]).1
               == [-1, 0, -2, 0, 0, -1]
  {
    hide CleanMask, LegalRun, RunR, NewRule, RuleMatches, Lookup, BitsAgree, Agree;
    var look, add, gone := Search(pkt), Add(mask, entry, action, flag), Delete(pkt);
    var s1 := RuleTable([NewRule(mask, entry, action, flag)], [mask]);
    AgreeIsBits(mask, pkt, entry);
    StepsOfOne(mask, entry, action, flag, pkt);
    NothingFound([], pkt);
    NothingFound([mask], pkt);
    LegalNone(ByByte);
    Appended(look, add, add, look, gone, look);
    Appended(-1, 0, -2, 0, 0, -1);
    LegalThen(ByByte, EMPTY, [], look);
    LegalThen(ByByte, EMPTY, [look], add);
    LegalThen(ByByte, EMPTY, [look, add], add);
    LegalThen(ByByte, EMPTY, [look, add, add], look);
    LegalThen(ByByte, EMPTY, [look, add, add, look], gone);
    LegalThen(ByByte, EMPTY, [look, add, add, look, gone], look);
  }

  lemma LegalNone(v: Line221)
    ensures LegalRun(v, EMPTY, []) && RunR(v, EMPTY, []) == (EMPTY, [])
  {
  }

  lemma Appended<T>(a: T, b: T, c: T, d: T, e: T, f: T)
    ensures [] + [a] == [a] && [a] + [b] == [a, b] && [a, b] + [c] == [a, b, c] && [a, b, c] + [d] == [a, b, c, d]
    ensures [a, b, c, d] + [e] == [a, b, c, d, e] && [a, b, c, d, e] + [f] == [a, b, c, d, e, f]
  {
  }

  lemma NothingFound(masks: seq<MatchField>, pkt: MatchField)
    ensures Lookup(RuleTable([], masks), pkt) == NO_MATCH
  {
  }

  /** The first rule: added, refused when it comes again, found, and deleted. */
  lemma StepsOfOne(mask: MatchField, entry: Entry, action: ActionSet, flag: FlagWord, pkt: MatchField)
    requires CleanMask(mask) && Agree(mask, pkt, entry)
    ensures var s1 := RuleTable([NewRule(mask, entry, action, flag)], [mask]);
            && AddIsSafe(EMPTY, mask) && AddIsSafe(s1, mask)
            && AddR(ByByte, EMPTY, mask, entry, action, flag) == (s1, 0)
            && AddR(ByByte, s1, mask, entry, action, flag) == (s1, RDNDNT)
            && Lookup(s1, pkt) == 0
            && DeleteR(s1, pkt) == (RuleTable([], [mask]), 0)
  {
    hide CleanMask, NewRule, RuleMatches, Agree, ScanHits;
    var rule := NewRule(mask, entry, action, flag);
    var s1 := RuleTable([rule], [mask]);
    assert InsertAt([], 0, rule) == [rule] && EMPTY.masks + [mask] == [mask];
    NewRuleMatches(mask, entry, action, flag, pkt);
    LookupOne(rule, mask, pkt);
    NewRuleMask(mask, entry, action, flag);
    assert s1.rules[0].mask == mask && s1.masks[0] == mask && RemoveAt(s1.rules, 0) == [];
    AgreesWithItself(mask, entry, action, flag);
  }

  lemma AgreesWithItself(mask: MatchField, entry: Entry, action: ActionSet, flag: FlagWord)
    requires CleanMask(mask)
    ensures ScanHits(ByByte, mask, entry, NewRule(mask, entry, action, flag).fields, 0)
  {
    hide Agree, CleanMask, WithMarker;
    CleanIsMarkerFree(mask);
    HitIsDuplicate(mask, entry, action, flag, NewRule(mask, entry, action, flag).fields, 0);
    AgreeReflexive(mask, NewRule(mask, entry, action, flag).fields);
  }

  // ---- groups emptied by a deletion ----

  /** A rule added to an empty table and deleted again cannot be added once more. */
  lemma ReAddIsRefused(t: Table, mask: MatchField, entry: Entry, action: ActionSet, flag: FlagWord, pkt: MatchField)
    requires Shaped(t) && t.tail == 0 && t.maskTail == 0
    requires CleanMask(mask) && Agree(mask, pkt, entry)
    ensures var add := Add(mask, entry, action, flag);
            && CanRun(ByByte, t, [add, Delete(pkt), add])
            && RunT(ByByte, t, [add, Delete(pkt), add]).1 == [0, 0, RDNDNT]
  {
    hide CleanMask, Agree, StepT, CanStep, CanRun, RunT, Abs, TableInv, Sound, AddT, RemovedT, LegalRun, RunR;
    var add, rule := Add(mask, entry, action, flag), NewRule(mask, entry, action, flag);
    EmptyTable(t);
    OneAdd(ByByte, mask, entry, action, flag);
    RunRefines(ByByte, t, [add]);
    var t1 := RunT(ByByte, t, [add]).0;
    NewRuleMatches(mask, entry, action, flag, pkt);
    OnlyRule(t1, rule, mask, pkt);
    var t2 := SearchT(t1, pkt).0;
    DeletedRowRefusesAdd(t2, mask, entry, action, flag);
    AgreeWithOnlyRow(t2, rule, mask, entry);
    var e := RemovedT(t2, 0);
    assert CanStep(t1, Delete(pkt)) && StepT(ByByte, t1, Delete(pkt)) == (e, 0) by { StepIsDeleteT(ByByte, t1, pkt); }
    assert CanStep(e, add) && StepT(ByByte, e, add).1 == RDNDNT by { StepIsAddT(ByByte, e, add); }
    RunThen(ByByte, t, [add], Delete(pkt));
    RunThen(ByByte, t, [add] + [Delete(pkt)], add);
    assert [add] + [Delete(pkt)] + [add] == [add, Delete(pkt), add];
  }

  /** A table with one rule, and a packet that matches it. */
  lemma OnlyRule(t: Table, rule: Rule, mask: MatchField, pkt: MatchField)
    requires TableInv(t) && Sound(t, t.tail) && Abs(t) == RuleTable([rule], [mask])
    requires RuleMatches(rule, pkt)
    ensures SearchT(t, pkt).1 == 0
    ensures var t1 := SearchT(t, pkt).0;
            && TableInv(t1) && Sound(t1, t1.tail) && Abs(t1) == Abs(t)
            && t1.tail == 1 && t1.masks[0] == mask && DeleteT(t, pkt) == (RemovedT(t1, 0), 0)
  {
    hide TableInv, RuleMatches, RemovedT, Rules, Index, Lookup;
    SearchRefines(t, pkt);
    var t1 := SearchT(t, pkt).0;
    AbsLength(t1);
    LookupOne(rule, mask, pkt);
    assert |Rules(t1)| == 1 && LiveMasks(t1) == [mask];
    assert LiveMasks(t1)[0] == mask;
  }

  lemma LookupOne(rule: Rule, mask: MatchField, pkt: MatchField)
    ensures Lookup(RuleTable([rule], [mask]), pkt) == if RuleMatches(rule, pkt) then 0 else NO_MATCH
  {
    hide RuleMatches;
  }

  /** What a new rule was made of agrees with the row that stands for it. */
  lemma AgreeWithOnlyRow(t: Table, rule: Rule, mask: MatchField, entry: Entry)
    requires TableInv(t) && Sound(t, t.tail) && Abs(t) == RuleTable([rule], [mask]) && CleanMask(mask)
    requires rule.fields == WithMarker(entry[..MTCH_FLD_LEN], false)
    ensures t.tail == 1 && Agree(mask, entry, t.rows[0])
  {
    hide BitOf, Agree, TableInv, Index, WithMarker, MarkerFree;
    var row := t.rows[0];
    assert Rules(t)[0].fields == WithMarker(row[..MTCH_FLD_LEN], false);
    AgreeReflexive(mask, entry);
    AgreeOnPrefix(mask, entry, entry);
    MarkerUnseen(mask, entry, entry[..MTCH_FLD_LEN], false);
    MarkerUnseen(mask, entry, row[..MTCH_FLD_LEN], false);
    AgreeOnPrefix(mask, entry, row);
  }

  /**
   Two rules under two masks; the first is deleted; a third, under the mask of the first,
   is accepted and joins the mask of the second.
   */
  lemma RuleJoinsNextMask(v: Line221, t: Table, m1: MatchField, e1: Entry, m2: MatchField, e2: Entry, e3: Entry,
                          action: ActionSet, flag: FlagWord, pkt: MatchField)
    requires Shaped(t) && t.tail == 0 && t.maskTail == 0
    requires CleanMask(m1) && CleanMask(m2) && m1 != m2
    requires Agree(m1, pkt, e1) && !Agree(m2, pkt, e2)
    requires !ScanHits(v, m1, e3, NewRule(m2, e2, action, flag).fields, 0)
    ensures var ops := [Add(m1, e1, action, flag), Add(m2, e2, action, flag), Delete(pkt), Add(m1, e3, action, flag)];
            && CanRun(v, t, ops)
            && var (t', rs) := RunT(v, t, ops);
               rs == [0, 1, 0, 1] && Sound(t', t'.tail) && t'.tail == 2 && MaskOf(t', 1) == m2
  {
    hide CleanMask, Agree, StepT, CanStep, CanRun, RunT, Abs, TableInv, Index, AddT, LegalRun, RunR, NewRule, ScanHits;
    var a, b, c := Add(m1, e1, action, flag), Add(m2, e2, action, flag), Add(m1, e3, action, flag);
    var r2 := NewRule(m2, e2, action, flag);
    EmptyTable(t);
    NewRuleMask(m2, e2, action, flag);
    FirstOfTwoDeleted(v, m1, e1, m2, e2, action, flag, pkt);
    RunRefines(v, t, [a, b, Delete(pkt)]);
    var t3 := RunT(v, t, [a, b, Delete(pkt)]).0;
    JoinsSecondMask(v, t3, r2, m1, m2, e3, action, flag);
    assert CanStep(t3, c) && StepT(v, t3, c) == AddT(v, t3, m1, e3, action, flag) by { StepIsAddT(v, t3, c); }
    RunThen(v, t, [a, b, Delete(pkt)], c);
    assert [a, b, Delete(pkt)] + [c] == [a, b, Delete(pkt), c] && [0, 1, 0] + [1] == [0, 1, 0, 1];
  }

  lemma FirstOfTwoDeleted(v: Line221, m1: MatchField, e1: Entry, m2: MatchField, e2: Entry, action: ActionSet,
                          flag: FlagWord, pkt: MatchField)
    requires CleanMask(m1) && CleanMask(m2) && m1 != m2
    requires Agree(m1, pkt, e1) && !Agree(m2, pkt, e2)
    ensures var ops := [Add(m1, e1, action, flag), Add(m2, e2, action, flag), Delete(pkt)];
            && LegalRun(v, EMPTY, ops)
            && RunR(v, EMPTY, ops) == (RuleTable([NewRule(m2, e2, action, flag)], [m1, m2]), [0, 1, 0])
  {
    hide CleanMask, Agree, LegalRun, RunR, NewRule, RuleMatches;
    var a, b := Add(m1, e1, action, flag), Add(m2, e2, action, flag);
    var r1, r2 := NewRule(m1, e1, action, flag), NewRule(m2, e2, action, flag);
    var s := RuleTable([r1, r2], [m1, m2]);
    TwoMasks(v, m1, e1, m2, e2, action, flag);
    NewRuleMatches(m1, e1, action, flag, pkt);
    NewRuleMatches(m2, e2, action, flag, pkt);
    LookupTwo(r1, r2, s.masks, pkt);
    NewRuleMask(m1, e1, action, flag);
    assert RemoveAt(s.rules, 0) == [r2] && s.rules[0].mask == m1 && s.masks[0] == m1;
    LegalThen(v, EMPTY, [a, b], Delete(pkt));
    assert [a, b] + [Delete(pkt)] == [a, b, Delete(pkt)] && [0, 1] + [0] == [0, 1, 0];
  }

  lemma LookupTwo(r1: Rule, r2: Rule, masks: seq<MatchField>, pkt: MatchField)
    ensures Lookup(RuleTable([r1, r2], masks), pkt)
            == if RuleMatches(r2, pkt) && (!RuleMatches(r1, pkt) || r1.priority as nat < r2.priority as nat) then 1
               else if RuleMatches(r1, pkt) then 0 else NO_MATCH
  {
    hide RuleMatches;
    var c := RuleCandidates([r1, r2], pkt);
    assert c[..1] == [c[0]] && c[..1][..0] == [];
    assert Best([c[0]]) == if c[0].hit then 0 else NO_MATCH;
  }

  lemma JoinsSecondMask(v: Line221, t: Table, rule: Rule, m1: MatchField, m2: MatchField, entry: Entry,
                        action: ActionSet, flag: FlagWord)
    requires TableInv(t) && Sound(t, t.tail) && Abs(t) == RuleTable([rule], [m1, m2]) && rule.mask == m2 != m1
    requires CleanMask(m1) && !ScanHits(v, m1, entry, rule.fields, 0)
    ensures MaskRoom(t, m1)
    ensures var (t', r) := AddT(v, t, m1, entry, action, flag);
            r == 1 && Sound(t', t'.tail) && t'.tail == 2 && MaskOf(t', 1) == m2
  {
    hide ScanHits, TableInv, RuleAt, Index, Normalised, WithMarker;
    TableInvIsGroupInv(t);
    StoredMaskHasPlace(t, m1);
    assert LiveMasks(t)[0] == m1 && LiveMasks(t)[1] == m2 && Rules(t)[0] == rule && |Rules(t)| == 1;
    UnownedIsFirst(t, m1);
    ScanIgnoresMarker(v, t, m1, entry, 0);
    AddToUnowned(v, t, m1, entry, action, flag);
  }

  /** Bytes for which this happens, with either reading of the scan. */
  lemma RuleJoinsNextMaskOfBytes(v: Line221, t: Table, action: ActionSet, flag: FlagWord)
    requires Shaped(t) && t.tail == 0 && t.maskTail == 0
    ensures var e3 := EntryOf(seq(MTCH_FLD_LEN, _ => 2), 0);
            var ops := [Add(ByteMask(1), EntryOf(ByteField(1, 1), 0), action, flag),
                        Add(ByteMask(2), EntryOf(ByteField(2, 1), 0), action, flag),
                        Delete(ByteField(1, 1)),
                        Add(ByteMask(1), e3, action, flag)];
            && CanRun(v, t, ops)
            && var (t', rs) := RunT(v, t, ops);
               rs == [0, 1, 0, 1] && Sound(t', t'.tail) && t'.tail == 2 && MaskOf(t', 1) == ByteMask(2)
  {
    hide CanRun, RunT, CleanMask, Agree;
    var e1, e2, e3 := EntryOf(ByteField(1, 1), 0), EntryOf(ByteField(2, 1), 0), EntryOf(seq(MTCH_FLD_LEN, _ => 2), 0);
    OneByteIsClean(1);
    OneByteIsClean(2);
    ByteMasksDiffer(1, 2);
    OneByteAgree(1, ByteField(1, 1), e1);
    OneByteAgree(2, ByteField(1, 1), e2);
    var row := NewRule(ByteMask(2), e2, action, flag).fields;
    assert row[1] == 0 && Compared(v, e3, 0)[1] == 2;
    OneByteAgree(1, Compared(v, e3, 0), row);
    RuleJoinsNextMask(v, t, ByteMask(1), e1, ByteMask(2), e2, e3, action, flag, ByteField(1, 1));
  }

  // ---- the cache ----

  /**
   Two rules of different priority, and a packet that only the lower matches: it is
   cached, and the next packet, which both match, is given the lower rule.
   */
  lemma CachedHidesBetter(v: Line221, t: Table, c: Cache, m1: MatchField, e1: Entry, m2: MatchField, e2: Entry,
                          action: ActionSet, flag: FlagWord, p1: MatchField, p2: MatchField)
    requires Shaped(t) && t.tail == 0 && t.maskTail == 0 && Cleared(c)
    requires CleanMask(m1) && CleanMask(m2) && m1 != m2 && e1[PRIORITY] as nat < e2[PRIORITY] as nat
    requires Agree(m1, p1, e1) && !Agree(m2, p1, e2)
    requires Agree(m1, p2, e1) && Agree(m2, p2, e2)
    ensures var ops := [Add(m1, e1, action, flag), Add(m2, e2, action, flag)];
            && CanRun(v, t, ops)
            && var t2 := RunT(v, t, ops).0;
               && QuietLegalRun(t2, c, [Packet(p1)])
               && var (t3, c3) := QuietRun(t2, c, [Packet(p1)]);
                  && Sound(t3, t3.tail) && InRange(c3)
                  && LookupT(t3, c3, p2).2 == 0 && SearchT(t3, p2).1 == 1
  {
    hide CleanMask, Agree, CanRun, RunT, LegalRun, RunR, Abs, TableInv, Sound, NewRule, RuleMatches, Lookup, SearchT,
      LookupT;
    var ops := [Add(m1, e1, action, flag), Add(m2, e2, action, flag)];
    var r1, r2 := NewRule(m1, e1, action, flag), NewRule(m2, e2, action, flag);
    EmptyTable(t);
    TwoMasks(v, m1, e1, m2, e2, action, flag);
    RunRefines(v, t, ops);
    var t2 := RunT(v, t, ops).0;
    NewRuleMatches(m1, e1, action, flag, p1);
    NewRuleMatches(m2, e2, action, flag, p1);
    NewRuleMatches(m1, e1, action, flag, p2);
    NewRuleMatches(m2, e2, action, flag, p2);
    LookupTwo(r1, r2, [m1, m2], p1);
    FirstIsCached(t2, c, p1);
    var (t3, c3) := QuietRun(t2, c, [Packet(p1)]);
    NewRulePriority(m1, e1, action, flag);
    NewRulePriority(m2, e2, action, flag);
    CachedIsTheAnswer(t3, c3, r1, r2, [m1, m2], p2);
  }

  lemma NewRulePriority(mask: MatchField, entry: Entry, action: ActionSet, flag: FlagWord)
    ensures NewRule(mask, entry, action, flag).priority == entry[PRIORITY]
  {
  }

  lemma FirstIsCached(t: Table, c: Cache, pkt: MatchField)
    requires TableInv(t) && Sound(t, t.tail) && Cleared(c) && Lookup(Abs(t), pkt) == 0
    ensures QuietLegalRun(t, c, [Packet(pkt)])
    ensures var (t', c') := QuietRun(t, c, [Packet(pkt)]);
            && TableInv(t') && Sound(t', t'.tail) && Abs(t') == Abs(t)
            && CacheSound(t', c') && (forall p :: IsCached(c', p) <==> p == 0)
            && t' == SearchT(t, pkt).0 && c' == Recorded(c, Index(Marks(t), 0), 0)
  {
    hide TableInv, Abs, SearchT, Index, CacheSound, Lookup;
    AbsLength(t);
    ClearedIsSound(t, c);
    SearchRefines(t, pkt);
    LookupKeepsSound(t, c, pkt);
    assert SearchCacheT(t, c, pkt) == (t, NO_MATCH) by { NothingCached(t, c, pkt); }
    FirstSlot(c, Index(Marks(t), 0), 0);
    assert QuietStep(t, c, Packet(pkt)) == (SearchT(t, pkt).0, Recorded(c, Index(Marks(t), 0), 0));
    assert [Packet(pkt)][1..] == [];
  }

  lemma NothingCached(t: Table, c: Cache, pkt: MatchField)
    requires Shaped(t) && Cleared(c)
    ensures InRange(c) && SearchCacheT(t, c, pkt) == (t, NO_MATCH)
  {
    hide CountedSlots, Leader;
    assert Visited(c) == [];
    CacheSearchStart(t, c, pkt);
  }

  lemma FirstSlot(c: Cache, mask: nat, row: nat)
    requires Cleared(c) && mask < NO_F_FLWS && row < NO_F_FLWS
    ensures InRange(c) && InRange(Recorded(c, mask, row))
    ensures forall p :: IsCached(Recorded(c, mask, row), p) <==> p == row
    ensures var v := Visited(Recorded(c, mask, row)); |v| == 2 && v[0].mask == -1 && v[1] == CacheSlot(mask, row)
  {
    var v := Visited(Recorded(c, mask, row));
    assert |v| == 2 && v[0].mask == -1 && v[1] == CacheSlot(mask, row);
  }

  lemma CachedIsTheAnswer(t: Table, c: Cache, r1: Rule, r2: Rule, masks: seq<MatchField>, pkt: MatchField)
    requires TableInv(t) && Sound(t, t.tail) && Abs(t) == RuleTable([r1, r2], masks)
    requires CacheSound(t, c) && forall p :: IsCached(c, p) <==> p == 0
    requires RuleMatches(r1, pkt) && RuleMatches(r2, pkt) && r1.priority as nat < r2.priority as nat
    ensures LookupT(t, c, pkt).2 == 0 && SearchT(t, pkt).1 == 1
  {
    hide RuleMatches, TableInv, Sound, RuleAt, SearchT, CacheSound, Lookup, IsCached, Matches, SearchCacheT;
    AbsLength(t);
    LookupTwo(r1, r2, masks, pkt);
    SearchRefines(t, pkt);
    HitIsBestCached(t, c, pkt);
    MatchesRule(t, 0, pkt);
    assert Rules(t)[0] == r1;
  }

  /** Bytes for which this happens. */
  lemma CachedHidesBetterOfBytes(v: Line221, t: Table, c: Cache, action: ActionSet, flag: FlagWord)
    requires Shaped(t) && t.tail == 0 && t.maskTail == 0 && Cleared(c)
    ensures var both := ByteField(1, 1)[2 := 1];
            var ops := [Add(ByteMask(1), EntryOf(ByteField(1, 1), 1), action, flag),
                        Add(ByteMask(2), EntryOf(ByteField(2, 1), 2), action, flag)];
            && CanRun(v, t, ops)
            && var t2 := RunT(v, t, ops).0;
               && QuietLegalRun(t2, c, [Packet(ByteField(1, 1))])
               && var (t3, c3) := QuietRun(t2, c, [Packet(ByteField(1, 1))]);
                  && Sound(t3, t3.tail) && InRange(c3)
                  && LookupT(t3, c3, both).2 == 0 && SearchT(t3, both).1 == 1
  {
    hide CanRun, RunT, CleanMask, Agree, QuietRun, QuietLegalRun, SearchT, LookupT, Sound, InRange;
    var e1, e2, both := EntryOf(ByteField(1, 1), 1), EntryOf(ByteField(2, 1), 2), ByteField(1, 1)[2 := 1];
    OneByteIsClean(1);
    OneByteIsClean(2);
    ByteMasksDiffer(1, 2);
    OneByteAgree(1, ByteField(1, 1), e1);
    OneByteAgree(2, ByteField(1, 1), e2);
    OneByteAgree(1, both, e1);
    OneByteAgree(2, both, e2);
    CachedHidesBetter(v, t, c, ByteMask(1), e1, ByteMask(2), e2, action, flag, ByteField(1, 1), both);
  }

  /**
   A rule is added, a packet finds it and leaves it in the cache, and the rule is deleted. The
   next such packet is still given row 0, of a table without any row.
   */
  lemma DeletedRuleIsStillFound(v: Line221, t: Table, c: Cache, mask: MatchField, entry: Entry, action: ActionSet,
                                flag: FlagWord, pkt: MatchField)
    requires Shaped(t) && t.tail == 0 && t.maskTail == 0 && Cleared(c)
    requires CleanMask(mask) && Agree(mask, pkt, entry)
    ensures var ops := [Add(mask, entry, action, flag)];
            && CanRun(v, t, ops)
            && var t1 := RunT(v, t, ops).0;
               && QuietLegalRun(t1, c, [Packet(pkt)])
               && var (t2, c2) := QuietRun(t1, c, [Packet(pkt)]);
                  && CanStep(t2, Delete(pkt))
                  && var (t3, r) := StepT(v, t2, Delete(pkt));
                     && r == 0 && Sound(t3, t3.tail) && t3.tail == 0 && InRange(c2)
                     && SearchT(t3, pkt).1 == NO_MATCH && LookupT(t3, c2, pkt).2 == 0
  {
    hide CleanMask, Agree, CanRun, RunT, LegalRun, RunR, Abs, TableInv, NewRule, RuleMatches, Lookup, SearchT, Index,
      LookupT, StepT, CanStep, RemovedT, QuietRun, QuietLegalRun;
    var rule := NewRule(mask, entry, action, flag);
    EmptyTable(t);
    OneAdd(v, mask, entry, action, flag);
    RunRefines(v, t, [Add(mask, entry, action, flag)]);
    var t1 := RunT(v, t, [Add(mask, entry, action, flag)]).0;
    NewRuleMatches(mask, entry, action, flag, pkt);
    LookupOne(rule, mask, pkt);
    FirstIsCached(t1, c, pkt);
    var (t2, c2) := QuietRun(t1, c, [Packet(pkt)]);
    OnlyRule(t1, rule, mask, pkt);
    OnlyRule(t2, rule, mask, pkt);
    StepIsDeleteT(v, t2, pkt);
    FirstMaskNumber(t1, rule, mask);
    RemoveRefines(SearchT(t2, pkt).0, 0);
    StaleHit(SearchT(t2, pkt).0, c, rule, mask, pkt);
  }

  lemma FirstMaskNumber(t: Table, rule: Rule, mask: MatchField)
    requires TableInv(t) && Sound(t, t.tail) && Abs(t) == RuleTable([rule], [mask])
    ensures t.tail == 1 && t.maskTail == 1 && Index(Marks(t), 0) == 0
  {
    assert |Rules(t)| == 1 && |LiveMasks(t)| == 1;
    assert Marks(t)[..1] == Marks(t);
  }

  lemma StaleHit(t: Table, c: Cache, rule: Rule, mask: MatchField, pkt: MatchField)
    requires TableInv(t) && Sound(t, t.tail) && Abs(t) == RuleTable([rule], [mask]) && Cleared(c)
    requires RuleMatches(rule, pkt)
    ensures InRange(c) && InRange(Recorded(c, 0, 0))
    ensures var e := RemovedT(t, 0);
            && Sound(e, e.tail) && e.tail == 0
            && SearchT(e, pkt).1 == NO_MATCH && LookupT(e, Recorded(c, 0, 0), pkt).2 == 0
  {
    hide RuleMatches, TableInv, RemovedT, Agree, CountedSlots, Leader, Visited, RuleAt, Index;
    FirstMaskNumber(t, rule, mask);
    TableInvIsGroupInv(t);
    EmptiedTails(t);
    EmptiedRow(t);
    MatchesRule(t, 0, pkt);
    assert Rules(t)[0] == rule;
    var e, c' := RemovedT(t, 0), Recorded(c, 0, 0);
    FirstSlot(c, 0, 0);
    HitOnSecondSlot(e, c', pkt);
  }

  lemma HitOnSecondSlot(t: Table, c: Cache, pkt: MatchField)
    requires Shaped(t) && InRange(c) && |Visited(c)| == 2
    requires Visited(c)[0].mask == -1 && Visited(c)[1] == CacheSlot(0, 0) && Agree(t.masks[0], pkt, t.rows[0])
    ensures SearchCacheT(t, c, pkt).1 == 0
  {
    hide Agree, CountedSlots, Leader, Visited;
    CacheSearchStart(t, c, pkt);
    CacheSearchStep(t, c, pkt, 0);
    CacheSearchStep(t, c, pkt, 1);
  }
}
