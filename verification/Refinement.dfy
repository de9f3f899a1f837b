/**
 The four tables refine the list of rules: over every legal run they return
 the same results and stand for the same rules, although no row stores its
 mask and every insertion and deletion moves rows, actions and flags apart.
 */
module Refinement {
  import opened Bytes
  import opened Lists
  import opened MaskGroups
  import opened Matching
  import opened FlowModel
  import opened ModifyModel
  import opened RuleList

  /** The invariant of legal runs: the group invariant, over distinct clean masks. */
  ghost predicate TableInv(t: Table) {
    && GroupInv(t)
    && Distinct(LiveMasks(t))
    && forall k :: 0 <= k < t.maskTail ==> CleanMask(t.masks[k])
  }

  /** The part of slot `p` that a rule is made of, besides its mask. */
  function Slot(t: Table, p: nat): (seq<byte>, ActionSet, FlagWord)
    requires Shaped(t) && p < NO_F_FLWS
  {
    (WithMarker(t.rows[p][..COUNTER], false), t.acts[p], t.flags[p])
  }

  function RuleAt(t: Table, p: nat): Rule
    requires Sound(t, t.tail) && p < t.tail
  {
    Rule(WithMarker(t.rows[p][..MTCH_FLD_LEN], false), MaskOf(t, p), t.rows[p][PRIORITY], t.acts[p], t.flags[p])
  }

  function Rules(t: Table): (r: seq<Rule>)
    requires Sound(t, t.tail)
    ensures |r| == t.tail
  {
    seq(t.tail, p requires 0 <= p < t.tail => RuleAt(t, p))
  }

  function Abs(t: Table): RuleTable
    requires Sound(t, t.tail)
  {
    RuleTable(Rules(t), LiveMasks(t))
  }

  lemma SameSlotSameRule(t: Table, p: nat, t': Table, p': nat)
    requires Sound(t, t.tail) && Sound(t', t'.tail) && p < t.tail && p' < t'.tail
    requires Slot(t, p) == Slot(t', p') && MaskOf(t, p) == MaskOf(t', p')
    ensures RuleAt(t, p) == RuleAt(t', p')
  {
    hide WithBit;
    var a, b := t.rows[p], t'.rows[p'];
    assert WithMarker(a[..COUNTER], false)[..MTCH_FLD_LEN] == WithMarker(a[..MTCH_FLD_LEN], false);
    assert WithMarker(b[..COUNTER], false)[..MTCH_FLD_LEN] == WithMarker(b[..MTCH_FLD_LEN], false);
    assert WithMarker(a[..COUNTER], false)[PRIORITY] == a[PRIORITY];
    assert WithMarker(b[..COUNTER], false)[PRIORITY] == b[PRIORITY];
  }

  /** Masks are distinct, so rules have the same mask exactly when their rows are in the same group. */
  lemma SameMaskSameGroup(t: Table, p: nat, k: nat)
    requires Sound(t, t.tail) && Distinct(LiveMasks(t)) && p < t.tail && k < t.maskTail
    ensures MaskOf(t, p) == t.masks[k] <==> Index(Marks(t), p) == k
  {
    var i := Index(Marks(t), p);
    assert LiveMasks(t)[i] == t.masks[i] && LiveMasks(t)[k] == t.masks[k];
  }

  // ---- search ----

  lemma MatchesRule(t: Table, p: nat, pkt: MatchField)
    requires TableInv(t) && Sound(t, t.tail) && p < t.tail
    ensures Matches(t, p, pkt) == RuleMatches(RuleAt(t, p), pkt)
  {
    hide Agree, MarkerFree, WithBit, BitOf;
    assert CleanMask(MaskOf(t, p));
    AgreeOnPrefix(MaskOf(t, p), pkt, t.rows[p]);
    MarkerUnseen(MaskOf(t, p), pkt, t.rows[p][..MTCH_FLD_LEN], false);
  }

  /** A lookup in the tables is a lookup in the list of rules, and leaves the rules alone. */
  lemma SearchRefines(t: Table, pkt: MatchField)
    requires TableInv(t) && Sound(t, t.tail)
    ensures SearchT(t, pkt).1 == Lookup(Abs(t), pkt)
    ensures var t' := SearchT(t, pkt).0; TableInv(t') && Sound(t', t'.tail) && Abs(t') == Abs(t)
  {
    hide Agree, MarkerFree, WithBit, BitOf;
    forall p | 0 <= p < t.tail
      ensures Matches(t, p, pkt) == RuleMatches(RuleAt(t, p), pkt)
    {
      MatchesRule(t, p, pkt);
    }
    assert Candidates(t, pkt) == RuleCandidates(Rules(t), pkt);
    SearchKeeps(t, pkt);
    var t' := SearchT(t, pkt).0;
    forall p | 0 <= p < t.tail
      ensures RuleAt(t', p) == RuleAt(t, p)
    {
      assert t'.rows[p][..COUNTER] == t.rows[p][..COUNTER];
      SameSlotSameRule(t, p, t', p);
    }
  }

  // ---- add ----

  lemma PlacedMarks(t: Table, pos: nat, row: FlowRow, action: ActionSet, flag: FlagWord)
    requires Shaped(t) && t.tail < NO_F_FLWS && pos <= t.tail
    ensures Marks(Placed(t, pos, row, action, flag)) == InsertAt(Marks(t), pos, Marked(row))
  {
    hide BitOf, InsertAt;
    var t' := Placed(t, pos, row, action, flag);
    forall q | 0 <= q < t'.tail
      ensures Marks(t')[q] == InsertAt(Marks(t), pos, Marked(row))[q]
    {
      InsertedElement(Marks(t), pos, Marked(row), q);
      PlacedRow(t, pos, row, action, flag, q);
    }
  }

  lemma PlacedRow(t: Table, pos: nat, row: FlowRow, action: ActionSet, flag: FlagWord, q: nat)
    requires Shaped(t) && t.tail < NO_F_FLWS && pos <= t.tail && q <= t.tail
    ensures Placed(t, pos, row, action, flag).rows[q]
            == if q == pos then row else if q < pos then t.rows[q] else Stored(t.rows[q - 1])
    ensures q > pos ==> Stored(t.rows[q - 1])[..COUNTER] == t.rows[q - 1][..COUNTER]
                        && Marked(Stored(t.rows[q - 1])) == Marked(t.rows[q - 1])
  {
    hide BitOf;
  }

  lemma PlacedSlots(t: Table, pos: nat, row: FlowRow, action: ActionSet, flag: FlagWord, q: nat)
    requires Shaped(t) && t.tail < NO_F_FLWS && pos <= t.tail && q <= t.tail
    ensures Slot(Placed(t, pos, row, action, flag), q)
            == if q == pos then (WithMarker(row[..COUNTER], false), action, flag)
               else if q < pos then Slot(t, q) else Slot(t, q - 1)
  {
    hide WithBit;
    var t' := Placed(t, pos, row, action, flag);
    PlacedRow(t, pos, row, action, flag, q);
  }

  /** A row can be placed into `t1`, which is `t` or `t` with one mask more, so that every row has a mask. */
  ghost predicate Placeable(t: Table, t1: Table, pos: nat, row: FlowRow) {
    && Sound(t, t.tail) && pos <= t.tail < NO_F_FLWS
    && Shaped(t1) && t1 == t.(masks := t1.masks, maskTail := t1.maskTail)
    && LiveMasks(t) <= LiveMasks(t1)
    && (Marked(row) ==> pos == t.tail)
    && Count(Marks(t)[..pos]) + (if Marked(row) then 1 else 0) < t1.maskTail
  }

  lemma PlacedIndex(t: Table, t1: Table, pos: nat, row: FlowRow, action: ActionSet, flag: FlagWord, q: nat)
    requires Placeable(t, t1, pos, row) && q < t.tail
    ensures var t', q' := Placed(t1, pos, row, action, flag), if q < pos then q else q + 1;
            && q' < t'.tail == t.tail + 1
            && Index(Marks(t'), q') == Index(Marks(t), q) < t.maskTail <= t'.maskTail
            && t'.masks[Index(Marks(t), q)] == MaskOf(t, q)
  {
    hide Index, Marked;
    assert Marks(t1) == Marks(t);
    PlacedMarks(t1, pos, row, action, flag);
    PlacedTails(t1, pos, row, action, flag);
    IndexAfterInsert(Marks(t), pos, Marked(row), q);
    assert LiveMasks(t)[Index(Marks(t), q)] == LiveMasks(t1)[Index(Marks(t), q)];
  }

  lemma PlacedIsSound(t: Table, t1: Table, pos: nat, row: FlowRow, action: ActionSet, flag: FlagWord)
    requires Placeable(t, t1, pos, row)
    ensures var t' := Placed(t1, pos, row, action, flag);
            && Sound(t', t'.tail) && t'.tail == t.tail + 1
            && MaskOf(t', pos) == t1.masks[Count(Marks(t)[..pos]) + if Marked(row) then 1 else 0]
  {
    hide Index, Marked, Placed, Count;
    assert Marks(t1) == Marks(t);
    var t' := Placed(t1, pos, row, action, flag);
    PlacedMarks(t1, pos, row, action, flag);
    PlacedTails(t1, pos, row, action, flag);
    IndexOfInserted(Marks(t), pos, Marked(row));
    forall q' | 0 <= q' < t'.tail
      ensures Index(Marks(t'), q') < t'.maskTail
    {
      if q' != pos {
        PlacedIndex(t, t1, pos, row, action, flag, if q' < pos then q' else q' - 1);
      }
    }
  }

  lemma PlacedRule(t: Table, t1: Table, pos: nat, row: FlowRow, action: ActionSet, flag: FlagWord, q: nat)
    requires Placeable(t, t1, pos, row) && q < t.tail
    ensures var t', q' := Placed(t1, pos, row, action, flag), if q < pos then q else q + 1;
            Sound(t', t'.tail) && q' < t'.tail && RuleAt(t', q') == RuleAt(t, q)
  {
    hide Index, Marked, Slot, RuleAt, Placed;
    PlacedIndex(t, t1, pos, row, action, flag, q);
    PlacedIsSound(t, t1, pos, row, action, flag);
    var t', q' := Placed(t1, pos, row, action, flag), if q < pos then q else q + 1;
    PlacedSlots(t1, pos, row, action, flag, q');
    SlotIgnoresMasks(t, t1, q);
    SameSlotSameRule(t, q, t', q');
  }

  /** Placing a row into `t`, possibly after adding a mask, inserts one rule and leaves every other its mask. */
  lemma InsertedRules(t: Table, t1: Table, pos: nat, row: FlowRow, action: ActionSet, flag: FlagWord)
    requires Placeable(t, t1, pos, row)
    ensures var t' := Placed(t1, pos, row, action, flag);
            && Sound(t', t'.tail)
            && Rules(t') == InsertAt(Rules(t), pos, RuleAt(t', pos))
            && MaskOf(t', pos) == t1.masks[Count(Marks(t)[..pos]) + if Marked(row) then 1 else 0]
  {
    hide RuleAt, Index, Marked, Placed, InsertAt, Count;
    PlacedIsSound(t, t1, pos, row, action, flag);
    var t' := Placed(t1, pos, row, action, flag);
    forall i | 0 <= i < t'.tail
      ensures Rules(t')[i] == InsertAt(Rules(t), pos, RuleAt(t', pos))[i]
    {
      InsertedElement(Rules(t), pos, RuleAt(t', pos), i);
      if i != pos {
        PlacedRule(t, t1, pos, row, action, flag, if i < pos then i else i - 1);
      }
    }
  }

  lemma SlotIgnoresMasks(t: Table, t1: Table, q: nat)
    requires Shaped(t) && Shaped(t1) && q < NO_F_FLWS
    requires t1.rows == t.rows && t1.acts == t.acts && t1.flags == t.flags
    ensures Slot(t1, q) == Slot(t, q)
  {
  }

  lemma NewRuleAt(t: Table, pos: nat, mask: MatchField, row: FlowRow, entry: Entry, action: ActionSet, flag: FlagWord)
    requires Shaped(t) && t.tail < NO_F_FLWS && pos <= t.tail
    requires exists b :: row == WithMarker(Stored(entry), b)
    requires var t' := Placed(t, pos, row, action, flag); Sound(t', t'.tail) && MaskOf(t', pos) == mask
    ensures RuleAt(Placed(t, pos, row, action, flag), pos) == NewRule(mask, entry, action, flag)
  {
    hide Index;
    var b :| row == WithMarker(Stored(entry), b);
    MarkerWritten(Stored(entry), b);
    assert WithMarker(row, false)[..MTCH_FLD_LEN] == WithMarker(row[..MTCH_FLD_LEN], false);
    assert WithMarker(Stored(entry), false)[..MTCH_FLD_LEN] == WithMarker(entry[..MTCH_FLD_LEN], false);
  }

  /** The rows of the group that the code locates for a mask are those of the rules with that mask. */
  lemma RowsOfMask(t: Table, mask: MatchField)
    requires TableInv(t) && Sound(t, t.tail)
    requires mask in LiveMasks(t) && OwnsRule(Rules(t), mask)
    ensures var k := IndexOf(LiveMasks(t), mask);
            var start := Locate(Marks(t), k);
            && 0 <= start < GroupEnd(Marks(t), start) <= t.tail
            && (forall q :: 0 <= q < t.tail ==>
                  (Rules(t)[q].mask == mask <==> start <= q < GroupEnd(Marks(t), start)))
            && Index(Marks(t), GroupEnd(Marks(t), start) - 1) == k
  {
    hide Index, Locate, GroupEnd;
    var m := Marks(t);
    var k := IndexOf(LiveMasks(t), mask);
    assert t.masks[k] == mask;
    var i :| 0 <= i < t.tail && Rules(t)[i].mask == mask;
    SameMaskSameGroup(t, i, k);
    IndexMonotone(m, 0, i);
    MaskOfLocatedGroup(m, k);
    var start := Locate(m, k);
    forall q | 0 <= q < t.tail
      ensures Rules(t)[q].mask == mask <==> start <= q < GroupEnd(m, start)
      ensures Index(m, q) == k <==> start <= q < GroupEnd(m, start)
    {
      SameMaskSameGroup(t, q, k);
      GroupExtent(m, start, q);
    }
  }

  /** Where the code looks for the group of a mask, and puts a new row, is where the list of rules does. */
  lemma GroupOfMask(t: Table, mask: MatchField)
    requires TableInv(t) && Sound(t, t.tail)
    requires mask in LiveMasks(t) && OwnsRule(Rules(t), mask)
    ensures var k := IndexOf(LiveMasks(t), mask);
            var start := Locate(Marks(t), k);
            && 0 <= start < GroupEnd(Marks(t), start)
            && (forall q :: 0 <= q < t.tail ==>
                  (Rules(t)[q].mask == mask <==> start <= q < GroupEnd(Marks(t), start)))
            && AfterLast(Rules(t), mask) == GroupEnd(Marks(t), start) <= t.tail
            && Count(Marks(t)[..GroupEnd(Marks(t), start)]) == k
  {
    hide Index, Locate, GroupEnd, AfterLast, TableInv, Rules, IndexOf;
    RowsOfMask(t, mask);
    var pos := GroupEnd(Marks(t), Locate(Marks(t), IndexOf(LiveMasks(t), mask)));
    assert Rules(t)[pos - 1].mask == mask;
    IndexIsCount(Marks(t), pos - 1);
  }

  lemma ScanIgnoresMarker(v: Line221, t: Table, mask: MatchField, entry: Entry, r: nat)
    requires Sound(t, t.tail) && r < t.tail && MarkerFree(mask)
    ensures ScanHits(v, mask, entry, t.rows[r], r) == ScanHits(v, mask, entry, Rules(t)[r].fields, r)
  {
    AgreeOnPrefix(mask, Compared(v, entry, r), t.rows[r]);
    MarkerUnseen(mask, Compared(v, entry, r), t.rows[r][..MTCH_FLD_LEN], false);
  }

  /** An add to the tables is an add to the list: same answer, same rules, invariant kept. */
  lemma AddRefines(v: Line221, t: Table, mask: MatchField, entry: Entry, action: ActionSet, flag: FlagWord)
    requires TableInv(t) && Sound(t, t.tail)
    requires t.tail >= NO_F_FLWS || AddIsSafe(Abs(t), mask)
    ensures MaskRoom(t, mask)
    ensures var (t', r) := AddT(v, t, mask, entry, action, flag);
            && TableInv(t') && Sound(t', t'.tail)
            && (Abs(t'), r) == AddR(v, Abs(t), mask, entry, action, flag)
  {
    if t.tail < NO_F_FLWS {
      if mask in LiveMasks(t) {
        StoredMaskHasPlace(t, mask);
        AddToGroupRefines(v, t, mask, entry, action, flag);
      } else {
        AddNewMaskRefines(v, t, mask, entry, action, flag);
      }
    }
  }

  /** The duplicate scan of the group's rows is the list's search for a rule taken for a duplicate. */
  lemma ScanRefines(v: Line221, t: Table, mask: MatchField, entry: Entry)
    requires TableInv(t) && Sound(t, t.tail) && t.tail < NO_F_FLWS
    requires MarkerFree(mask) && mask in LiveMasks(t) && OwnsRule(Rules(t), mask)
    ensures var start := Locate(Marks(t), IndexOf(LiveMasks(t), mask));
            && 0 <= start && GroupEnd(Marks(t), start) <= t.tail
            && DuplicateIn(v, t, mask, entry, start, GroupEnd(Marks(t), start))
               == TakenForDuplicate(v, Rules(t), mask, entry)
  {
    hide Locate, GroupEnd, AfterLast, ScanHits, MarkerFree, TableInv, IndexOf, Rules, Count;
    GroupOfMask(t, mask);
    forall r | 0 <= r < t.tail
      ensures ScanHits(v, mask, entry, t.rows[r], r) == ScanHits(v, mask, entry, Rules(t)[r].fields, r)
    {
      ScanIgnoresMarker(v, t, mask, entry, r);
    }
  }

  /** The new row becomes the last of its group. */
  lemma PlacedInGroup(t: Table, mask: MatchField, entry: Entry, action: ActionSet, flag: FlagWord)
    requires TableInv(t) && Sound(t, t.tail) && t.tail < NO_F_FLWS
    requires mask in LiveMasks(t) && OwnsRule(Rules(t), mask)
    ensures AfterLast(Rules(t), mask) < NO_F_FLWS
    ensures var pos := AfterLast(Rules(t), mask);
            var t' := Placed(t, pos, WithMarker(Stored(entry), false), action, flag);
            && TableInv(t') && Sound(t', t'.tail) && LiveMasks(t') == LiveMasks(t)
            && Rules(t') == InsertAt(Rules(t), pos, NewRule(mask, entry, action, flag))
  {
    hide WithMarker, Marked, Index, Locate, GroupEnd, AfterLast, Placed, RuleAt, InsertAt, CleanMask, Normalised, Rules,
      Count;
    GroupOfMask(t, mask);
    var pos := AfterLast(Rules(t), mask);
    var row := WithMarker(Stored(entry), false);
    MarkerWritten(Stored(entry), false);
    InsertedRules(t, t, pos, row, action, flag);
    NewRuleAt(t, pos, mask, row, entry, action, flag);
    PlacedMarks(t, pos, row, action, flag);
    CountAfterInsert(Marks(t), pos, false);
    PlacedTails(t, pos, row, action, flag);
  }

  lemma AddToGroupRefines(v: Line221, t: Table, mask: MatchField, entry: Entry, action: ActionSet, flag: FlagWord)
    requires TableInv(t) && Sound(t, t.tail) && t.tail < NO_F_FLWS
    requires AddIsSafe(Abs(t), mask) && mask in LiveMasks(t) && MaskRoom(t, mask)
    ensures var (t', r) := AddT(v, t, mask, entry, action, flag);
            && TableInv(t') && Sound(t', t'.tail)
            && (Abs(t'), r) == AddR(v, Abs(t), mask, entry, action, flag)
  {
    hide WithMarker, Locate, GroupEnd, AfterLast, DuplicateIn, TakenForDuplicate, Placed, InsertAt, Rules, IndexOf,
      TableInv, NewRule, Count, CleanMask, Sound;
    assert GroupInv(t) by { TableInvIsGroupInv(t); }
    CleanIsMarkerFree(mask);
    GroupOfMask(t, mask);
    ScanRefines(v, t, mask, entry);
    PlacedInGroup(t, mask, entry, action, flag);
    RulesLength(t);
  }

  lemma TableInvIsGroupInv(t: Table)
    requires TableInv(t)
    ensures GroupInv(t)
  {
  }

  lemma RulesLength(t: Table)
    requires Sound(t, t.tail)
    ensures |Rules(t)| == t.tail
  {
  }

  lemma PlacedTails(t: Table, pos: nat, row: FlowRow, action: ActionSet, flag: FlagWord)
    requires Shaped(t) && t.tail < NO_F_FLWS && pos < NO_F_FLWS
    ensures var t' := Placed(t, pos, row, action, flag);
            t'.tail == t.tail + 1 && t'.masks == t.masks && t'.maskTail == t.maskTail
  {
  }

  /** The new row becomes the last of all, and the only one of its group. */
  lemma PlacedUnderNewMask(t: Table, mask: MatchField, entry: Entry, action: ActionSet, flag: FlagWord)
    requires TableInv(t) && Sound(t, t.tail) && t.tail < NO_F_FLWS && t.maskTail < NO_F_FLWS
    requires CleanMask(mask) && mask !in LiveMasks(t) && (t.tail == 0 ==> t.maskTail == 0)
    ensures var t' := Placed(WithNewMask(t, mask), t.tail, WithMarker(Stored(entry), t.tail > 0), action, flag);
            && TableInv(t') && Sound(t', t'.tail) && LiveMasks(t') == LiveMasks(t) + [mask]
            && Rules(t') == InsertAt(Rules(t), t.tail, NewRule(mask, entry, action, flag))
  {
    hide WithMarker, Marked, Index, Placed, RuleAt, InsertAt, CleanMask, Normalised, Rules, Count;
    CleanIsMarkerFree(mask);
    var pos := t.tail;
    var b := t.tail > 0;
    var row := WithMarker(Stored(entry), b);
    var t1 := WithNewMask(t, mask);
    assert LiveMasks(t1) == LiveMasks(t) + [mask];
    MarkerWritten(Stored(entry), b);
    assert Marks(t)[..pos] == Marks(t);
    if pos == 0 { CountNone(Marks(t)); }
    InsertedRules(t, t1, pos, row, action, flag);
    NewRuleAt(t1, pos, mask, row, entry, action, flag);
    PlacedMarks(t1, pos, row, action, flag);
    CountAfterInsert(Marks(t), pos, b);
    PlacedTails(t1, pos, row, action, flag);
    assert Marks(t1) == Marks(t);
  }

  lemma AddNewMaskRefines(v: Line221, t: Table, mask: MatchField, entry: Entry, action: ActionSet, flag: FlagWord)
    requires TableInv(t) && Sound(t, t.tail) && t.tail < NO_F_FLWS
    requires AddIsSafe(Abs(t), mask) && mask !in LiveMasks(t)
    ensures var (t', r) := AddT(v, t, mask, entry, action, flag);
            && TableInv(t') && Sound(t', t'.tail)
            && (Abs(t'), r) == AddR(v, Abs(t), mask, entry, action, flag)
  {
    hide WithMarker, ScanHits, Placed, InsertAt, CleanMask, Rules, TableInv, NewRule, WithNewMask;
    RulesLength(t);
    PlacedUnderNewMask(t, mask, entry, action, flag);
    assert !TakenForDuplicate(v, Rules(t), mask, entry) by {
      forall i | 0 <= i < t.tail
        ensures Rules(t)[i].mask != mask
      {
        MaskIsStored(t, i);
      }
    }
  }

  lemma MaskIsStored(t: Table, p: nat)
    requires Sound(t, t.tail) && p < t.tail
    ensures Rules(t)[p].mask == MaskOf(t, p) && MaskOf(t, p) in LiveMasks(t)
    ensures Index(Marks(t), p) < t.maskTail && LiveMasks(t)[Index(Marks(t), p)] == MaskOf(t, p)
  {
  }

  // ---- delete ----

  lemma RemovedMarks(t: Table, p: nat)
    requires GroupInv(t) && Sound(t, t.tail) && p < t.tail
    ensures Shaped(RemovedT(t, p))
    ensures Marks(RemovedT(t, p)) == RemoveAt(Marks(t), if HandsOver(Marks(t), p) then p + 1 else p)
  {
    hide Marked, RemovedT, RemoveAt;
    RemovedTail(t, p);
    var t' := RemovedT(t, p);
    var gone := if HandsOver(Marks(t), p) then p + 1 else p;
    forall q | 0 <= q < t'.tail
      ensures Marks(t')[q] == RemoveAt(Marks(t), gone)[q]
    {
      RemovedMark(t, p, q);
      RemovedElement(Marks(t), gone, q);
    }
  }

  lemma RemovedMark(t: Table, p: nat, q: nat)
    requires Sound(t, t.tail) && p < t.tail && q + 1 < t.tail
    ensures Shaped(RemovedT(t, p))
    ensures Marked(RemovedT(t, p).rows[q])
            == if q < p then Marked(t.rows[q]) else Marked(t.rows[q + 1]) || (q == p && Marked(t.rows[p]))
  {
    hide BitOf, WithBit, Index, Normalised;
    var t' := RemovedT(t, p);
    if q >= p {
      MarkerWritten(t.rows[q + 1], true);
      assert t'.rows[q] == Stored(Promoted(t, p)[q + 1]);
      assert t'.rows[q][44] == Promoted(t, p)[q + 1][44];
    }
  }

  lemma RemovedSlots(t: Table, p: nat, q: nat)
    requires GroupInv(t) && Sound(t, t.tail) && p < t.tail && q + 1 < t.tail
    ensures Shaped(RemovedT(t, p))
    ensures Slot(RemovedT(t, p), q) == if q < p then Slot(t, q) else Slot(t, q + 1)
  {
    hide BitOf, WithBit, Index;
    GroupInvIsSound(t);
    var t' := RemovedT(t, p);
    if q >= p {
      var was, now := t.rows[q + 1], Promoted(t, p)[q + 1];
      MarkerWritten(was[..COUNTER], true);
      assert t'.rows[q] == Stored(now);
      assert t'.rows[q][..COUNTER] == now[..COUNTER];
      assert now == was || now[..COUNTER] == WithMarker(was[..COUNTER], true);
    }
  }

  lemma RemovedMaskList(t: Table, p: nat)
    requires GroupInv(t) && Sound(t, t.tail) && p < t.tail
    ensures Shaped(RemovedT(t, p)) && Index(Marks(t), p) < t.maskTail
    ensures LiveMasks(RemovedT(t, p))
            == if SoleOfGroup(t, p) then RemoveAt(LiveMasks(t), Index(Marks(t), p)) else LiveMasks(t)
  {
    hide Index, MasksMovedUp, RemoveAt, SoleOfGroup, Normalised;
    MovedMasksAreRemoved(t.masks, Index(Marks(t), p), t.maskTail);
  }

  lemma MovedMasksAreRemoved(masks: seq<MatchField>, k: nat, n: nat)
    requires k < n <= |masks|
    requires forall i :: 0 <= i < n ==> Normalised(masks[i]) == masks[i]
    ensures MasksMovedUp(masks, k, n)[..n - 1] == RemoveAt(masks[..n], k)
  {
    hide Normalised;
  }

  lemma SoleIsMarked(t: Table, p: nat)
    requires Shaped(t) && p < t.tail
    ensures SoleOfGroup(t, p) <==> Marks(t)[p] && !HandsOver(Marks(t), p)
    ensures SoleOfGroup(t, p) && p + 1 < t.tail ==> Marks(t)[p + 1]
  {
  }

  /** A deletion moves masks and counts of markers together: no surviving row changes its mask. */
  lemma RemovedMask(t: Table, p: nat, q: nat)
    requires GroupInv(t) && Sound(t, t.tail) && p < t.tail && q + 1 < t.tail
    ensures var t' := RemovedT(t, p);
            && Shaped(t')
            && Index(Marks(t'), q) < t'.maskTail
            && t'.masks[Index(Marks(t'), q)] == MaskOf(t, if q < p then q else q + 1)
  {
    hide Index, RemovedT, RemoveAt, SoleOfGroup, HandsOver;
    RemovedMarks(t, p);
    RemovedMaskList(t, p);
    IndexAfterDelete(Marks(t), p, q);
    SoleIsMarked(t, p);
    var t' := RemovedT(t, p);
    var o := if q < p then q else q + 1;
    var i, k := Index(Marks(t'), q), Index(Marks(t), p);
    var live := LiveMasks(t);
    assert Index(Marks(t), o) < t.maskTail && live[Index(Marks(t), o)] == MaskOf(t, o);
    if SoleOfGroup(t, p) {
      assert |LiveMasks(t')| == t.maskTail - 1;
      RemovedElement(live, k, i);
    }
    assert LiveMasks(t')[i] == MaskOf(t, o) && t'.masks[i] == LiveMasks(t')[i];
  }

  /** `delete` keeps the weak invariant, whichever row goes. */
  lemma RemoveKeepsInv(t: Table, p: nat)
    requires GroupInv(t) && Sound(t, t.tail) && p < t.tail
    ensures GroupInv(RemovedT(t, p))
  {
    hide Index, Slot;
    GroupInvIsSound(t);
    var m := Marks(t);
    RemovedMarks(t, p);
    CountAfterRemove(m, p);
    if HandsOver(m, p) { CountAfterRemove(m, p + 1); }
  }

  /**
   ... and the first mask stays the owner of the first row exactly when the row
   deleted is not the only one of the first group.
   */
  lemma RemoveKeepsFirstGroup(t: Table, p: nat)
    requires GroupInv(t) && Sound(t, t.tail) && p < t.tail && FirstGroupOwned(t)
    ensures Shaped(RemovedT(t, p))
    ensures FirstGroupOwned(RemovedT(t, p)) <==> !(p == 0 && (t.tail == 1 || Marked(t.rows[1])))
  {
    hide Index, BitOf;
    GroupInvIsSound(t);
    RemoveKeepsInv(t, p);
    RemovedMarks(t, p);
    var t' := RemovedT(t, p);
    if t'.tail > 0 {
      assert Marked(t'.rows[0]) == Marks(t')[0];
      assert Marked(t.rows[1]) == Marks(t)[1];
    }
  }

  /** A row that is alone under its mask leaves no rule with that mask behind. */
  lemma SoleLeavesNone(t: Table, p: nat)
    requires TableInv(t) && Sound(t, t.tail) && p < t.tail && SoleOfGroup(t, p)
    ensures !OwnsRule(RemoveAt(Rules(t), p), MaskOf(t, p)) && LiveMasks(t)[0] != MaskOf(t, p)
  {
    hide Index, RuleAt, Slot, Rules, RemoveAt, TableInv, SoleOfGroup;
    var m := Marks(t);
    var k := Index(m, p);
    assert Distinct(LiveMasks(t)) && t.maskTail > 0 by { InvGivesDistinct(t); }
    SoleIsMarked(t, p);
    IndexStep(m, p);
    MaskIsStored(t, p);
    SameMaskSameGroup(t, p, 0);
    forall q' | 0 <= q' < t.tail - 1
      ensures RemoveAt(Rules(t), p)[q'].mask != MaskOf(t, p)
    {
      var q := if q' < p then q' else q' + 1;
      RemovedElement(Rules(t), p, q');
      MaskIsStored(t, q);
      SameMaskSameGroup(t, q, k);
      if q < p { SameGroup(m, q, p); } else { SameGroup(m, p, q); }
    }
  }

  lemma InvGivesDistinct(t: Table)
    requires TableInv(t)
    ensures Distinct(LiveMasks(t)) && (t.tail > 0 ==> t.maskTail > 0)
  {
  }

  /** A row that is not alone leaves a neighbour with its mask, or was under the first mask. */
  lemma OthersStillOwn(t: Table, p: nat)
    requires TableInv(t) && Sound(t, t.tail) && p < t.tail && !SoleOfGroup(t, p)
    ensures OwnsRule(RemoveAt(Rules(t), p), MaskOf(t, p)) || LiveMasks(t)[0] == MaskOf(t, p)
  {
    hide Index, RuleAt, Slot, Rules, RemoveAt, TableInv, SoleOfGroup;
    var m := Marks(t);
    InvGivesDistinct(t);
    SoleIsMarked(t, p);
    IndexStep(m, p);
    MaskIsStored(t, p);
    SameMaskSameGroup(t, p, 0);
    if p == 0 && !m[0] {
    } else {
      var q := if HandsOver(m, p) then p + 1 else p - 1;
      if q > p { SameGroup(m, p, q); } else { SameGroup(m, q, p); }
      MaskIsStored(t, q);
      RemovedElement(Rules(t), p, if q > p then p else q);
      assert RemoveAt(Rules(t), p)[if q > p then p else q].mask == MaskOf(t, p);
    }
  }

  /** The code drops the mask exactly when the list of rules has no further use for it. */
  lemma SoleMeansUnowned(t: Table, p: nat)
    requires TableInv(t) && Sound(t, t.tail) && p < t.tail
    ensures var mask := MaskOf(t, p);
            mask in LiveMasks(t)
            && (SoleOfGroup(t, p) <==> !(OwnsRule(RemoveAt(Rules(t), p), mask) || LiveMasks(t)[0] == mask))
  {
    hide Index, Rules, RemoveAt, TableInv, SoleOfGroup, OwnsRule;
    MaskIsStored(t, p);
    if SoleOfGroup(t, p) {
      SoleLeavesNone(t, p);
    } else {
      OthersStillOwn(t, p);
    }
  }

  /** Taking a row out of the tables takes exactly that rule out of the list. */
  lemma RemoveRefines(t: Table, p: nat)
    requires TableInv(t) && Sound(t, t.tail) && p < t.tail
    ensures var t' := RemovedT(t, p);
            TableInv(t') && Sound(t', t'.tail) && Abs(t') == RemoveR(Abs(t), p)
  {
    hide Index, RuleAt, Slot, RemoveAt, RemovedT, CleanMask, Normalised, SoleOfGroup;
    var t' := RemovedT(t, p);
    RemoveKeepsInv(t, p);
    GroupInvIsSound(t');
    RemovedTail(t, p);
    RemovedMaskList(t, p);
    SoleMeansUnowned(t, p);
    forall q | 0 <= q < t'.tail
      ensures Rules(t')[q] == RemoveAt(Rules(t), p)[q]
    {
      RemovedSlots(t, p, q);
      RemovedMask(t, p, q);
      SameSlotSameRule(t', q, t, if q < p then q else q + 1);
      RemovedElement(Rules(t), p, q);
    }
    assert Rules(t') == RemoveAt(Rules(t), p);
    var k := Index(Marks(t), p);
    MaskIsStored(t, p);
    assert IndexOf(LiveMasks(t), MaskOf(t, p)) == k;
    MasksAfterRemoval(t, t', k);
  }

  lemma MasksAfterRemoval(t: Table, t': Table, k: nat)
    requires TableInv(t) && Shaped(t') && k < t.maskTail
    requires LiveMasks(t') == LiveMasks(t) || LiveMasks(t') == RemoveAt(LiveMasks(t), k)
    ensures Distinct(LiveMasks(t'))
    ensures forall i :: 0 <= i < t'.maskTail ==> CleanMask(t'.masks[i])
  {
    hide CleanMask;
    var a, b := LiveMasks(t), LiveMasks(t');
    forall i | 0 <= i < t'.maskTail
      ensures CleanMask(t'.masks[i])
    {
      assert t'.masks[i] == b[i];
      assert b[i] == a[i] || (i + 1 < |a| && b[i] == a[i + 1]);
    }
  }

  lemma RemovedTail(t: Table, p: nat)
    requires Sound(t, t.tail) && p < t.tail
    ensures Shaped(RemovedT(t, p)) && RemovedT(t, p).tail == t.tail - 1
  {
  }

  lemma DeleteRefines(t: Table, pkt: MatchField)
    requires TableInv(t) && Sound(t, t.tail) && Lookup(Abs(t), pkt) >= 0
    ensures SearchT(t, pkt).1 >= 0
    ensures var (t', r) := DeleteT(t, pkt);
            TableInv(t') && Sound(t', t'.tail) && (Abs(t'), r) == DeleteR(Abs(t), pkt)
  {
    hide Lookup, RemovedT, Abs, RemoveR, TableInv, GroupInv, Sound;
    SearchRefines(t, pkt);
    var (t1, p) := SearchT(t, pkt);
    SearchTail(t, pkt);
    RemoveRefines(t1, p);
  }

  /** A delete takes out the rule that the search returns, and hands out its position. */
  lemma DeleteTakesTheWinner(t: Table, pkt: MatchField)
    requires TableInv(t) && Sound(t, t.tail) && SearchT(t, pkt).1 >= 0
    ensures var (t', r) := DeleteT(t, pkt);
            && r == SearchT(t, pkt).1 && Sound(t', t'.tail)
            && Rules(t') == Rules(t)[..r] + Rules(t)[r + 1..]
  {
    hide Lookup, RemovedT, Rules, RemoveR, TableInv, SearchT;
    SearchRefines(t, pkt);
    DeleteRefines(t, pkt);
    DeletedRules(Abs(t), pkt);
  }

  lemma DeletedRules(s: RuleTable, pkt: MatchField)
    requires Lookup(s, pkt) >= 0
    ensures var r := Lookup(s, pkt);
            DeleteR(s, pkt).1 == r && DeleteR(s, pkt).0.rules == s.rules[..r] + s.rules[r + 1..]
  {
    hide Lookup;
  }

  lemma SearchTail(t: Table, pkt: MatchField)
    requires Sound(t, t.tail)
    ensures SearchT(t, pkt).0.tail == t.tail && SearchT(t, pkt).1 < t.tail
  {
  }

  // ---- modify ----

  lemma ModifyRefines(t: Table, pkt: MatchField, flag: FlagWord, values: seq<byte>)
    requires TableInv(t) && Sound(t, t.tail) && Lookup(Abs(t), pkt) >= 0
    requires EnoughValues(flag, values)
    ensures SearchT(t, pkt).1 >= 0
    ensures var (t', r) := ModifyT(t, pkt, flag, values);
            TableInv(t') && Sound(t', t'.tail) && (Abs(t'), r) == ModifyR(Abs(t), pkt, flag, values)
  {
    hide Lookup, Rules, ModifiedT, TableInv, Sound, EnoughValues, ModifiedRule;
    SearchRefines(t, pkt);
    SearchTail(t, pkt);
    var (t1, p) := SearchT(t, pkt);
    ModifiedRules(t1, p, flag, values);
  }

  lemma ModifiedRules(t: Table, p: nat, flag: FlagWord, values: seq<byte>)
    requires TableInv(t) && Sound(t, t.tail) && p < t.tail && EnoughValues(flag, values)
    ensures var t' := ModifiedT(t, p, flag, values);
            && TableInv(t') && Sound(t', t'.tail)
            && Abs(t') == Abs(t).(rules := Rules(t)[p := ModifiedRule(Rules(t)[p], flag, values)])
  {
    hide Index, CleanMask, Normalised, WithBit, BitOf, EditedTo, Value, Fields.ByteOf, OrFlags, Selected, EnoughValues;
    var t' := ModifiedT(t, p, flag, values);
    assert EditedRow(t.rows[p], flag, values)[..PRIORITY] == t.rows[p][..PRIORITY];
    assert forall q :: 0 <= q < t.tail ==> t'.rows[q][44] == t.rows[q][44];
    assert Marks(t') == Marks(t);
    assert LiveMasks(t') == LiveMasks(t);
    forall q | 0 <= q < t.tail
      ensures Rules(t')[q] == if q == p then ModifiedRule(Rules(t)[p], flag, values) else Rules(t)[q]
    {
      assert MaskOf(t', q) == MaskOf(t, q);
    }
    assert Rules(t') == Rules(t)[p := ModifiedRule(Rules(t)[p], flag, values)];
  }
}
