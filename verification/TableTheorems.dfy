/**
 Results about the flow tables over whole runs, and exactly when an add does
 what its caller means.
 */
module TableTheorems {
  import opened Bytes
  import opened Fields
  import opened Lists
  import opened MaskGroups
  import opened Matching
  import opened Priority
  import opened FlowModel
  import opened ModifyModel
  import opened RuleList
  import opened Refinement
  import opened Duplicates

  // ---- runs ----

  ghost predicate CanStep(t: Table, op: Op) {
    && GroupInv(t) && Sound(t, t.tail)
    && match op
       case Add(mask, _, _, _) => MaskRoom(t, mask)
       case Delete(pkt) => SearchT(t, pkt).1 >= 0
       case Modify(pkt, flag, values) => SearchT(t, pkt).1 >= 0 && EnoughValues(flag, values)
       case Search(_) => true
  }

  ghost function StepT(v: Line221, t: Table, op: Op): (Table, int)
    requires CanStep(t, op)
  {
    match op
    case Add(mask, entry, action, flag) => AddT(v, t, mask, entry, action, flag)
    case Delete(pkt) => DeleteT(t, pkt)
    case Modify(pkt, flag, values) => ModifyT(t, pkt, flag, values)
    case Search(pkt) => SearchT(t, pkt)
  }

  ghost predicate CanRun(v: Line221, t: Table, ops: seq<Op>)
    decreases |ops|
  {
    |ops| == 0 || (CanStep(t, ops[0]) && CanRun(v, StepT(v, t, ops[0]).0, ops[1..]))
  }

  ghost function RunT(v: Line221, t: Table, ops: seq<Op>): (Table, seq<int>)
    requires CanRun(v, t, ops)
    decreases |ops|
  {
    if |ops| == 0 then (t, [])
    else
      var (t1, r) := StepT(v, t, ops[0]);
      var (t2, rs) := RunT(v, t1, ops[1..]);
      (t2, [r] + rs)
  }

  lemma StepRefines(v: Line221, t: Table, op: Op)
    requires TableInv(t) && Sound(t, t.tail) && Legal(Abs(t), op)
    ensures CanStep(t, op)
    ensures var (t', r) := StepT(v, t, op);
            TableInv(t') && Sound(t', t'.tail) && (Abs(t'), r) == StepR(v, Abs(t), op)
  {
    hide AddT, DeleteT, ModifyT, SearchT, AddR, DeleteR, ModifyR, AddIsSafe, Abs, TableInv, Sound, MaskRoom, Lookup;
    assert GroupInv(t) by { TableInvIsGroupInv(t); }
    assert |Abs(t).rules| == t.tail by { AbsLength(t); }
    match op
    case Add(mask, entry, action, flag) => AddRefines(v, t, mask, entry, action, flag);
    case Delete(pkt) => DeleteRefines(t, pkt);
    case Modify(pkt, flag, values) => ModifyRefines(t, pkt, flag, values);
    case Search(pkt) => SearchRefines(t, pkt);
  }

  lemma AbsLength(t: Table)
    requires Sound(t, t.tail)
    ensures |Abs(t).rules| == t.tail
  {
  }

  /**
   Over any legal run of adds, deletes, modifications and searches the tables
   and the list of rules return the same results and end in corresponding
   states.
   */
  lemma {:induction false} RunRefines(v: Line221, t: Table, ops: seq<Op>)
    requires TableInv(t) && Sound(t, t.tail) && LegalRun(v, Abs(t), ops)
    ensures CanRun(v, t, ops)
    ensures var (t', rs) := RunT(v, t, ops);
            TableInv(t') && Sound(t', t'.tail) && (Abs(t'), rs) == RunR(v, Abs(t), ops)
    decreases |ops|
  {
    hide TableInv, Sound, Abs, StepT, StepR, Legal, CanStep;
    if |ops| > 0 {
      StepRefines(v, t, ops[0]);
      RunRefines(v, StepT(v, t, ops[0]).0, ops[1..]);
    }
  }

  /** An empty table stands for the empty list, whatever its arrays contain. */
  lemma EmptyTable(t: Table)
    requires Shaped(t) && t.tail == 0 && t.maskTail == 0
    ensures TableInv(t) && FirstGroupOwned(t) && Sound(t, 0) && Abs(t) == EMPTY
  {
  }

  // ---- groups ----

  /**
   While the first group has not been emptied, every stored mask owns a
   non-empty contiguous group of rows, there are at most as many masks as rows,
   and so there is always room for the mask of a row that still fits.
   */
  lemma EveryMaskOwnsAGroup(t: Table, k: nat)
    requires GroupInv(t) && FirstGroupOwned(t)
    ensures t.maskTail <= t.tail
    ensures k < t.maskTail ==>
              var start := Locate(Marks(t), k);
              && 0 <= start < GroupEnd(Marks(t), start) <= t.tail
              && forall q :: 0 <= q < t.tail ==> (Index(Marks(t), q) == k <==> start <= q < GroupEnd(Marks(t), start))
  {
    hide Index, Locate, GroupEnd;
    var m := Marks(t);
    if t.tail > 0 {
      IndexStep(m, 0);
      CountSplit(m, 1, |m|);
      IndexIsCount(m, 0);
      assert m[..|m|] == m;
      if k < t.maskTail {
        IndexMonotone(m, 0, 0);
        MaskOfLocatedGroup(m, k);
        forall q | 0 <= q < t.tail
          ensures Index(m, q) == k <==> Locate(m, k) <= q < GroupEnd(m, Locate(m, k))
        {
          GroupExtent(m, Locate(m, k), q);
        }
      }
    }
  }

  // ---- exactly when an add does what it means ----

  /** The add inserted one rule, the intended one, at the position it returned. */
  ghost predicate Inserted(t: Table, t': Table, pos: nat, rule: Rule) {
    && Sound(t, t.tail) && Sound(t', t'.tail)
    && pos <= t.tail
    && Rules(t') == InsertAt(Rules(t), pos, rule)
  }

  /** A mask that is stored but owns no rule can only be the first one, left behind by a deletion. */
  lemma UnownedIsFirst(t: Table, mask: MatchField)
    requires TableInv(t) && Sound(t, t.tail) && t.tail > 0
    requires mask in LiveMasks(t) && !OwnsRule(Rules(t), mask)
    ensures IndexOf(LiveMasks(t), mask) == 0 && Marked(t.rows[0])
  {
    hide Index, RuleAt, Locate;
    var m := Marks(t);
    var k := IndexOf(LiveMasks(t), mask);
    IndexStep(m, 0);
    if Index(m, 0) <= k {
      MaskOfLocatedGroup(m, k);
      var g := Locate(m, k);
      SameMaskSameGroup(t, g, k);
      MaskIsStored(t, g);
    }
  }

  /**
   Read by byte, an add under a stored mask is called redundant exactly when a rule of
   that mask agrees with the entry on all masked bits; or, if the mask has lost its
   rules, when one of the first rows does that the code takes for the mask's group. In
   a table emptied by deletions that is the deleted row 0.
   */
  lemma ScanByByteIsExact(t: Table, mask: MatchField, entry: Entry, action: ActionSet, flag: FlagWord)
    requires TableInv(t) && Sound(t, t.tail) && t.tail < NO_F_FLWS
    requires mask in LiveMasks(t) && MaskRoom(t, mask)
    ensures AddT(ByByte, t, mask, entry, action, flag).1 == RDNDNT
            <==> if OwnsRule(Rules(t), mask)
                 then exists i :: 0 <= i < t.tail && Rules(t)[i].mask == mask && Agree(mask, entry, Rules(t)[i].fields)
                 else exists r :: 0 <= r < GroupEnd(Marks(t), 0) && r < NO_F_FLWS && Agree(mask, entry, t.rows[r])
  {
    hide Agree, Locate, GroupEnd, IndexOf, TableInv, MarkerFree, Rules, Placed, ScanHits;
    StoredIsMarkerFree(t, mask);
    RulesLength(t);
    LocatedGroupEnds(t, mask);
    if OwnsRule(Rules(t), mask) {
      ScanRefines(ByByte, t, mask, entry);
      forall i | 0 <= i < t.tail
        ensures ScanHits(ByByte, mask, entry, Rules(t)[i].fields, i) == Agree(mask, entry, Rules(t)[i].fields)
      {
        ByByteIsAgree(mask, entry, Rules(t)[i].fields, i);
      }
    } else {
      assert Locate(Marks(t), IndexOf(LiveMasks(t), mask)) == 0 by { UnownedIsLocatedFirst(t, mask); }
      forall r | 0 <= r < NO_F_FLWS
        ensures ScanHits(ByByte, mask, entry, t.rows[r], r) == Agree(mask, entry, t.rows[r])
      {
        ByByteIsAgree(mask, entry, t.rows[r], r);
      }
    }
  }

  lemma StoredIsMarkerFree(t: Table, mask: MatchField)
    requires TableInv(t) && mask in LiveMasks(t)
    ensures MarkerFree(mask)
  {
    assert CleanMask(t.masks[IndexOf(LiveMasks(t), mask)]);
  }

  lemma UnownedIsLocatedFirst(t: Table, mask: MatchField)
    requires TableInv(t) && Sound(t, t.tail) && mask in LiveMasks(t) && !OwnsRule(Rules(t), mask)
    ensures Locate(Marks(t), IndexOf(LiveMasks(t), mask)) == 0
  {
    if t.tail > 0 {
      UnownedIsFirst(t, mask);
    }
  }

  /**
   What the caller of an add means: a full table and a rule that is there already are
   reported as such, and nothing changes; otherwise the rule is inserted.
   */
  ghost predicate AnswerIsRight(v: Line221, t: Table, t': Table, r: int, mask: MatchField, entry: Entry,
                                action: ActionSet, flag: FlagWord)
    requires Sound(t, t.tail)
  {
    if t.tail >= NO_F_FLWS then r == TBL_FULL && t' == t
    else if TakenForDuplicate(v, Rules(t), mask, entry) then r == RDNDNT && t' == t
    else r >= 0 && Inserted(t, t', r, NewRule(mask, entry, action, flag))
  }

  /**
   An add of a clean mask to a table with a free slot does what its caller means if and
   only if it is safe. In the two unsafe cases, a table emptied by deletions and a mask
   whose group has been emptied, it is refused because of a row that is no rule of
   that mask, or the row ends up under another mask, or an old deleted row comes back to
   life in its place.
   */
  lemma AddWorksExactly(v: Line221, t: Table, mask: MatchField, entry: Entry, action: ActionSet, flag: FlagWord)
    requires TableInv(t) && Sound(t, t.tail) && CleanMask(mask) && MaskRoom(t, mask)
    ensures var (t', r) := AddT(v, t, mask, entry, action, flag);
            AnswerIsRight(v, t, t', r, mask, entry, action, flag) <==> t.tail >= NO_F_FLWS || AddIsSafe(Abs(t), mask)
  {
    hide CleanMask, MaskRoom, TableInv, NewRule, Inserted, TakenForDuplicate, Locate, GroupEnd, DuplicateIn, Placed,
      AddIsSafe;
    var (t', r) := AddT(v, t, mask, entry, action, flag);
    if t.tail < NO_F_FLWS {
      if AddIsSafe(Abs(t), mask) {
        AddRefines(v, t, mask, entry, action, flag);
        AbsLength(t);
        if r >= 0 {
          AddInserts(v, t, mask, entry, action, flag);
        }
      } else {
        UnsafeTakesNone(v, t, mask, entry);
        if r >= 0 {
          UnsafeIsMisplaced(v, t, mask, entry, action, flag);
        }
      }
    }
  }

  /**
   When an add would leave the tables: the slot it writes a new mask to, or the row at which it begins
   to look for the group of a stored one, does not exist.
   */
  lemma AddLeavesTheTables(t: Table, mask: MatchField)
    requires Shaped(t)
    ensures !MaskRoom(t, mask)
            <==> t.tail < NO_F_FLWS
                 && if mask in LiveMasks(t) then Count(Marks(t)) < IndexOf(LiveMasks(t), mask)
                    else t.maskTail == NO_F_FLWS
  {
    hide Count, IndexOf;
    if mask in LiveMasks(t) && IndexOf(LiveMasks(t), mask) > 0 {
      LocateMarkerSpec(Marks(t), IndexOf(LiveMasks(t), mask));
    }
  }

  /**
   Under the group invariant that is so exactly for a new mask in a table with one row free, no two rows
   under one mask, and none under the first, whose group has been emptied.
   */
  lemma AddLeavesTheTablesExactly(t: Table, mask: MatchField)
    requires GroupInv(t)
    ensures !MaskRoom(t, mask)
            <==> t.tail == NO_F_FLWS - 1 && mask !in LiveMasks(t)
                 && forall p :: 0 <= p < t.tail ==> Marked(t.rows[p])
  {
    hide Count, Marked, Normalised;
    if mask in LiveMasks(t) {
      StoredMaskHasPlace(t, mask);
    } else {
      CountFull(Marks(t));
      assert forall p :: 0 <= p < t.tail ==> Marks(t)[p] == Marked(t.rows[p]);
    }
  }

  lemma UnsafeTakesNone(v: Line221, t: Table, mask: MatchField, entry: Entry)
    requires TableInv(t) && Sound(t, t.tail) && t.tail < NO_F_FLWS
    requires CleanMask(mask) && MaskRoom(t, mask) && !AddIsSafe(Abs(t), mask)
    ensures !TakenForDuplicate(v, Rules(t), mask, entry)
  {
    hide ScanHits, CleanMask, MaskRoom;
    if t.tail > 0 {
      UnsafeIsUnowned(t, mask);
    }
  }

  lemma UnsafeIsMisplaced(v: Line221, t: Table, mask: MatchField, entry: Entry, action: ActionSet, flag: FlagWord)
    requires TableInv(t) && Sound(t, t.tail) && t.tail < NO_F_FLWS
    requires CleanMask(mask) && MaskRoom(t, mask) && !AddIsSafe(Abs(t), mask)
    requires AddT(v, t, mask, entry, action, flag).1 >= 0
    ensures var (t', pos) := AddT(v, t, mask, entry, action, flag);
            !Inserted(t, t', pos, NewRule(mask, entry, action, flag))
  {
    hide WithMarker, ScanHits, CleanMask, Normalised, RuleAt, BitOf, AddT;
    var (t', pos) := AddT(v, t, mask, entry, action, flag);
    if Inserted(t, t', pos, NewRule(mask, entry, action, flag)) {
      assert Rules(t')[pos].mask == mask;
      MaskIsStored(t', pos);
      if t.tail == 0 {
        assert pos == 0;
        AddToLeftover(v, t, mask, entry, action, flag);
      } else {
        UnsafeIsUnowned(t, mask);
        UnownedIsFirst(t, mask);
        AddToUnowned(v, t, mask, entry, action, flag);
      }
      assert false;
    }
  }

  lemma UnsafeIsUnowned(t: Table, mask: MatchField)
    requires TableInv(t) && Sound(t, t.tail) && 0 < t.tail < NO_F_FLWS
    requires CleanMask(mask) && MaskRoom(t, mask) && !AddIsSafe(Abs(t), mask)
    ensures mask in LiveMasks(t) && !OwnsRule(Rules(t), mask)
  {
  }

  lemma AddInserts(v: Line221, t: Table, mask: MatchField, entry: Entry, action: ActionSet, flag: FlagWord)
    requires TableInv(t) && Sound(t, t.tail) && t.tail < NO_F_FLWS
    requires AddIsSafe(Abs(t), mask) && MaskRoom(t, mask)
    requires AddT(v, t, mask, entry, action, flag).1 >= 0
    ensures var (t', pos) := AddT(v, t, mask, entry, action, flag);
            Inserted(t, t', pos, NewRule(mask, entry, action, flag))
  {
    hide AddT, AddIsSafe, Sound, TableInv, NewRule, InsertAt, AfterLast, TakenForDuplicate;
    AddRefines(v, t, mask, entry, action, flag);
    AbsLength(t);
  }

  /** An accepted safe add puts the rule behind the last one of its mask, or behind all others if the mask is new. */
  lemma AddedAtGroupEnd(v: Line221, t: Table, mask: MatchField, entry: Entry, action: ActionSet, flag: FlagWord)
    requires TableInv(t) && Sound(t, t.tail) && t.tail < NO_F_FLWS
    requires AddIsSafe(Abs(t), mask) && AddR(v, Abs(t), mask, entry, action, flag).1 >= 0
    ensures MaskRoom(t, mask)
    ensures var (t', pos) := AddT(v, t, mask, entry, action, flag);
            && 0 <= pos <= t.tail && Sound(t', t'.tail)
            && Rules(t') == Rules(t)[..pos] + [NewRule(mask, entry, action, flag)] + Rules(t)[pos..]
            && (if mask in LiveMasks(t) then pos > 0 && Rules(t)[pos - 1].mask == mask else pos == t.tail)
            && forall i :: pos <= i < t.tail ==> Rules(t)[i].mask != mask
  {
    hide AddT, NewRule, TakenForDuplicate, CleanMask, TableInv, Rules;
    RulesLength(t);
    AddRefines(v, t, mask, entry, action, flag);
  }

  /** In a table emptied by deletions the new row gets the left-over mask, or is placed out of sight. */
  lemma AddToLeftover(v: Line221, t: Table, mask: MatchField, entry: Entry, action: ActionSet, flag: FlagWord)
    requires TableInv(t) && t.tail == 0 && t.maskTail == 1 && CleanMask(mask) && MaskRoom(t, mask)
    requires AddT(v, t, mask, entry, action, flag).1 >= 0
    ensures var (t', pos) := AddT(v, t, mask, entry, action, flag);
            pos == 1 || (pos == 0 && Sound(t', t'.tail) && t'.tail == 1 && MaskOf(t', 0) != mask)
    ensures mask in LiveMasks(t) ==>
            var (t', pos) := AddT(v, t, mask, entry, action, flag);
            pos == 1 && t'.tail == 1 && t'.rows[0] == t.rows[0] && t'.acts[0] == t.acts[0]
  {
    hide WithMarker, ScanHits, Normalised, BitOf;
    var (t', pos) := AddT(v, t, mask, entry, action, flag);
    if mask !in LiveMasks(t) {
      assert LiveMasks(t)[0] == t.masks[0] != mask;
      MarkerWritten(Stored(entry), false);
      assert Marks(t') == [false];
      assert Index(Marks(t'), 0) == 0;
    }
  }

  /** When the first mask has lost its group, a rule added under it joins the next mask's group. */
  lemma AddToUnowned(v: Line221, t: Table, mask: MatchField, entry: Entry, action: ActionSet, flag: FlagWord)
    requires TableInv(t) && Sound(t, t.tail) && 0 < t.tail < NO_F_FLWS && MaskRoom(t, mask)
    requires mask in LiveMasks(t) && IndexOf(LiveMasks(t), mask) == 0 && Marked(t.rows[0])
    requires AddT(v, t, mask, entry, action, flag).1 >= 0
    ensures var (t', pos) := AddT(v, t, mask, entry, action, flag);
            Sound(t', t'.tail) && pos < t'.tail && MaskOf(t', pos) == t.masks[1] != mask
  {
    hide WithMarker, Marked, ScanHits, Index, GroupEnd, RuleAt, Normalised;
    var m := Marks(t);
    var pos := GroupEnd(m, 0);
    IndexStep(m, 0);
    GroupExtent(m, 0, pos - 1);
    IndexIsCount(m, pos - 1);
    IndexMonotone(m, 0, 0);
    MarkerWritten(Stored(entry), false);
    assert LiveMasks(t)[0] == mask && LiveMasks(t)[1] == t.masks[1];
    InsertedRules(t, t, pos, WithMarker(Stored(entry), false), action, flag);
  }

  /**
   Every add keeps the group invariant, whatever the mask, unless deletions have emptied
   the table. Then it is kept exactly when the mask left behind is added again and either
   the scan refuses it or the deleted row 0, which comes back to life, has no marker.
   */
  lemma AddKeepsGroupInv(v: Line221, t: Table, mask: MatchField, entry: Entry, action: ActionSet, flag: FlagWord)
    requires GroupInv(t) && MaskRoom(t, mask)
    ensures var (t', r) := AddT(v, t, mask, entry, action, flag);
            GroupInv(t') <==> (t.tail == 0 && t.maskTail > 0 ==>
                                 mask in LiveMasks(t) && (r == RDNDNT || !Marked(t.rows[0])))
    ensures FirstGroupOwned(t) ==> FirstGroupOwned(AddT(v, t, mask, entry, action, flag).0)
  {
    hide GroupInv, FirstGroupOwned, AddT;
    if t.tail == 0 && t.maskTail > 0 {
      AddToEmptiedInv(v, t, mask, entry, action, flag);
    } else {
      AddKeepsUsualInv(v, t, mask, entry, action, flag);
    }
  }

  lemma AddToEmptiedInv(v: Line221, t: Table, mask: MatchField, entry: Entry, action: ActionSet, flag: FlagWord)
    requires GroupInv(t) && MaskRoom(t, mask) && t.tail == 0 && t.maskTail > 0
    ensures var (t', r) := AddT(v, t, mask, entry, action, flag);
            GroupInv(t') <==> mask in LiveMasks(t) && (r == RDNDNT || !Marked(t.rows[0]))
    ensures !FirstGroupOwned(t)
  {
    hide WithMarker, Marked, ScanHits, Normalised;
    var (t', r) := AddT(v, t, mask, entry, action, flag);
    if r >= 0 {
      assert |LiveMasks(t)| == 1;
      assert Count([true]) == 1 + Count([]) && Count([false]) == Count([]);
      if mask in LiveMasks(t) {
        assert Marks(t') == [Marked(t.rows[0])];
      } else {
        MarkerWritten(Stored(entry), false);
        assert Marks(t') == [false];
      }
    }
  }

  /**
   Where the invariant is lost, the row can still have a mask, so that searches go on: exactly when the add
   has stored a mask, or the row that comes back to life has no marker.
   */
  lemma AddToEmptiedIsSoundExactly(v: Line221, t: Table, mask: MatchField, entry: Entry, action: ActionSet,
                                   flag: FlagWord)
    requires GroupInv(t) && MaskRoom(t, mask) && t.tail == 0 && t.maskTail > 0
    requires AddT(v, t, mask, entry, action, flag).1 >= 0
    ensures var t' := AddT(v, t, mask, entry, action, flag).0;
            && Shaped(t') && t'.tail == 1
            && (Sound(t', 1) <==> mask !in LiveMasks(t) || !Marked(t.rows[0]))
  {
    hide WithMarker, Marked, ScanHits, Normalised;
    var t' := AddT(v, t, mask, entry, action, flag).0;
    if mask in LiveMasks(t) {
      assert Marks(t') == [Marked(t.rows[0])];
    } else {
      MarkerWritten(Stored(entry), false);
      assert Marks(t') == [false];
    }
    OneIndex(Marks(t'));
  }

  lemma OneIndex(m: seq<bool>)
    requires |m| == 1
    ensures Index(m, 0) == Count(m) == if m[0] then 1 else 0
  {
    assert m[..1] == m;
  }

  lemma AddKeepsUsualInv(v: Line221, t: Table, mask: MatchField, entry: Entry, action: ActionSet, flag: FlagWord)
    requires GroupInv(t) && MaskRoom(t, mask)
    requires t.tail == 0 ==> t.maskTail == 0
    ensures GroupInv(AddT(v, t, mask, entry, action, flag).0)
    ensures FirstGroupOwned(t) ==> FirstGroupOwned(AddT(v, t, mask, entry, action, flag).0)
  {
    hide WithMarker, Marked, ScanHits, Normalised, GroupEnd, Locate, Count;
    var (t', pos) := AddT(v, t, mask, entry, action, flag);
    if pos >= 0 {
      GroupInvIsSound(t);
      NormalisedIdempotent(mask);
      if mask in LiveMasks(t) {
        LocatedGroupEnds(t, mask);
        var row := WithMarker(Stored(entry), false);
        MarkerWritten(Stored(entry), false);
        PlacedMarks(t, pos, row, action, flag);
        CountAfterInsert(Marks(t), pos, false);
        assert pos > 0;
        assert t'.rows[0] == t.rows[0];
      } else {
        var b := t.tail > 0;
        var row := WithMarker(Stored(entry), b);
        var t1 := WithNewMask(t, mask);
        MarkerWritten(Stored(entry), b);
        PlacedMarks(t1, pos, row, action, flag);
        assert Marks(t1) == Marks(t);
        CountAfterInsert(Marks(t), pos, b);
        if t.tail == 0 { assert Count(Marks(t)) == 0 by { CountNone(Marks(t)); } }
      }
    }
  }

  /** Stored masks stay distinct exactly when a mask is not normalised into one that is stored already. */
  lemma AddKeepsDistinctExactly(v: Line221, t: Table, mask: MatchField, entry: Entry, action: ActionSet, flag: FlagWord)
    requires GroupInv(t) && MaskRoom(t, mask) && Distinct(LiveMasks(t))
    requires AddT(v, t, mask, entry, action, flag).1 >= 0
    ensures Distinct(LiveMasks(AddT(v, t, mask, entry, action, flag).0))
            <==> mask in LiveMasks(t) || Normalised(mask) !in LiveMasks(t)
  {
    hide WithMarker, Marked, ScanHits, Normalised, GroupEnd, Locate, Count;
    var t' := AddT(v, t, mask, entry, action, flag).0;
    var before, now := LiveMasks(t), LiveMasks(t');
    if mask in before {
      assert now == before;
    } else {
      assert now == before + [Normalised(mask)];
      if Normalised(mask) in before {
        var i :| 0 <= i < |before| && before[i] == Normalised(mask);
        assert now[i] == now[|before|];
      }
    }
  }

  /**
   Once the last rule has been deleted its mask stays behind without a rule, and the
   next add, of whatever clean mask, is answered wrongly.
   */
  lemma EmptiedTableMisplacesAdd(v: Line221, t: Table, mask: MatchField, entry: Entry, action: ActionSet,
                                 flag: FlagWord)
    requires TableInv(t) && Sound(t, t.tail) && t.tail == 1 && CleanMask(mask)
    ensures var e := RemovedT(t, 0);
            && TableInv(e) && Sound(e, e.tail) && e.tail == 0 && e.maskTail == 1 && MaskRoom(e, mask)
            && var (t', r) := AddT(v, e, mask, entry, action, flag);
               !AnswerIsRight(v, e, t', r, mask, entry, action, flag)
  {
    hide AddT, AnswerIsRight, CleanMask, NewRule;
    TableInvIsGroupInv(t);
    RemoveRefines(t, 0);
    var e := RemovedT(t, 0);
    EmptiedTails(t);
    AddWorksExactly(v, e, mask, entry, action, flag);
  }

  /**
   In particular, adding a rule with the left-over mask is refused exactly when it agrees with
   the row deleted last, although there is no rule at all.
   */
  lemma DeletedRowRefusesAdd(t: Table, mask: MatchField, entry: Entry, action: ActionSet, flag: FlagWord)
    requires TableInv(t) && Sound(t, t.tail) && t.tail == 1 && mask == t.masks[0]
    ensures var e := RemovedT(t, 0);
            && TableInv(e) && Sound(e, e.tail) && Rules(e) == [] && MaskRoom(e, mask)
            && (AddT(ByByte, e, mask, entry, action, flag).1 == RDNDNT <==> Agree(mask, entry, t.rows[0]))
  {
    hide AddT, CleanMask, NewRule, Agree, RemovedT;
    TableInvIsGroupInv(t);
    RemoveRefines(t, 0);
    var e := RemovedT(t, 0);
    EmptiedTails(t);
    EmptiedRow(t);
    assert LiveMasks(e) == [mask];
    ScanByByteIsExact(e, mask, entry, action, flag);
  }

  lemma EmptiedRow(t: Table)
    requires GroupInv(t) && Sound(t, t.tail) && t.tail == 1
    ensures var e := RemovedT(t, 0); Shaped(e) && e.rows[0] == t.rows[0] && e.masks[0] == t.masks[0]
  {
    hide BitOf, WithBit, Normalised;
    IndexStep(Marks(t), 0);
    assert Marks(t)[..1] == Marks(t);
  }

  lemma EmptiedTails(t: Table)
    requires GroupInv(t) && t.tail == 1
    ensures RemovedT(t, 0).tail == 0 && RemovedT(t, 0).maskTail == 1
  {
    IndexStep(Marks(t), 0);
    assert Marks(t)[..1] == Marks(t);
  }

  // ---- add and delete together ----

  /**
   Adding a rule and deleting it again gives back the same rules; it gives back
   the same masks too exactly when the table was not empty.
   */
  lemma AddThenDelete(v: Line221, t: Table, mask: MatchField, entry: Entry, action: ActionSet, flag: FlagWord,
                      pkt: MatchField)
    requires TableInv(t) && Sound(t, t.tail) && t.tail < NO_F_FLWS
    requires AddIsSafe(Abs(t), mask)
    requires var (s1, pos) := AddR(v, Abs(t), mask, entry, action, flag);
             pos >= 0 && Lookup(s1, pkt) == pos
    ensures MaskRoom(t, mask)
    ensures var (t1, pos) := AddT(v, t, mask, entry, action, flag);
            && Sound(t1, t1.tail) && pos >= 0 && SearchT(t1, pkt).1 == pos
            && var t2 := DeleteT(t1, pkt).0;
               && TableInv(t2) && Sound(t2, t2.tail)
               && Rules(t2) == Rules(t)
               && (LiveMasks(t2) == LiveMasks(t) <==> t.tail > 0)
  {
    hide AddT, DeleteT, SearchT, Sound, TableInv, Lookup, NewRule, AfterLast, TakenForDuplicate, CleanMask;
    TableInvIsGroupInv(t);
    AddRefines(v, t, mask, entry, action, flag);
    var (t1, pos) := AddT(v, t, mask, entry, action, flag);
    TableInvIsGroupInv(t1);
    SearchRefines(t1, pkt);
    DeleteRefines(t1, pkt);
    AbsLength(t);
    forall i | 0 <= i < t.tail
      ensures Rules(t)[i].mask in LiveMasks(t)
    {
      MaskIsStored(t, i);
    }
    RemoveUndoesAdd(v, Abs(t), mask, entry, action, flag);
  }

  lemma RemoveUndoesAdd(v: Line221, s: RuleTable, mask: MatchField, entry: Entry, action: ActionSet, flag: FlagWord)
    requires AddIsSafe(s, mask) && AddR(v, s, mask, entry, action, flag).1 >= 0
    requires forall i :: 0 <= i < |s.rules| ==> s.rules[i].mask in s.masks
    ensures var (s1, pos) := AddR(v, s, mask, entry, action, flag);
            var s2 := RemoveR(s1, pos);
            s2.rules == s.rules && (s2.masks == s.masks <==> s.rules != [])
  {
    hide CleanMask, AfterLast, TakenForDuplicate;
    var (s1, pos) := AddR(v, s, mask, entry, action, flag);
    RemoveInserted(s.rules, pos, NewRule(mask, entry, action, flag));
    var rest := RemoveAt(s1.rules, pos);
    assert rest == s.rules && s1.rules[pos].mask == mask;
    if mask !in s.masks {
      assert !OwnsRule(rest, mask);
      if s.rules != [] {
        assert s.rules[0].mask in s.masks;
        assert s1.masks[0] == s.masks[0] != mask;
        assert IndexOf(s1.masks, mask) == |s.masks| by { assert s1.masks[..|s.masks|] == s.masks; }
        assert RemoveAt(s1.masks, |s.masks|) == s.masks;
      }
    }
  }

  // ---- lookups across changes ----

  /**
   A lookup after an add, predicted from the lookup before it: the new rule wins
   exactly when it matches and either nothing matched, or its priority beats the
   old winner's, or it ties it from an earlier row. Otherwise the old winner
   wins, wherever its row is now, with its own action set.
   */
  lemma LookupAfterAdd(v: Line221, t: Table, mask: MatchField, entry: Entry, action: ActionSet, flag: FlagWord,
                       pkt: MatchField)
    requires TableInv(t) && Sound(t, t.tail) && t.tail < NO_F_FLWS
    requires AddIsSafe(Abs(t), mask) && AddR(v, Abs(t), mask, entry, action, flag).1 >= 0
    ensures MaskRoom(t, mask)
    ensures var (t', pos) := AddT(v, t, mask, entry, action, flag);
            pos >= 0 && Sound(t', t'.tail)
    ensures var (t', pos) := AddT(v, t, mask, entry, action, flag);
            var before, after := SearchT(t, pkt).1, SearchT(t', pkt).1;
            && after == (if Agree(mask, pkt, entry)
                            && (before < 0
                                || t.rows[before][PRIORITY] as nat < entry[PRIORITY] as nat
                                || (t.rows[before][PRIORITY] as nat == entry[PRIORITY] as nat && pos <= before))
                         then pos else ShiftedUp(before, pos))
            && (after == pos ==> t'.acts[after] == action && t'.flags[after] == flag)
            && (after != pos && after >= 0 ==>
                  t'.acts[after] == t.acts[before] && t'.flags[after] == t.flags[before])
  {
    hide AddT, AddIsSafe, AddR, TableInv, Agree, WithMarker, CleanMask, Lookup, SearchT, RuleMatches, Abs, Inserted;
    AddRefines(v, t, mask, entry, action, flag);
    AddInserts(v, t, mask, entry, action, flag);
    var (t', pos) := AddT(v, t, mask, entry, action, flag);
    LookupAfterPlacing(t, t', pos, NewRule(mask, entry, action, flag), pkt);
    SafeIsClean(t, mask);
    NewRuleMatches(mask, entry, action, flag, pkt);
  }

  lemma LookupAfterPlacing(t: Table, t': Table, pos: nat, rule: Rule, pkt: MatchField)
    requires TableInv(t) && TableInv(t') && Inserted(t, t', pos, rule)
    ensures var before, after := SearchT(t, pkt).1, SearchT(t', pkt).1;
            && before < t.tail && after < t'.tail
            && after == (if RuleMatches(rule, pkt)
                            && (before < 0
                                || t.rows[before][PRIORITY] as nat < rule.priority as nat
                                || (t.rows[before][PRIORITY] as nat == rule.priority as nat && pos <= before))
                         then pos else ShiftedUp(before, pos))
            && (after == pos ==> t'.acts[after] == rule.action && t'.flags[after] == rule.flag)
            && (after != pos && after >= 0 ==>
                  t'.acts[after] == t.acts[before] && t'.flags[after] == t.flags[before])
  {
    hide TableInv, RuleMatches, WithMarker, Best, Marks, MaskOf, Lookup, SearchT, InsertAt, RuleCandidates;
    SearchRefines(t, pkt);
    SearchRefines(t', pkt);
    LookupIsBest(Abs(t), pkt);
    LookupIsBest(Abs(t'), pkt);
    LookupAfterInsert(Rules(t), pos, rule, pkt);
  }

  lemma LookupAfterInsert(rules: seq<Rule>, pos: nat, rule: Rule, pkt: MatchField)
    requires pos <= |rules|
    ensures var now := InsertAt(rules, pos, rule);
            var before, after := Best(RuleCandidates(rules, pkt)), Best(RuleCandidates(now, pkt));
            && after == (if RuleMatches(rule, pkt)
                            && (before < 0 || rules[before].priority as nat < rule.priority as nat
                                || (rules[before].priority as nat == rule.priority as nat && pos <= before))
                         then pos else ShiftedUp(before, pos))
            && (after >= 0 ==> now[after] == if after == pos then rule else rules[before])
  {
    hide Best, RuleMatches, InsertAt;
    var c := RuleCandidates(rules, pkt);
    var now := InsertAt(rules, pos, rule);
    var x := Candidate(RuleMatches(rule, pkt), rule.priority as nat);
    forall i | 0 <= i < |now|
      ensures RuleCandidates(now, pkt)[i] == InsertAt(c, pos, x)[i]
    {
      InsertedElement(c, pos, x, i);
      InsertedElement(rules, pos, rule, i);
    }
    assert RuleCandidates(now, pkt) == InsertAt(c, pos, x);
    BestAfterInsert(c, pos, x);
    var after := Best(RuleCandidates(now, pkt));
    if after >= 0 {
      InsertedElement(rules, pos, rule, after);
    }
  }

  lemma LookupIsBest(s: RuleTable, pkt: MatchField)
    ensures Lookup(s, pkt) == Best(RuleCandidates(s.rules, pkt))
  {
  }

  lemma SafeIsClean(t: Table, mask: MatchField)
    requires Sound(t, t.tail) && AddIsSafe(Abs(t), mask)
    ensures CleanMask(mask)
  {
  }

  /** Deleting a rule changes no lookup that another rule wins. */
  lemma LookupAfterDelete(t: Table, p: nat, pkt: MatchField)
    requires TableInv(t) && Sound(t, t.tail) && p < t.tail
    requires SearchT(t, pkt).1 != p
    ensures var t' := RemovedT(t, p);
            Sound(t', t'.tail)
    ensures var t' := RemovedT(t, p);
            var before, after := SearchT(t, pkt).1, SearchT(t', pkt).1;
            && ShiftedUp(after, p) == before
            && (after >= 0 ==> t'.acts[after] == t.acts[before] && t'.flags[after] == t.flags[before])
  {
    hide RemovedT, TableInv, WithMarker, Best, Marks, MaskOf, Lookup, SearchT, RemoveAt, RuleCandidates;
    TableInvIsGroupInv(t);
    RemoveRefines(t, p);
    var t' := RemovedT(t, p);
    SearchRefines(t, pkt);
    SearchRefines(t', pkt);
    LookupIsBest(Abs(t), pkt);
    LookupIsBest(Abs(t'), pkt);
    LookupAfterRemove(Rules(t), p, pkt);
  }

  lemma LookupAfterRemove(rules: seq<Rule>, p: nat, pkt: MatchField)
    requires p < |rules| && Best(RuleCandidates(rules, pkt)) != p
    ensures var now := RemoveAt(rules, p);
            var before, after := Best(RuleCandidates(rules, pkt)), Best(RuleCandidates(now, pkt));
            && ShiftedUp(after, p) == before
            && (after >= 0 ==> now[after] == rules[before])
  {
    hide Best, RuleMatches, RemoveAt;
    var c := RuleCandidates(rules, pkt);
    var now := RemoveAt(rules, p);
    forall i | 0 <= i < |now|
      ensures RuleCandidates(now, pkt)[i] == RemoveAt(c, p)[i]
    {
      RemovedElement(c, p, i);
      RemovedElement(rules, p, i);
    }
    assert RuleCandidates(now, pkt) == RemoveAt(c, p);
    BestAfterRemove(c, p);
    var after := Best(RuleCandidates(now, pkt));
    if after >= 0 {
      RemovedElement(rules, p, after);
    }
  }

  // ---- what an add stores, and what moving rows costs ----

  /**
   An accepted add stores the entry bit for bit, but for bit 356, which says whether the row begins the group
   of a mask other than the first; then a counter at 0 and a timeout at 255; and in the same slot
   the action set and the flag word.
   */
  lemma AddedRow(v: Line221, t: Table, mask: MatchField, entry: Entry, action: ActionSet, flag: FlagWord)
    requires Shaped(t) && MaskRoom(t, mask) && AddT(v, t, mask, entry, action, flag).1 >= 0
    ensures var (t', pos) := AddT(v, t, mask, entry, action, flag);
            && pos < 20
            && (forall q :: 0 <= q < 8 * 46 ==>
                  Bit(t'.rows[pos], q) == if q == 356 then mask !in LiveMasks(t) && t.tail > 0 else Bit(entry, q))
            && t'.rows[pos][46] == 0 && t'.rows[pos][47] == 255
            && t'.acts[pos] == action && t'.flags[pos] == flag
  {
    hide Bit, WithMarker, DuplicateIn, Locate, GroupEnd, IndexOf, Normalised, MovedDown, Stored;
    if mask in LiveMasks(t) {
      LocatedGroupEnds(t, mask);
    }
    StoredRowBits(entry, mask !in LiveMasks(t) && t.tail > 0);
  }

  lemma StoredRowBits(entry: Entry, b: bool)
    ensures var row := WithMarker(Stored(entry), b);
            && |row| == 48 && row[46] == 0 && row[47] == 255
            && forall q :: 0 <= q < 8 * 46 ==> Bit(row, q) == if q == 356 then b else Bit(entry, q)
  {
    hide BitOf, WithBit;
    forall q | 0 <= q < 8 * 46
      ensures Bit(WithMarker(Stored(entry), b), q) == if q == 356 then b else Bit(entry, q)
    {
      WithMarkerBits(Stored(entry), b, q);
      assert Stored(entry)[q / 8] == entry[q / 8];
    }
  }

  /** The rows that make room start again at counter 0 and timeout 255; those before them keep theirs. */
  lemma CountersAfterAdd(v: Line221, t: Table, mask: MatchField, entry: Entry, action: ActionSet, flag: FlagWord,
                         q: nat)
    requires Shaped(t) && MaskRoom(t, mask) && AddT(v, t, mask, entry, action, flag).1 >= 0 && q <= t.tail
    ensures var (t', pos) := AddT(v, t, mask, entry, action, flag);
            && t'.tail == t.tail + 1
            && (q < pos && q < t.tail ==>
                  t'.rows[q][46] == t.rows[q][46] && t'.rows[q][47] == t.rows[q][47])
            && (pos <= q ==> t'.rows[q][46] == 0 && t'.rows[q][47] == 255)
  {
    hide Bit, BitOf, WithBit, DuplicateIn, Locate, GroupEnd, IndexOf, Normalised;
    if mask in LiveMasks(t) {
      LocatedGroupEnds(t, mask);
    }
  }

  /** So do those that move up when a row is deleted. */
  lemma CountersAfterDelete(t: Table, p: nat, q: nat)
    requires Sound(t, t.tail) && p < t.tail && q + 1 < t.tail
    ensures var t' := RemovedT(t, p);
            && Shaped(t') && t'.tail == t.tail - 1
            && (q < p ==> t'.rows[q][46] == t.rows[q][46] && t'.rows[q][47] == t.rows[q][47])
            && (p <= q ==> t'.rows[q][46] == 0 && t'.rows[q][47] == 255)
  {
    hide BitOf, WithBit, Index, Normalised;
    RemovedTail(t, p);
  }

  // ---- packet counters ----

  function SearchAll(t: Table, pkts: seq<MatchField>): Table
    requires Sound(t, t.tail)
    decreases |pkts|
  {
    if |pkts| == 0 then t
    else
      SearchKeeps(t, pkts[0]);
      SearchAll(SearchT(t, pkts[0]).0, pkts[1..])
  }

  /** How many of the packets row `p` matches, winner or not. */
  function Hits(t: Table, pkts: seq<MatchField>, p: nat): nat
    requires Sound(t, t.tail) && p < t.tail
  {
    if |pkts| == 0 then 0
    else (if Matches(t, p, pkts[0]) then 1 else 0) + Hits(t, pkts[1..], p)
  }

  lemma {:induction false} HitsUnaffected(t: Table, t': Table, pkts: seq<MatchField>, p: nat)
    requires Sound(t, t.tail) && Sound(t', t'.tail) && p < t.tail == t'.tail
    requires forall pkt :: Matches(t', p, pkt) == Matches(t, p, pkt)
    ensures Hits(t', pkts, p) == Hits(t, pkts, p)
    decreases |pkts|
  {
    hide Matches, Sound;
    if |pkts| > 0 {
      HitsUnaffected(t, t', pkts[1..], p);
    }
  }

  lemma MatchesUnaffected(t: Table, pkt: MatchField, p: nat, other: MatchField)
    requires Sound(t, t.tail) && p < t.tail
    ensures var t' := SearchT(t, pkt).0;
            Sound(t', t'.tail) && Matches(t', p, other) == Matches(t, p, other)
  {
    hide Agree, BitOf, Index;
    SearchKeeps(t, pkt);
    var t' := SearchT(t, pkt).0;
    AgreeOnPrefix(MaskOf(t, p), other, t.rows[p]);
    AgreeOnPrefix(MaskOf(t, p), other, t'.rows[p]);
    assert t'.rows[p][..COUNTER][..MTCH_FLD_LEN] == t.rows[p][..COUNTER][..MTCH_FLD_LEN];
    assert t'.rows[p][..MTCH_FLD_LEN] == t.rows[p][..MTCH_FLD_LEN];
  }

  function PacketCount(t: Table, p: nat): (n: nat)
    requires p < |t.rows|
    ensures n < 256
  {
    t.rows[p][COUNTER] as nat
  }

  lemma SearchCounts(t: Table, pkt: MatchField, p: nat)
    requires Sound(t, t.tail) && p < t.tail
    ensures var t' := SearchT(t, pkt).0;
            && |t'.rows| == |t.rows| && t'.tail == t.tail
            && PacketCount(t', p) == (PacketCount(t, p) + if Matches(t, p, pkt) then 1 else 0) % 256
            && t'.rows[p][TIMEOUT] == t.rows[p][TIMEOUT]
            && t'.rows[p][..COUNTER] == t.rows[p][..COUNTER]
  {
    hide Matches, Index, Marks;
    WrapAround(t.rows[p][COUNTER]);
  }

  /** Over any run of searches a row's counter grows by the packets it matched, modulo 256. */
  lemma {:induction false} CountersCountHits(t: Table, pkts: seq<MatchField>, p: nat)
    requires Sound(t, t.tail) && p < t.tail
    ensures var t' := SearchAll(t, pkts);
            && |t'.rows| == |t.rows|
            && PacketCount(t', p) == (PacketCount(t, p) + Hits(t, pkts, p)) % 256
            && t'.rows[p][..COUNTER] == t.rows[p][..COUNTER] && t'.rows[p][TIMEOUT] == t.rows[p][TIMEOUT]
    decreases |pkts|
  {
    hide Matches, SearchT, Index, Marks, Sound, PacketCount;
    if |pkts| > 0 {
      SearchKeeps(t, pkts[0]);
      SearchCounts(t, pkts[0], p);
      var t1 := SearchT(t, pkts[0]).0;
      HitsAfterSearch(t, pkts[0], pkts[1..], p);
      CountersCountHits(t1, pkts[1..], p);
    }
  }

  lemma HitsAfterSearch(t: Table, pkt: MatchField, pkts: seq<MatchField>, p: nat)
    requires Sound(t, t.tail) && p < t.tail
    ensures var t1 := SearchT(t, pkt).0;
            Sound(t1, t1.tail) && t1.tail == t.tail && Hits(t1, pkts, p) == Hits(t, pkts, p)
  {
    hide Matches, SearchT;
    SearchKeeps(t, pkt);
    SearchCounts(t, pkt, p);
    var t1 := SearchT(t, pkt).0;
    forall other
      ensures Matches(t1, p, other) == Matches(t, p, other)
    {
      MatchesUnaffected(t, pkt, p, other);
    }
    HitsUnaffected(t, t1, pkts, p);
  }

  /** A modification leaves the chosen row's counter as it was, or as supplied. */
  lemma ModifyKeepsCounter(t: Table, pkt: MatchField, flag: FlagWord, values: seq<byte>)
    requires Sound(t, t.tail) && SearchT(t, pkt).1 >= 0 && EnoughValues(flag, values)
    ensures var (t', p) := ModifyT(t, pkt, flag, values);
            t'.rows[p][COUNTER] == if Selected(flag, 14) then ByteOf(Value(flag, values, 14)) else t.rows[p][COUNTER]
  {
    hide Selected, Value, ByteOf, Offset, Matches, BitOf, EditedTo;
    BestWins(Candidates(t, pkt));
  }
}
