/**
 The cache across an add or a delete, which do not look at it: exactly when its
 written slots still name live rows with their own masks.
 */
module CacheChanges {
  import opened Lists
  import opened MaskGroups
  import opened Matching
  import opened FlowModel
  import opened Refinement
  import opened TableTheorems
  import opened CacheModel

  /**
   Every written slot is that of an earlier row than `p`, or of a row whose successor, which takes its place
   when row `p` is deleted, has moved by as many masks as the deletion drops.
   */
  ghost predicate DeleteSpares(t: Table, c: Cache, p: nat)
    requires Shaped(t) && InRange(c) && p < t.tail
  {
    forall j :: 0 <= j < CACHE_SIZE && c.slots[j].mask != -1 ==>
      var row := c.slots[j].row;
      0 <= row < t.tail && (row < p || (row + 1 < t.tail && Marked(t.rows[row + 1]) == SoleOfGroup(t, p)))
  }

  /** Every written slot is that of an earlier row than `pos`, or of one that does not begin a group. */
  ghost predicate AddSpares(t: Table, c: Cache, pos: nat)
    requires Shaped(t) && InRange(c)
  {
    forall j :: 0 <= j < CACHE_SIZE && c.slots[j].mask != -1 ==>
      var row := c.slots[j].row;
      0 <= row < t.tail && (row < pos || !Marked(t.rows[row]))
  }

  /** After row `p` has been deleted the cache is still sound exactly when the deletion spares its slots. */
  lemma DeleteKeepsCacheExactly(t: Table, c: Cache, p: nat)
    requires GroupInv(t) && Sound(t, t.tail) && CacheSound(t, c) && p < t.tail
    ensures var t' := RemovedT(t, p);
            && Sound(t', t'.tail)
            && (CacheSound(t', c) <==> DeleteSpares(t, c, p))
  {
    hide Index, RemovedT, SoleOfGroup;
    RemoveKeepsInv(t, p);
    RemovedTail(t, p);
    var t' := RemovedT(t, p);
    GroupInvIsSound(t');
    forall row: nat | row < t'.tail
      ensures Index(Marks(t'), row) == Index(Marks(t), row)
              <==> row < p || Marked(t.rows[row + 1]) == SoleOfGroup(t, p)
    {
      IndexOfSurvivor(t, p, row);
    }
  }

  lemma IndexOfSurvivor(t: Table, p: nat, q: nat)
    requires GroupInv(t) && Sound(t, t.tail) && p < t.tail && q + 1 < t.tail
    ensures var t' := RemovedT(t, p);
            && Shaped(t') && q < t'.tail
            && (Index(Marks(t'), q) == Index(Marks(t), q) <==> q < p || Marked(t.rows[q + 1]) == SoleOfGroup(t, p))
  {
    hide Index, RemovedT, HandsOver, SoleOfGroup;
    RemovedMarks(t, p);
    RemovedTail(t, p);
    SoleIsMarked(t, p);
    IndexAfterDelete(Marks(t), p, q);
    NextIndex(Marks(t), q);
  }

  lemma NextIndex(m: seq<bool>, q: nat)
    requires q + 1 < |m|
    ensures Index(m, q + 1) == Index(m, q) + if m[q + 1] then 1 else 0
  {
    IndexStep(m, q + 1);
  }

  /**
   After an accepted add every row has a mask, unless the row that comes back to life in an emptied table
   carries a marker; and then the cache is still sound exactly when the add spares its slots.
   */
  lemma AddKeepsCacheExactly(v: Line221, t: Table, c: Cache, mask: MatchField, entry: Entry, action: ActionSet,
                             flag: FlagWord)
    requires GroupInv(t) && Sound(t, t.tail) && CacheSound(t, c) && MaskRoom(t, mask)
    requires AddT(v, t, mask, entry, action, flag).1 >= 0
    ensures var (t', pos) := AddT(v, t, mask, entry, action, flag);
            && (Sound(t', t'.tail) <==>
                  (t.tail == 0 && t.maskTail > 0 && mask in LiveMasks(t) ==> !Marked(t.rows[0])))
            && (Sound(t', t'.tail) ==> (CacheSound(t', c) <==> AddSpares(t, c, pos)))
  {
    hide Index, AddT, Marked, FirstGroupOwned;
    if t.tail == 0 && t.maskTail > 0 {
      AddToEmptiedIsSoundExactly(v, t, mask, entry, action, flag);
    } else {
      AddKeepsGroupInv(v, t, mask, entry, action, flag);
      var (t', pos) := AddT(v, t, mask, entry, action, flag);
      GroupInvIsSound(t');
      MarksAfterAdd(v, t, mask, entry, action, flag);
      forall row: nat | row < t.tail
        ensures Index(Marks(t'), row) == Index(Marks(t), row) <==> row < pos || !Marked(t.rows[row])
      {
        IndexAfterAdd(Marks(t), pos, mask !in LiveMasks(t) && t.tail > 0, row);
      }
    }
  }

  lemma MarksAfterAdd(v: Line221, t: Table, mask: MatchField, entry: Entry, action: ActionSet, flag: FlagWord)
    requires GroupInv(t) && MaskRoom(t, mask) && AddT(v, t, mask, entry, action, flag).1 >= 0
    requires t.tail == 0 ==> t.maskTail == 0
    ensures var (t', pos) := AddT(v, t, mask, entry, action, flag);
            var b := mask !in LiveMasks(t) && t.tail > 0;
            && Shaped(t') && 0 <= pos <= t.tail && t'.tail == t.tail + 1
            && Marks(t') == InsertAt(Marks(t), pos, b)
            && (pos < t.tail ==> !b && Marks(t)[pos])
  {
    hide WithMarker, Marked, ScanHits, Normalised, GroupEnd, Locate, InsertAt;
    var (t', pos) := AddT(v, t, mask, entry, action, flag);
    var b := mask !in LiveMasks(t) && t.tail > 0;
    MarkerWritten(Stored(entry), b);
    if mask in LiveMasks(t) {
      LocatedGroupEnds(t, mask);
      PlacedMarks(t, pos, WithMarker(Stored(entry), b), action, flag);
    } else {
      assert Marks(WithNewMask(t, mask)) == Marks(t);
      PlacedMarks(WithNewMask(t, mask), pos, WithMarker(Stored(entry), b), action, flag);
    }
  }

  lemma IndexAfterAdd(m: seq<bool>, pos: nat, b: bool, q: nat)
    requires pos <= |m| && q < |m| && (pos < |m| ==> !b && m[pos])
    ensures Index(InsertAt(m, pos, b), q) == Index(m, q) <==> q < pos || !m[q]
  {
    hide Index, InsertAt;
    if q < pos {
      IndexAfterInsert(m, pos, b, q);
    } else if q == pos {
      IndexOfInserted(m, pos, b);
      IndexStep(m, pos);
    } else {
      IndexAfterInsert(m, pos, b, q - 1);
      NextIndex(m, q - 1);
    }
  }

  // ---- runs of every operation ----

  /** Packets and modifications, and adding and deleting rules. */
  datatype FlowOp =
    | Quiet(op: QuietOp)
    | Insert(mask: MatchField, entry: Entry, action: ActionSet, flag: FlagWord)
    | Remove(pkt: MatchField)

  ghost predicate FlowLegal(t: Table, c: Cache, op: FlowOp) {
    && Sound(t, t.tail) && InRange(c)
    && match op
       case Quiet(q) => QuietLegal(t, c, q)
       case Insert(mask, _, _, _) => GroupInv(t) && MaskRoom(t, mask)
       case Remove(pkt) => GroupInv(t) && SearchT(t, pkt).1 >= 0
  }

  ghost function FlowStep(v: Line221, t: Table, c: Cache, op: FlowOp): (Table, Cache)
    requires FlowLegal(t, c, op)
  {
    match op
    case Quiet(q) => QuietStep(t, c, q)
    case Insert(mask, entry, action, flag) => (AddT(v, t, mask, entry, action, flag).0, c)
    case Remove(pkt) => (DeleteT(t, pkt).0, c)
  }

  /** The last state of the run, too, has a mask for every row. */
  ghost predicate FlowLegalRun(v: Line221, t: Table, c: Cache, ops: seq<FlowOp>)
    decreases |ops|
  {
    && Sound(t, t.tail) && InRange(c)
    && (|ops| > 0 ==>
          FlowLegal(t, c, ops[0])
          && FlowLegalRun(v, FlowStep(v, t, c, ops[0]).0, FlowStep(v, t, c, ops[0]).1, ops[1..]))
  }

  /** The operation leaves the cache sound: a packet or a modification always does. */
  ghost predicate Spares(v: Line221, t: Table, c: Cache, op: FlowOp)
    requires FlowLegal(t, c, op)
  {
    match op
    case Quiet(_) => true
    case Insert(mask, entry, action, flag) =>
      var pos := AddT(v, t, mask, entry, action, flag).1;
      pos >= 0 ==> AddSpares(t, c, pos)
    case Remove(pkt) => DeleteSpares(t, c, SearchT(t, pkt).1)
  }

  ghost predicate SparesThroughout(v: Line221, t: Table, c: Cache, ops: seq<FlowOp>)
    requires FlowLegalRun(v, t, c, ops)
    decreases |ops|
  {
    |ops| > 0 ==>
      && Spares(v, t, c, ops[0])
      && SparesThroughout(v, FlowStep(v, t, c, ops[0]).0, FlowStep(v, t, c, ops[0]).1, ops[1..])
  }

  ghost predicate SoundThroughout(v: Line221, t: Table, c: Cache, ops: seq<FlowOp>)
    requires FlowLegalRun(v, t, c, ops)
    decreases |ops|
  {
    && CacheSound(t, c)
    && (|ops| > 0 ==> SoundThroughout(v, FlowStep(v, t, c, ops[0]).0, FlowStep(v, t, c, ops[0]).1, ops[1..]))
  }

  lemma StepKeepsCache(v: Line221, t: Table, c: Cache, op: FlowOp)
    requires FlowLegal(t, c, op) && CacheSound(t, c)
    requires var t' := FlowStep(v, t, c, op).0; Sound(t', t'.tail)
    ensures var (t', c') := FlowStep(v, t, c, op);
            CacheSound(t', c') <==> Spares(v, t, c, op)
  {
    hide AddT, RemovedT, SearchT, CacheSound, DeleteSpares, AddSpares, QuietStep, QuietLegal, GroupInv, MaskRoom;
    match op
    case Quiet(q) => StepKeepsSound(t, c, q);
    case Insert(mask, entry, action, flag) =>
      if AddT(v, t, mask, entry, action, flag).1 >= 0 {
        AddKeepsCacheExactly(v, t, c, mask, entry, action, flag);
      } else {
        RefusedAddChangesNothing(v, t, mask, entry, action, flag);
      }
    case Remove(pkt) =>
      var (t1, p) := SearchT(t, pkt);
      SearchKeeps(t, pkt);
      SearchTail(t, pkt);
      SearchSpares(t, c, pkt);
      DeleteKeepsCacheExactly(t1, c, p);
  }

  lemma RefusedAddChangesNothing(v: Line221, t: Table, mask: MatchField, entry: Entry, action: ActionSet,
                                 flag: FlagWord)
    requires Shaped(t) && MaskRoom(t, mask) && AddT(v, t, mask, entry, action, flag).1 < 0
    ensures AddT(v, t, mask, entry, action, flag).0 == t
  {
  }

  /** The search that a deletion begins with moves no marker. */
  lemma SearchSpares(t: Table, c: Cache, pkt: MatchField)
    requires GroupInv(t) && Sound(t, t.tail) && CacheSound(t, c) && SearchT(t, pkt).1 >= 0
    ensures var (t1, p) := SearchT(t, pkt);
            && Sound(t1, t1.tail) && CacheSound(t1, c) && p < t.tail == t1.tail
            && (DeleteSpares(t1, c, p) <==> DeleteSpares(t, c, p))
  {
    hide Index, Matches;
    SearchKeeps(t, pkt);
    var (t1, p) := SearchT(t, pkt);
    forall q | 0 <= q < NO_F_FLWS
      ensures Marked(t1.rows[q]) == Marked(t.rows[q])
    {
      assert t1.rows[q][..COUNTER][44] == t.rows[q][..COUNTER][44];
    }
    assert SoleOfGroup(t1, p) == SoleOfGroup(t, p);
  }

  /**
   Over any run of packets, modifications, additions and deletions from a sound cache, every written
   slot is at every point the (mask, row) pair of a live row exactly when every addition and deletion
   on the way spares the slots.
   */
  lemma {:induction false} RunKeepsCacheExactly(v: Line221, t: Table, c: Cache, ops: seq<FlowOp>)
    requires FlowLegalRun(v, t, c, ops) && CacheSound(t, c)
    ensures SoundThroughout(v, t, c, ops) <==> SparesThroughout(v, t, c, ops)
    decreases |ops|
  {
    hide CacheSound, FlowStep, FlowLegal, Spares;
    if |ops| > 0 {
      var (t', c') := FlowStep(v, t, c, ops[0]);
      assert FlowLegalRun(v, t', c', ops[1..]);
      StepKeepsCache(v, t, c, ops[0]);
      if CacheSound(t', c') {
        RunKeepsCacheExactly(v, t', c', ops[1..]);
      }
    }
  }
}
