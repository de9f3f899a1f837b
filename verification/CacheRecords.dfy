/**
 Which rows the cache holds: the pairs that lookups have recorded since `init`, counted
 from 0 (flow-processing-unit/flow_unit.h:73-79, 298-304 and 405-411).
 */
module CacheRecords {
  import opened MaskGroups
  import opened Matching
  import opened Priority
  import opened FlowModel
  import opened CacheModel

  predicate Pairs(ps: seq<CacheSlot>) {
    forall k :: 0 <= k < |ps| ==> 0 <= ps[k].mask < NO_F_FLWS && 0 <= ps[k].row < NO_F_FLWS
  }

  /** The cache after the pairs have been recorded one by one. */
  function RecordAll(c: Cache, ps: seq<CacheSlot>): (r: Cache)
    requires InRange(c) && Pairs(ps)
    ensures InRange(r)
    decreases |ps|
  {
    if |ps| == 0 then c
    else Recorded(RecordAll(c, ps[..|ps| - 1]), ps[|ps| - 1].mask, ps[|ps| - 1].row)
  }

  /** The slot of record number `k`: they are filled from slot 4 down to slot 0, over and over. */
  function Place(k: nat): (j: nat)
    ensures j < 5
  {
    4 - k % 5
  }

  lemma PlacesDiffer(k: nat, n: nat)
    requires k < n < k + 5
    ensures Place(k) != Place(n)
  {
    var a, b := k % 5, n % 5;
    assert n - k == (n / 5 - k / 5) * 5 + b - a;
  }

  lemma NextTop(n: nat)
    ensures (if n % 5 + 2 > 5 then 1 else n % 5 + 2) == (n + 1) % 5 + 1
  {
  }

  /**
   After `n` records the cursor is at n % 5 + 1, each of the last five is in its slot, and no slot
   has been written before its first.
   */
  lemma {:induction false} RecordsInSlots(c: Cache, ps: seq<CacheSlot>)
    requires Cleared(c) && InRange(c) && Pairs(ps)
    ensures var r, n := RecordAll(c, ps), |ps|;
            && r.top == n % 5 + 1
            && (forall k :: 0 <= k < n && n - 5 <= k ==> r.slots[Place(k)] == ps[k])
            && (forall j :: n <= j < 5 ==> r.slots[Place(j)].mask == -1)
    decreases |ps|
  {
    if |ps| > 0 {
      var n := |ps| - 1;
      RecordsInSlots(c, ps[..n]);
      RecordStep(RecordAll(c, ps[..n]), ps, n);
    }
  }

  lemma RecordStep(c: Cache, ps: seq<CacheSlot>, n: nat)
    requires InRange(c) && n < |ps| && Pairs(ps) && c.top == n % 5 + 1
    requires forall k :: 0 <= k < n && n - 5 <= k ==> c.slots[Place(k)] == ps[k]
    requires forall j :: n <= j < 5 ==> c.slots[Place(j)].mask == -1
    ensures var r := Recorded(c, ps[n].mask, ps[n].row);
            && r.top == (n + 1) % 5 + 1
            && (forall k :: 0 <= k <= n && n - 4 <= k ==> r.slots[Place(k)] == ps[k])
            && (forall j :: n < j < 5 ==> r.slots[Place(j)].mask == -1)
  {
    NextTop(n);
    assert CACHE_SIZE - c.top == Place(n);
    hide Place;
    forall k | 0 <= k < n && n - 4 <= k
      ensures Place(k) != Place(n)
    {
      PlacesDiffer(k, n);
    }
    forall j | n < j < 5
      ensures Place(j) != Place(n)
    {
      PlacesDiffer(n, j);
    }
  }

  /**
   A search of the cache after `n` records looks, if n is no multiple of 5, at record n - 5 or at an
   unwritten slot, and then at the records of the present lap, the latest first; and at nothing at all if n
   is a multiple of 5.
   */
  lemma VisitedRecords(c: Cache, ps: seq<CacheSlot>)
    requires Cleared(c) && InRange(c) && Pairs(ps)
    ensures var v, n := Visited(RecordAll(c, ps)), |ps|;
            && |v| == (if n % 5 == 0 then 0 else n % 5 + 1)
            && (|v| > 0 ==> if n < 5 then v[0].mask == -1 else v[0] == ps[n - 5])
            && forall i :: 1 <= i < |v| ==> v[i] == ps[n - i]
  {
    hide RecordAll, Place, Visited;
    RecordsInSlots(c, ps);
    var r, n := RecordAll(c, ps), |ps|;
    VisitedSlots(r);
    if n % 5 != 0 {
      FirstPlace(n);
      forall i | 1 <= i < r.top
        ensures Visited(r)[i] == ps[n - i]
      {
        PlaceInLap(n, i);
        assert r.slots[Place(n - i)] == ps[n - i];
      }
    }
  }

  lemma VisitedSlots(c: Cache)
    requires InRange(c)
    ensures |Visited(c)| == if c.top > 1 then c.top else 0
    ensures forall i :: 0 <= i < |Visited(c)| ==> Visited(c)[i] == c.slots[5 - c.top + i]
  {
  }

  lemma FirstPlace(n: nat)
    ensures Place(n) == 4 - n % 5 && (n >= 5 ==> Place(n - 5) == 4 - n % 5)
  {
    if n >= 5 {
      Remainder(n - 5, n / 5 - 1, n % 5);
    }
  }

  lemma PlaceInLap(n: nat, i: nat)
    requires 1 <= i <= n % 5
    ensures Place(n - i) == 4 - n % 5 + i
  {
    Remainder(n - i, n / 5, n % 5 - i);
  }

  lemma Remainder(n: nat, a: nat, b: nat)
    requires n == 5 * a + b && b < 5
    ensures n % 5 == b
  {
  }

  /** So a row is cached exactly if, while a lap is under way, it was recorded in that lap or five records ago. */
  lemma CachedRecords(c: Cache, ps: seq<CacheSlot>, row: int)
    requires Cleared(c) && InRange(c) && Pairs(ps)
    ensures var n := |ps|;
            IsCached(RecordAll(c, ps), row)
            <==> n % 5 != 0 && exists k :: 0 <= k < n && (n / 5 * 5 <= k || k == n - 5) && ps[k].row == row
  {
    hide RecordAll, Visited;
    VisitedRecords(c, ps);
    var v, n := Visited(RecordAll(c, ps)), |ps|;
    if IsCached(RecordAll(c, ps), row) {
      var i :| 0 <= i < |v| && v[i].mask != -1 && v[i].row == row;
      assert ps[if i == 0 then n - 5 else n - i].row == row;
    }
    if n % 5 != 0 {
      forall k | 0 <= k < n && (n / 5 * 5 <= k || k == n - 5) && ps[k].row == row
        ensures IsCached(RecordAll(c, ps), row)
      {
        assert v[if k == n - 5 then 0 else n - k] == ps[k];
      }
    }
  }

  // ---- runs ----

  /** The pair that one operation records: that of the rule a packet finds in the tables, the cache having none. */
  function RecordOf(t: Table, c: Cache, op: QuietOp): (ps: seq<CacheSlot>)
    requires QuietLegal(t, c, op)
    ensures Pairs(ps)
  {
    if op.Packet? && SearchCacheT(t, c, op.pkt).1 < 0 && SearchT(t, op.pkt).1 >= 0 then
      var r := SearchT(t, op.pkt).1;
      assert Index(Marks(t), r) < t.maskTail;
      [CacheSlot(Index(Marks(t), r), r)]
    else []
  }

  function RecordsOf(t: Table, c: Cache, ops: seq<QuietOp>): (ps: seq<CacheSlot>)
    requires QuietLegalRun(t, c, ops)
    ensures Pairs(ps)
    decreases |ops|
  {
    if |ops| == 0 then []
    else RecordOf(t, c, ops[0]) + RecordsOf(QuietStep(t, c, ops[0]).0, QuietStep(t, c, ops[0]).1, ops[1..])
  }

  lemma StepRecords(t: Table, c: Cache, op: QuietOp)
    requires QuietLegal(t, c, op)
    ensures QuietStep(t, c, op).1 == RecordAll(c, RecordOf(t, c, op))
  {
    hide SearchT, SearchCacheT, Index, Recorded;
    var ps := RecordOf(t, c, op);
    assert RecordAll(c, []) == c;
    if |ps| > 0 {
      assert ps[..0] == [];
    }
  }

  lemma {:induction false} RecordTwice(c: Cache, a: seq<CacheSlot>, b: seq<CacheSlot>)
    requires InRange(c) && Pairs(a) && Pairs(b)
    ensures RecordAll(c, a + b) == RecordAll(RecordAll(c, a), b)
    decreases |b|
  {
    hide Recorded;
    if |b| == 0 {
      assert a + b == a;
    } else {
      assert (a + b)[..|a + b| - 1] == a + b[..|b| - 1];
      RecordTwice(c, a, b[..|b| - 1]);
    }
  }

  lemma {:induction false} RunRecords(t: Table, c: Cache, ops: seq<QuietOp>)
    requires QuietLegalRun(t, c, ops) && InRange(c)
    ensures QuietRun(t, c, ops).1 == RecordAll(c, RecordsOf(t, c, ops))
    decreases |ops|
  {
    hide QuietLegal, QuietStep, RecordOf, RecordAll;
    if |ops| == 0 {
      assert RecordAll(c, []) == c by { NoRecords(c); }
    } else {
      var (t', c') := QuietStep(t, c, ops[0]);
      StepRecords(t, c, ops[0]);
      RunRecords(t', c', ops[1..]);
      RecordTwice(c, RecordOf(t, c, ops[0]), RecordsOf(t', c', ops[1..]));
    }
  }

  lemma NoRecords(c: Cache)
    requires InRange(c)
    ensures RecordAll(c, []) == c
  {
  }

  /**
   After any run of packets and modifications since `init`, the rows cached are those recorded in the
   lap under way, and the one recorded five records ago.
   */
  lemma CachedAfterRun(t: Table, c: Cache, ops: seq<QuietOp>, row: int)
    requires Cleared(c) && InRange(c) && QuietLegalRun(t, c, ops)
    ensures InRange(QuietRun(t, c, ops).1)
    ensures var ps := RecordsOf(t, c, ops);
            var n := |ps|;
            IsCached(QuietRun(t, c, ops).1, row)
            <==> n % 5 != 0 && exists k :: 0 <= k < n && (n / 5 * 5 <= k || k == n - 5) && ps[k].row == row
  {
    hide RecordAll, QuietRun, QuietLegalRun, IsCached;
    RunRecords(t, c, ops);
    CachedRecords(c, RecordsOf(t, c, ops), row);
  }

  // ---- what the cache answers, sound or not ----

  /** The pair of slot `i` matches the packet in every bit that its mask selects. */
  predicate PairMatches(t: Table, c: Cache, pkt: MatchField, i: nat)
    requires Shaped(t) && InRange(c) && i < |Visited(c)|
  {
    var s := Visited(c)[i];
    assert s == c.slots[CACHE_SIZE - c.top + i];
    s.mask != -1 && BitsAgree(t.masks[s.mask], pkt, t.rows[s.row])
  }

  function PriorityAt(t: Table, c: Cache, i: nat): nat
    requires Shaped(t) && InRange(c) && i < |Visited(c)| && Visited(c)[i].mask != -1
  {
    var s := Visited(c)[i];
    assert s == c.slots[CACHE_SIZE - c.top + i];
    t.rows[s.row][45] as nat
  }

  /**
   A lookup: if some pair visited matches, the row of the first such pair of the highest priority, whatever the
   tables hold; otherwise what the search finds.
   */
  lemma LookupAnswers(t: Table, c: Cache, pkt: MatchField)
    requires Sound(t, t.tail) && InRange(c)
    ensures var r := LookupT(t, c, pkt).2;
            if exists i :: 0 <= i < |Visited(c)| && PairMatches(t, c, pkt, i) then
              exists b :: 0 <= b < |Visited(c)| && PairMatches(t, c, pkt, b) && r == Visited(c)[b].row
                && forall j :: 0 <= j < |Visited(c)| && PairMatches(t, c, pkt, j) ==>
                     || PriorityAt(t, c, j) < PriorityAt(t, c, b)
                     || (PriorityAt(t, c, j) == PriorityAt(t, c, b) && b <= j)
            else r == SearchT(t, pkt).1
  {
    hide Visited, Agree, BitsAgree, SearchT, CountedSlots, Best;
    var n := |Visited(c)|;
    var cands := SlotCandidates(t, c, pkt, n);
    BestWins(cands);
    forall i | 0 <= i < n
      ensures cands[i].hit == PairMatches(t, c, pkt, i)
      ensures cands[i].hit ==> cands[i].priority == PriorityAt(t, c, i) && Visited(c)[i].row >= 0
    {
      CandidateOfSlot(t, c, pkt, i);
    }
    var b := Best(cands);
    if b >= 0 {
      assert PairMatches(t, c, pkt, b) && LookupT(t, c, pkt).2 == Visited(c)[b].row;
      forall j | 0 <= j < n && PairMatches(t, c, pkt, j)
        ensures PriorityAt(t, c, j) < PriorityAt(t, c, b)
                || (PriorityAt(t, c, j) == PriorityAt(t, c, b) && b <= j)
      {
        assert cands[j].hit;
      }
    }
  }

  lemma CandidateOfSlot(t: Table, c: Cache, pkt: MatchField, i: nat)
    requires Shaped(t) && InRange(c) && i < |Visited(c)|
    ensures var x := SlotCandidates(t, c, pkt, |Visited(c)|)[i];
            && x.hit == PairMatches(t, c, pkt, i)
            && (x.hit ==> x.priority == PriorityAt(t, c, i) && Visited(c)[i].row >= 0)
  {
    hide Agree, BitsAgree;
    var s := Visited(c)[i];
    assert s == c.slots[CACHE_SIZE - c.top + i];
    if s.mask != -1 {
      AgreeIsBits(t.masks[s.mask], pkt, t.rows[s.row]);
    }
  }
}
