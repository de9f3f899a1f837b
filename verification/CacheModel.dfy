/**
 The flow cache in front of the tables (flow-processing-unit/flow_unit.h:32-36,
 73-79, 298-334, 396-413 and the lookup part of apply_action, 651-673).
 */
module CacheModel {
  import opened Bytes
  import opened MaskGroups
  import opened Matching
  import opened Priority
  import opened FlowModel
  import opened ModifyModel

  const CACHE_SIZE: nat := 5

  /** A (mask, row) pair; mask -1 is a slot that `init` has cleared and nothing has written. */
  datatype CacheSlot = CacheSlot(mask: int, row: int)

  /** Slots are written from the last to the first; `top` is one more than the number of the latest lap's writes. */
  datatype Cache = Cache(slots: seq<CacheSlot>, top: nat)

  predicate InRange(c: Cache) {
    && |c.slots| == CACHE_SIZE && 1 <= c.top <= CACHE_SIZE
    && forall j :: 0 <= j < CACHE_SIZE ==>
         c.slots[j].mask == -1 || (0 <= c.slots[j].mask < NO_F_FLWS && 0 <= c.slots[j].row < NO_F_FLWS)
  }

  /** Every written slot names a live row and that row's own mask. */
  predicate CacheSound(t: Table, c: Cache)
    requires Sound(t, t.tail)
  {
    && InRange(c)
    && forall j :: 0 <= j < CACHE_SIZE ==>
         c.slots[j].mask == -1
         || (0 <= c.slots[j].row < t.tail && c.slots[j].mask == Index(Marks(t), c.slots[j].row))
  }

  /** The slots a search looks at, in its order; none while `top` is 1, that is, also after every full lap. */
  function Visited(c: Cache): seq<CacheSlot>
    requires InRange(c)
  {
    if c.top > 1 then c.slots[CACHE_SIZE - c.top..] else []
  }

  predicate SlotMatches(t: Table, s: CacheSlot, pkt: MatchField)
    requires Shaped(t)
    requires s.mask == -1 || (0 <= s.mask < NO_F_FLWS && 0 <= s.row < NO_F_FLWS)
  {
    s.mask != -1 && Agree(t.masks[s.mask], pkt, t.rows[s.row])
  }

  function SlotCandidates(t: Table, c: Cache, pkt: MatchField, n: nat): (r: seq<Candidate>)
    requires Shaped(t) && InRange(c) && n <= |Visited(c)|
    ensures |r| == n
  {
    seq(n, i requires 0 <= i < n =>
      var s := Visited(c)[i];
      Candidate(SlotMatches(t, s, pkt), if s.mask == -1 then 0 else t.rows[s.row][PRIORITY] as nat))
  }

  /** A visited match is counted for its row, once for every slot that names the row. */
  function CountedSlots(t: Table, c: Cache, pkt: MatchField, n: nat): (r: seq<FlowRow>)
    requires Shaped(t) && InRange(c) && n <= |Visited(c)|
    ensures |r| == NO_F_FLWS
    decreases n
  {
    if n == 0 then t.rows
    else
      var rows := CountedSlots(t, c, pkt, n - 1);
      var s := Visited(c)[n - 1];
      if SlotMatches(t, s, pkt) then rows[s.row := Bump(rows[s.row])] else rows
  }

  /** The row in the lead after the first `n` visited slots. */
  function Leader(t: Table, c: Cache, pkt: MatchField, n: nat): (r: int)
    requires Shaped(t) && InRange(c) && n <= |Visited(c)|
    ensures NO_MATCH <= r < NO_F_FLWS
  {
    var b := Best(SlotCandidates(t, c, pkt, n));
    if b < 0 then NO_MATCH
    else
      assert c.slots[CACHE_SIZE - c.top + b] == Visited(c)[b];
      Visited(c)[b].row
  }

  function SearchCacheT(t: Table, c: Cache, pkt: MatchField): (Table, int)
    requires Shaped(t) && InRange(c)
  {
    var n := |Visited(c)|;
    (t.(rows := CountedSlots(t, c, pkt, n)), Leader(t, c, pkt, n))
  }

  function Recorded(c: Cache, mask: int, row: int): Cache
    requires InRange(c)
  {
    Cache(c.slots[CACHE_SIZE - c.top := CacheSlot(mask, row)], if c.top + 1 > CACHE_SIZE then 1 else c.top + 1)
  }

  /** `search_flow`: a full search whose winner is recorded in the cache. */
  function SearchFlowT(t: Table, c: Cache, pkt: MatchField): (Table, Cache, int)
    requires Sound(t, t.tail) && InRange(c)
  {
    var (t', r) := SearchT(t, pkt);
    (t', if r >= 0 then Recorded(c, Index(Marks(t), r), r) else c, r)
  }

  /** The lookup of `apply_action`: the cache first, the tables if it has no hit. */
  function LookupT(t: Table, c: Cache, pkt: MatchField): (Table, Cache, int)
    requires Sound(t, t.tail) && InRange(c)
  {
    var (t1, hit) := SearchCacheT(t, c, pkt);
    if hit >= 0 then (t1, c, hit) else SearchFlowT(t, c, pkt)
  }

  /** After `init`: every slot marked unwritten, whatever its row number. */
  predicate Cleared(c: Cache) {
    && |c.slots| == CACHE_SIZE && c.top == 1
    && forall j :: 0 <= j < CACHE_SIZE ==> c.slots[j].mask == -1
  }

  // ---- what a hit is ----

  /** The packet's rows that a search can reach through the cache. */
  ghost predicate IsCached(c: Cache, row: int)
    requires InRange(c)
  {
    exists i :: 0 <= i < |Visited(c)| && Visited(c)[i].mask != -1 && Visited(c)[i].row == row
  }

  /** A visited slot of a sound cache matches exactly when its row matches in the tables. */
  lemma SlotMatchIsMatch(t: Table, c: Cache, pkt: MatchField, i: nat)
    requires Sound(t, t.tail) && CacheSound(t, c) && i < |Visited(c)| && Visited(c)[i].mask != -1
    ensures 0 <= Visited(c)[i].row < t.tail
    ensures SlotMatches(t, Visited(c)[i], pkt) == Matches(t, Visited(c)[i].row, pkt)
  {
    hide Index, Agree;
    assert c.slots[CACHE_SIZE - c.top + i] == Visited(c)[i];
  }

  /** A hit is a live matching rule, of the highest priority among the cached ones that match. */
  lemma HitIsBestCached(t: Table, c: Cache, pkt: MatchField)
    requires Sound(t, t.tail) && CacheSound(t, c)
    ensures var hit := SearchCacheT(t, c, pkt).1;
            && (hit == NO_MATCH <==> forall p :: 0 <= p < t.tail && Matches(t, p, pkt) ==> !IsCached(c, p))
            && (hit != NO_MATCH ==>
                  && 0 <= hit < t.tail && Matches(t, hit, pkt) && IsCached(c, hit)
                  && forall p :: 0 <= p < t.tail && Matches(t, p, pkt) && IsCached(c, p) ==>
                       t.rows[p][PRIORITY] as nat <= t.rows[hit][PRIORITY] as nat)
  {
    hide Index, Agree, Matches, SlotMatches, CountedSlots, Best;
    var n := |Visited(c)|;
    var cands := SlotCandidates(t, c, pkt, n);
    BestWins(cands);
    forall i | 0 <= i < n && Visited(c)[i].mask != -1
      ensures 0 <= Visited(c)[i].row < t.tail
      ensures cands[i].hit == Matches(t, Visited(c)[i].row, pkt)
    {
      SlotMatchIsMatch(t, c, pkt, i);
    }
    forall i | 0 <= i < n && Visited(c)[i].mask == -1
      ensures !cands[i].hit
    {
      UnwrittenNeverMatches(t, c, pkt, i);
    }
    var b := Best(cands);
    if b != NO_MATCH {
      assert cands[b].hit;
    }
    forall p | 0 <= p < t.tail && Matches(t, p, pkt) && IsCached(c, p)
      ensures b != NO_MATCH && t.rows[p][PRIORITY] as nat <= t.rows[Visited(c)[b].row][PRIORITY] as nat
    {
      var i :| 0 <= i < n && Visited(c)[i].mask != -1 && Visited(c)[i].row == p;
      assert cands[i].hit;
    }
  }

  lemma UnwrittenNeverMatches(t: Table, c: Cache, pkt: MatchField, i: nat)
    requires Shaped(t) && InRange(c) && i < |Visited(c)| && Visited(c)[i].mask == -1
    ensures !SlotMatches(t, Visited(c)[i], pkt)
  {
  }

  /** The visited slots before the first one of row `w` are of no other match of its priority. */
  ghost predicate VisitedFirst(t: Table, c: Cache, pkt: MatchField, w: nat)
    requires Sound(t, t.tail) && CacheSound(t, c) && w < t.tail
  {
    exists i :: 0 <= i < |Visited(c)| && SlotOfRow(c, i, w)
      && forall j, p :: 0 <= j < i && 0 <= p < t.tail && SlotOfRow(c, j, p) && Matches(t, p, pkt) ==>
           (t.rows[p][PRIORITY] == t.rows[w][PRIORITY] ==> p == w)
  }

  predicate SlotOfRow(c: Cache, i: nat, row: int)
    requires InRange(c) && i < |Visited(c)|
  {
    Visited(c)[i].mask != -1 && Visited(c)[i].row == row
  }

  /**
   A lookup finds what a full search would find exactly when the cache has no hit at all, or has the
   winner itself, in a slot that is visited before those of any other match of the same priority: a cached
   rule hides an uncached one of higher priority, or one of the same priority that stands before it.
   */
  lemma LookupIsSearchExactly(t: Table, c: Cache, pkt: MatchField)
    requires Sound(t, t.tail) && CacheSound(t, c)
    ensures var winner := SearchT(t, pkt).1;
            LookupT(t, c, pkt).2 == winner
            <==> SearchCacheT(t, c, pkt).1 == NO_MATCH || (winner >= 0 && VisitedFirst(t, c, pkt, winner))
  {
    hide Index, Agree, Matches, CacheSound, Leader, CountedSlots, SlotCandidates, Visited;
    SearchWinner(t, pkt);
    HitIsFirstOfBest(t, c, pkt);
  }

  /** The hit is in the first visited slot among those of the matches of its priority, which is the highest. */
  lemma HitIsFirstOfBest(t: Table, c: Cache, pkt: MatchField)
    requires Sound(t, t.tail) && CacheSound(t, c)
    ensures var hit := SearchCacheT(t, c, pkt).1;
            hit != NO_MATCH ==>
              exists b :: 0 <= b < |Visited(c)| && SlotOfRow(c, b, hit)
                && 0 <= hit < t.tail && Matches(t, hit, pkt)
                && forall j, p :: 0 <= j < |Visited(c)| && 0 <= p < t.tail && SlotOfRow(c, j, p)
                                  && Matches(t, p, pkt) ==>
                     || t.rows[p][PRIORITY] as nat < t.rows[hit][PRIORITY] as nat
                     || (t.rows[p][PRIORITY] as nat == t.rows[hit][PRIORITY] as nat && b <= j)
  {
    hide Index, Agree, Matches, SlotMatches, CountedSlots, Best;
    var n := |Visited(c)|;
    var cands := SlotCandidates(t, c, pkt, n);
    BestWins(cands);
    var b := Best(cands);
    if b != NO_MATCH {
      if Visited(c)[b].mask == -1 { UnwrittenNeverMatches(t, c, pkt, b); }
      SlotMatchIsMatch(t, c, pkt, b);
      assert SlotOfRow(c, b, Visited(c)[b].row);
      forall j, p | 0 <= j < n && 0 <= p < t.tail && SlotOfRow(c, j, p) && Matches(t, p, pkt)
        ensures cands[j].hit && cands[j].priority == t.rows[p][PRIORITY] as nat
      {
        SlotMatchIsMatch(t, c, pkt, j);
      }
    }
  }

  /** No two rules that match the packet have the same priority. */
  ghost predicate DistinctPriorities(t: Table, pkt: MatchField)
    requires Sound(t, t.tail)
  {
    forall p, q :: 0 <= p < q < t.tail && Matches(t, p, pkt) && Matches(t, q, pkt) ==>
      t.rows[p][PRIORITY] as nat != t.rows[q][PRIORITY] as nat
  }

  /**
   When matching rules have distinct priorities, a lookup finds what a full search would find exactly when
   the cache has no hit at all or has the winner itself.
   */
  lemma LookupOfDistinctPriorities(t: Table, c: Cache, pkt: MatchField)
    requires Sound(t, t.tail) && CacheSound(t, c) && DistinctPriorities(t, pkt)
    ensures var winner := SearchT(t, pkt).1;
            LookupT(t, c, pkt).2 == winner
            <==> SearchCacheT(t, c, pkt).1 == NO_MATCH || IsCached(c, winner)
  {
    hide Index, Agree, Matches, SearchCacheT, IsCached, CacheSound;
    HitIsBestCached(t, c, pkt);
    SearchWinner(t, pkt);
  }

  lemma SearchWinner(t: Table, pkt: MatchField)
    requires Sound(t, t.tail)
    ensures var w := SearchT(t, pkt).1;
            && w >= NO_MATCH
            && (w == NO_MATCH <==> forall p :: 0 <= p < t.tail ==> !Matches(t, p, pkt))
            && (w >= 0 ==>
                  && w < t.tail && Matches(t, w, pkt)
                  && forall p :: 0 <= p < t.tail && Matches(t, p, pkt) ==>
                       t.rows[p][PRIORITY] as nat <= t.rows[w][PRIORITY] as nat)
  {
    hide Matches;
    BestWins(Candidates(t, pkt));
    assert forall p :: 0 <= p < t.tail ==> Candidates(t, pkt)[p].hit == Matches(t, p, pkt);
    assert forall p :: 0 <= p < t.tail ==> Candidates(t, pkt)[p].priority == t.rows[p][PRIORITY] as nat;
  }

  /** If at most one rule matches, the cache never changes the answer. */
  lemma LookupOfUniqueMatch(t: Table, c: Cache, pkt: MatchField)
    requires Sound(t, t.tail) && CacheSound(t, c)
    requires forall p, q :: 0 <= p < q < t.tail ==> !(Matches(t, p, pkt) && Matches(t, q, pkt))
    ensures LookupT(t, c, pkt).2 == SearchT(t, pkt).1
  {
    hide Index, Agree, Matches, SearchCacheT, IsCached, CacheSound;
    HitIsBestCached(t, c, pkt);
    SearchWinner(t, pkt);
  }

  // ---- runs ----

  /** Packets and modifications: everything but adding and deleting rules. */
  datatype QuietOp = Packet(pkt: MatchField) | Change(target: MatchField, flag: FlagWord, values: seq<byte>)

  lemma CountedSlotsKeep(t: Table, c: Cache, pkt: MatchField, n: nat, p: nat)
    requires Shaped(t) && InRange(c) && n <= |Visited(c)| && p < NO_F_FLWS
    ensures CountedSlots(t, c, pkt, n)[p][..COUNTER] == t.rows[p][..COUNTER]
    decreases n
  {
    hide SlotMatches;
    if n > 0 {
      CountedSlotsKeep(t, c, pkt, n - 1, p);
      var rows := CountedSlots(t, c, pkt, n - 1);
      assert Bump(rows[p])[..COUNTER] == rows[p][..COUNTER];
    }
  }

  /** Counting packets is invisible to matching and to priorities. */
  lemma CountedSlotsSeen(t: Table, c: Cache, pkt: MatchField, n: nat, p: nat, mask: MatchField)
    requires Shaped(t) && InRange(c) && n <= |Visited(c)| && p < NO_F_FLWS
    ensures var row := CountedSlots(t, c, pkt, n)[p];
            Agree(mask, pkt, row) == Agree(mask, pkt, t.rows[p]) && row[PRIORITY] == t.rows[p][PRIORITY]
  {
    hide Agree, CountedSlots;
    CountedSlotsKeep(t, c, pkt, n, p);
    var row := CountedSlots(t, c, pkt, n)[p];
    assert row[..MTCH_FLD_LEN] == row[..COUNTER][..MTCH_FLD_LEN] == t.rows[p][..MTCH_FLD_LEN];
    assert row[PRIORITY] == row[..COUNTER][PRIORITY] == t.rows[p][PRIORITY];
    AgreeOnPrefix(mask, pkt, row);
    AgreeOnPrefix(mask, pkt, t.rows[p]);
  }

  /** A search of the cache without a hit counts nothing. */
  lemma {:induction false} MissCountsNothing(t: Table, c: Cache, pkt: MatchField, n: nat)
    requires Shaped(t) && InRange(c) && n <= |Visited(c)|
    requires Best(SlotCandidates(t, c, pkt, n)) < 0
    ensures CountedSlots(t, c, pkt, n) == t.rows
    decreases n
  {
    hide SlotMatches;
    if n > 0 {
      assert SlotCandidates(t, c, pkt, n)[..n - 1] == SlotCandidates(t, c, pkt, n - 1);
      MissCountsNothing(t, c, pkt, n - 1);
    }
  }

  /** Slot `i` of those visited names row `p` and matches the packet. */
  predicate Hit(t: Table, c: Cache, pkt: MatchField, i: nat, p: nat)
    requires Shaped(t) && InRange(c) && i < |Visited(c)|
  {
    var s := Visited(c)[i];
    assert s == c.slots[CACHE_SIZE - c.top + i];
    s.mask != -1 && s.row == p && BitsAgree(t.masks[s.mask], pkt, t.rows[p])
  }

  /** How many of the first `n` slots visited do. */
  function SlotHits(t: Table, c: Cache, pkt: MatchField, n: nat, p: nat): nat
    requires Shaped(t) && InRange(c) && n <= |Visited(c)|
    decreases n
  {
    if n == 0 then 0 else SlotHits(t, c, pkt, n - 1, p) + if Hit(t, c, pkt, n - 1, p) then 1 else 0
  }

  lemma CountedSlot(t: Table, c: Cache, pkt: MatchField, n: nat, p: nat)
    requires Shaped(t) && InRange(c) && n < |Visited(c)| && p < 20
    ensures CountedSlots(t, c, pkt, n + 1)[p][46]
            == CountedSlots(t, c, pkt, n)[p][46] + if Hit(t, c, pkt, n, p) then 1 else 0
  {
    hide Agree, BitsAgree;
    var s := Visited(c)[n];
    assert s == c.slots[CACHE_SIZE - c.top + n];
    if s.mask != -1 {
      AgreeIsBits(t.masks[s.mask], pkt, t.rows[s.row]);
    }
  }

  function CountIn(row: FlowRow): nat {
    row[46] as nat
  }

  /** A search of the cache counts the packet in byte 46 of a row, modulo 256, once for every such slot. */
  lemma {:induction false} CacheCounts(t: Table, c: Cache, pkt: MatchField, n: nat, p: nat)
    requires Shaped(t) && InRange(c) && n <= |Visited(c)| && p < 20
    ensures CountIn(CountedSlots(t, c, pkt, n)[p]) == (CountIn(t.rows[p]) + SlotHits(t, c, pkt, n, p)) % 256
    decreases n
  {
    hide Hit, CountedSlots, Visited, CountIn;
    if n == 0 {
      CountsWrap(t.rows[p]);
      CacheSearchStart(t, c, pkt);
    } else {
      CacheCounts(t, c, pkt, n - 1, p);
      CountedSlot(t, c, pkt, n - 1, p);
      CountOn(CountedSlots(t, c, pkt, n - 1)[p], CountedSlots(t, c, pkt, n)[p],
              CountIn(t.rows[p]) + SlotHits(t, c, pkt, n - 1, p), Hit(t, c, pkt, n - 1, p));
    }
  }

  lemma CountsWrap(row: FlowRow)
    ensures CountIn(row) == CountIn(row) % 256
  {
    WrapAround(row[46]);
  }

  lemma CountOn(a: FlowRow, b: FlowRow, n: nat, hit: bool)
    requires CountIn(a) == n % 256 && b[46] == a[46] + if hit then 1 else 0
    ensures CountIn(b) == (n + if hit then 1 else 0) % 256
  {
    if hit {
      OneMore(a[46], n);
    } else {
      assert a[46] + 0 == a[46];
    }
  }

  lemma CacheSearchStart(t: Table, c: Cache, pkt: MatchField)
    requires Shaped(t) && InRange(c)
    ensures CountedSlots(t, c, pkt, 0) == t.rows && Leader(t, c, pkt, 0) == NO_MATCH
  {
    assert SlotCandidates(t, c, pkt, 0) == [];
  }

  /** One slot of the cache search, in terms of the rows as counted so far. */
  lemma CacheSearchStep(t: Table, c: Cache, pkt: MatchField, n: nat)
    requires Shaped(t) && InRange(c) && n < |Visited(c)|
    ensures var s, rows, best := Visited(c)[n], CountedSlots(t, c, pkt, n), Leader(t, c, pkt, n);
            && (s.mask == -1 || (0 <= s.mask < NO_F_FLWS && 0 <= s.row < NO_F_FLWS))
            && var hit := s.mask != -1 && Agree(t.masks[s.mask], pkt, rows[s.row]);
               && CountedSlots(t, c, pkt, n + 1) == (if hit then rows[s.row := Bump(rows[s.row])] else rows)
               && Leader(t, c, pkt, n + 1)
                  == if hit && (best < 0 || rows[best][PRIORITY] < rows[s.row][PRIORITY]) then s.row else best
  {
    hide Agree, Bump;
    var s, best := Visited(c)[n], Leader(t, c, pkt, n);
    assert c.slots[CACHE_SIZE - c.top + n] == s;
    assert SlotCandidates(t, c, pkt, n + 1)[..n] == SlotCandidates(t, c, pkt, n);
    if s.mask != -1 {
      CountedSlotsSeen(t, c, pkt, n, s.row, t.masks[s.mask]);
      if best >= 0 {
        CountedSlotsSeen(t, c, pkt, n, best, t.masks[0]);
        ByteOrder(t.rows[best][PRIORITY], t.rows[s.row][PRIORITY]);
      }
    }
  }

  /** Any change of rows that leaves the match fields alone leaves masks and groups alone. */
  lemma SameMarks(t: Table, t': Table)
    requires Sound(t, t.tail)
    requires Shaped(t') && t'.tail == t.tail && t'.maskTail == t.maskTail
    requires forall p :: 0 <= p < t.tail ==> t'.rows[p][..MTCH_FLD_LEN] == t.rows[p][..MTCH_FLD_LEN]
    ensures Marks(t') == Marks(t) && Sound(t', t'.tail)
  {
    hide BitOf;
    forall p | 0 <= p < t.tail
      ensures t'.rows[p][44] == t.rows[p][44]
    {
      assert t'.rows[p][..MTCH_FLD_LEN][44] == t.rows[p][..MTCH_FLD_LEN][44];
    }
  }

  lemma CacheSearchKeepsSound(t: Table, c: Cache, pkt: MatchField)
    requires Sound(t, t.tail) && CacheSound(t, c)
    ensures var t' := SearchCacheT(t, c, pkt).0;
            Sound(t', t'.tail) && CacheSound(t', c)
  {
    hide Index, SlotMatches, CountedSlots, Leader;
    var t' := SearchCacheT(t, c, pkt).0;
    forall p | 0 <= p < t.tail
      ensures t'.rows[p][..MTCH_FLD_LEN] == t.rows[p][..MTCH_FLD_LEN]
    {
      CountedSlotsKeep(t, c, pkt, |Visited(c)|, p);
      assert t'.rows[p][..COUNTER][..MTCH_FLD_LEN] == t.rows[p][..COUNTER][..MTCH_FLD_LEN];
    }
    SameMarks(t, t');
  }

  /** A winner's slot is that of a live row with its own mask. */
  lemma SearchKeepsCacheSound(t: Table, c: Cache, pkt: MatchField)
    requires Sound(t, t.tail) && CacheSound(t, c)
    ensures var (t', c', r) := SearchFlowT(t, c, pkt);
            Sound(t', t'.tail) && CacheSound(t', c')
  {
    hide Index, Matches, SearchT;
    SearchKeeps(t, pkt);
    SearchWinner(t, pkt);
    assert SearchT(t, pkt).0.tail == t.tail by { SearchSize(t, pkt); }
  }

  lemma SearchSize(t: Table, pkt: MatchField)
    requires Sound(t, t.tail)
    ensures SearchT(t, pkt).0.tail == t.tail
  {
  }

  lemma LookupKeepsSound(t: Table, c: Cache, pkt: MatchField)
    requires Sound(t, t.tail) && CacheSound(t, c)
    ensures var (t', c', r) := LookupT(t, c, pkt);
            Sound(t', t'.tail) && CacheSound(t', c')
  {
    hide CacheSound, SearchCacheT, SearchFlowT, Index;
    CacheSearchKeepsSound(t, c, pkt);
    SearchKeepsCacheSound(t, c, pkt);
  }

  lemma ChangeKeepsSound(t: Table, c: Cache, pkt: MatchField, flag: FlagWord, values: seq<byte>)
    requires Sound(t, t.tail) && CacheSound(t, c)
    requires SearchT(t, pkt).1 >= 0 && EnoughValues(flag, values)
    ensures var t' := ModifyT(t, pkt, flag, values).0;
            Sound(t', t'.tail) && CacheSound(t', c)
  {
    hide Index, Matches, EnoughValues, EditedTo, Value, Selected, Fields.ByteOf;
    SearchKeeps(t, pkt);
    SearchWinner(t, pkt);
    var (t1, p) := SearchT(t, pkt);
    var t' := ModifyT(t, pkt, flag, values).0;
    assert EditedRow(t1.rows[p], flag, values)[..MTCH_FLD_LEN] == t1.rows[p][..MTCH_FLD_LEN];
    SameMarks(t1, t');
  }

  predicate QuietLegal(t: Table, c: Cache, op: QuietOp) {
    && Sound(t, t.tail) && InRange(c)
    && (op.Change? ==> SearchT(t, op.target).1 >= 0 && EnoughValues(op.flag, op.values))
  }

  function QuietStep(t: Table, c: Cache, op: QuietOp): (Table, Cache)
    requires QuietLegal(t, c, op)
  {
    match op
    case Packet(pkt) => var (t', c', _) := LookupT(t, c, pkt); (t', c')
    case Change(pkt, flag, values) => (ModifyT(t, pkt, flag, values).0, c)
  }

  predicate QuietLegalRun(t: Table, c: Cache, ops: seq<QuietOp>)
    decreases |ops|
  {
    |ops| == 0 ||
    (QuietLegal(t, c, ops[0]) && QuietLegalRun(QuietStep(t, c, ops[0]).0, QuietStep(t, c, ops[0]).1, ops[1..]))
  }

  function QuietRun(t: Table, c: Cache, ops: seq<QuietOp>): (Table, Cache)
    requires QuietLegalRun(t, c, ops)
    decreases |ops|
  {
    if |ops| == 0 then (t, c)
    else QuietRun(QuietStep(t, c, ops[0]).0, QuietStep(t, c, ops[0]).1, ops[1..])
  }

  lemma StepKeepsSound(t: Table, c: Cache, op: QuietOp)
    requires Sound(t, t.tail) && CacheSound(t, c) && QuietLegal(t, c, op)
    ensures var (t', c') := QuietStep(t, c, op);
            Sound(t', t'.tail) && CacheSound(t', c')
  {
    match op
    case Packet(pkt) =>
      LookupKeepsSound(t, c, pkt);
    case Change(pkt, flag, values) =>
      ChangeKeepsSound(t, c, pkt, flag, values);
  }

  /**
   Over any run of packets and modifications from a cleared cache, every written
   slot stays the (mask, row) pair of a live row; so at every point of the run
   HitIsBestCached, LookupIsSearchExactly and LookupOfUniqueMatch apply.
   */
  lemma {:induction false} QuietRunKeepsSound(t: Table, c: Cache, ops: seq<QuietOp>)
    requires Sound(t, t.tail) && CacheSound(t, c) && QuietLegalRun(t, c, ops)
    ensures var (t', c') := QuietRun(t, c, ops);
            Sound(t', t'.tail) && CacheSound(t', c')
    decreases |ops|
  {
    hide CacheSound, QuietStep, QuietLegal;
    if |ops| > 0 {
      assert QuietLegal(t, c, ops[0]);
      StepKeepsSound(t, c, ops[0]);
      QuietRunKeepsSound(QuietStep(t, c, ops[0]).0, QuietStep(t, c, ops[0]).1, ops[1..]);
    }
  }

  /** `init` leaves a cache that is sound for every table. */
  lemma ClearedIsSound(t: Table, c: Cache)
    requires Sound(t, t.tail) && Cleared(c)
    ensures CacheSound(t, c) && Visited(c) == []
  {
  }
}
