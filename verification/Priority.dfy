/**
 Which of several matching rules wins: OpenFlow Switch Specification 1.4,
 section 5.3 "Matching", as `search_tcam` and `search_cache` decide it
 (flow-processing-unit/flow_unit.h:319-330 and 369-385).
 */
module Priority {
  import opened Lists

  const NO_MATCH: int := -1

  /** A rule as seen by one lookup: does it match, and with what priority. */
  datatype Candidate = Candidate(hit: bool, priority: nat)

  /** One pass over the candidates; a later one replaces the leader only if its priority is higher. */
  function Best(c: seq<Candidate>): (r: int)
    ensures r == NO_MATCH || (0 <= r < |c| && c[r].hit)
  {
    if |c| == 0 then NO_MATCH
    else
      var n := |c| - 1;
      var b := Best(c[..n]);
      if c[n].hit && (b < 0 || c[b].priority < c[n].priority) then n else b
  }

  /** `r` wins: it matches, and every other match is of lower priority, or equal and later. */
  ghost predicate Wins(c: seq<Candidate>, r: int) {
    && 0 <= r < |c| && c[r].hit
    && forall q :: 0 <= q < |c| && c[q].hit ==>
         c[q].priority < c[r].priority || (c[q].priority == c[r].priority && r <= q)
  }

  /** The pass finds the winner, and reports no match exactly when nothing matches. */
  lemma {:induction false} BestWins(c: seq<Candidate>)
    ensures Best(c) == NO_MATCH <==> forall q :: 0 <= q < |c| ==> !c[q].hit
    ensures Best(c) != NO_MATCH ==> Wins(c, Best(c))
  {
    if |c| > 0 {
      var n := |c| - 1;
      BestWins(c[..n]);
      forall q | 0 <= q < n
        ensures c[q] == c[..n][q]
      {
      }
    }
  }

  /** Where old row `r` is once a row has been put in front of row `pos`. */
  function ShiftedUp(r: int, pos: nat): int {
    if r < pos then r else r + 1
  }

  /**
   A lookup after an insertion, predicted from the lookup before it: the new
   rule wins exactly when it matches and either nothing matched, or it beats
   the old winner's priority, or it ties it from an earlier row.
   */
  lemma {:induction false} BestAfterInsert(c: seq<Candidate>, pos: nat, x: Candidate)
    requires pos <= |c|
    ensures var b := Best(c);
            Best(InsertAt(c, pos, x))
            == if x.hit && (b < 0 || c[b].priority < x.priority || (c[b].priority == x.priority && pos <= b))
               then pos else ShiftedUp(b, pos)
    decreases |c|
  {
    hide InsertAt;
    var c' := InsertAt(c, pos, x);
    var n := |c|;
    InsertedElement(c, pos, x, n);
    PrefixOfInsert(c, pos, x);
    if pos < n {
      var d := c[..n - 1];
      BestAfterInsert(d, pos, x);
      InsertedElement(c, pos, x, pos);
      if Best(d) >= 0 {
        InsertedElement(c, pos, x, ShiftedUp(Best(d), pos));
      }
    }
  }

  lemma PrefixOfInsert(c: seq<Candidate>, pos: nat, x: Candidate)
    requires pos <= |c|
    ensures InsertAt(c, pos, x)[..|c|] == if pos == |c| then c else InsertAt(c[..|c| - 1], pos, x)
  {
  }

  /** Taking out a rule other than the winner leaves the winner the winner. */
  lemma BestAfterRemove(c: seq<Candidate>, pos: nat)
    requires pos < |c| && Best(c) != pos
    ensures ShiftedUp(Best(RemoveAt(c, pos)), pos) == Best(c)
  {
    BestAfterInsert(RemoveAt(c, pos), pos, c[pos]);
    InsertRemoved(c, pos);
  }
}
