/**
 How a row knows its mask (flow-processing-unit/flow_unit.h:171-206).

 No flow row stores the number of its mask. The first row of every mask group
 but the first carries a marker bit, and the mask of a row is the number of
 markers from row 0 up to and including that row. Everything here is about
 `m`, the markers of the live rows.
 */
module MaskGroups {
  import opened Lists

  const STR_ERR: int := -10

  function Count(m: seq<bool>): (n: nat)
    ensures n <= |m|
  {
    if |m| == 0 then 0
    else Count(m[..|m| - 1]) + if m[|m| - 1] then 1 else 0
  }

  /** The mask of row `p`: what `get_mask_pos` returns. */
  function Index(m: seq<bool>, p: nat): nat
    requires p < |m|
  {
    Count(m[..p + 1])
  }

  /** The first row of group `k`: what `locate_mask_group` returns. */
  function Locate(m: seq<bool>, k: nat): int {
    if k == 0 then 0 else LocateMarker(m, k)
  }

  /** The row that carries the k-th marker. */
  function LocateMarker(m: seq<bool>, k: nat): (r: int)
    ensures r == STR_ERR || 0 <= r < |m|
  {
    if |m| == 0 then STR_ERR
    else if Count(m[..|m| - 1]) >= k then LocateMarker(m[..|m| - 1], k)
    else if m[|m| - 1] && Count(m[..|m| - 1]) + 1 == k then |m| - 1
    else STR_ERR
  }

  /** The first row after `start` that begins another group, or the end of the table. */
  function GroupEnd(m: seq<bool>, start: nat): (e: nat)
    ensures start < e
    ensures start < |m| ==> e <= |m|
    ensures forall q :: start < q < e && q < |m| ==> !m[q]
    ensures e < |m| ==> m[e]
    decreases |m| - start
  {
    if start + 1 >= |m| || m[start + 1] then start + 1 else GroupEnd(m, start + 1)
  }

  lemma {:induction false} CountConcat(a: seq<bool>, b: seq<bool>)
    ensures Count(a + b) == Count(a) + Count(b)
    decreases |b|
  {
    if |b| == 0 {
      assert a + b == a;
    } else {
      assert (a + b)[..|a + b| - 1] == a + b[..|b| - 1];
      CountConcat(a, b[..|b| - 1]);
    }
  }

  lemma CountSplit(m: seq<bool>, p: nat, q: nat)
    requires p <= q <= |m|
    ensures Count(m[..q]) == Count(m[..p]) + Count(m[p..q])
  {
    assert m[..q] == m[..p] + m[p..q];
    CountConcat(m[..p], m[p..q]);
  }

  lemma {:induction false} CountNone(m: seq<bool>)
    requires forall i :: 0 <= i < |m| ==> !m[i]
    ensures Count(m) == 0
    decreases |m|
  {
    if |m| > 0 {
      CountNone(m[..|m| - 1]);
    }
  }

  lemma {:induction false} CountFull(m: seq<bool>)
    ensures Count(m) == |m| <==> forall i :: 0 <= i < |m| ==> m[i]
    decreases |m|
  {
    if |m| > 0 {
      CountFull(m[..|m| - 1]);
    }
  }

  /** Row `p` itself contributes its marker. */
  lemma IndexStep(m: seq<bool>, p: nat)
    requires p < |m|
    ensures Index(m, p) == Count(m[..p]) + if m[p] then 1 else 0
  {
    assert m[..p + 1][..p] == m[..p];
  }

  lemma IndexIsCount(m: seq<bool>, p: nat)
    requires p < |m|
    ensures Index(m, p) == Count(m[..p + 1])
  {
  }

  lemma IndexMonotone(m: seq<bool>, p: nat, q: nat)
    requires p <= q < |m|
    ensures Index(m, p) <= Index(m, q) <= Count(m)
  {
    CountSplit(m, p + 1, q + 1);
    CountSplit(m, q + 1, |m|);
    assert m[..|m|] == m;
  }

  /** Two rows share their mask exactly when no group starts between them. */
  lemma SameGroup(m: seq<bool>, p: nat, q: nat)
    requires p <= q < |m|
    ensures Index(m, p) == Index(m, q) <==> forall i :: p < i <= q ==> !m[i]
  {
    CountSplit(m, p + 1, q + 1);
    if forall i :: p < i <= q ==> !m[i] {
      CountNone(m[p + 1..q + 1]);
    } else {
      var i :| p < i <= q && m[i];
      IndexStep(m, i);
      CountSplit(m, p + 1, i);
      IndexMonotone(m, i, q);
    }
  }

  lemma {:induction false} LocateMarkerSpec(m: seq<bool>, k: nat)
    requires k > 0
    ensures LocateMarker(m, k) == STR_ERR <==> Count(m) < k
    ensures var r := LocateMarker(m, k); r >= 0 ==> m[r] && Index(m, r) == k
    decreases |m|
  {
    if |m| > 0 {
      var n := |m| - 1;
      LocateMarkerSpec(m[..n], k);
      if Count(m[..n]) >= k {
        var r := LocateMarker(m[..n], k);
        assert m[..n][..r + 1] == m[..r + 1];
      } else {
        assert m[..n + 1] == m;
      }
    }
  }

  lemma MarkerIsUnique(m: seq<bool>, p: nat, q: nat)
    requires p < |m| && q < |m| && m[p] && m[q]
    requires Index(m, p) == Index(m, q)
    ensures p == q
  {
    if p < q {
      SameGroup(m, p, q);
    } else if q < p {
      SameGroup(m, q, p);
    }
  }

  /** The row at which the count of markers reaches `k` is the one located. */
  lemma MarkerIsLocated(m: seq<bool>, k: nat, i: nat)
    requires k > 0 && i < |m| && m[i] && Count(m[..i]) + 1 == k
    ensures LocateMarker(m, k) == i
  {
    IndexStep(m, i);
    IndexMonotone(m, i, i);
    LocateMarkerSpec(m, k);
    MarkerIsUnique(m, i, LocateMarker(m, k));
  }

  predicate StartsGroup(m: seq<bool>, p: nat)
    requires p < |m|
  {
    p == 0 || m[p]
  }

  /**
   `get_mask_pos` and `locate_mask_group` are adjoint: going from a mask to its
   group and back is the identity. In particular every mask from that of row 0
   to the last owns a row.
   */
  lemma MaskOfLocatedGroup(m: seq<bool>, k: nat)
    requires |m| > 0 && Index(m, 0) <= k <= Count(m)
    ensures 0 <= Locate(m, k) < |m| && Index(m, Locate(m, k)) == k
    ensures StartsGroup(m, Locate(m, k))
  {
    if k == 0 {
      IndexStep(m, 0);
    } else {
      LocateMarkerSpec(m, k);
    }
  }

  /** ... and going from a row to its group finds the last group start not after the row. */
  lemma LocatedGroupOfRow(m: seq<bool>, p: nat)
    requires p < |m|
    ensures var g := Locate(m, Index(m, p));
            && 0 <= g <= p
            && StartsGroup(m, g)
            && forall i :: g < i <= p ==> !StartsGroup(m, i)
  {
    IndexMonotone(m, 0, p);
    MaskOfLocatedGroup(m, Index(m, p));
    var g := Locate(m, Index(m, p));
    if g > p {
      SameGroup(m, p, g);
    }
    SameGroup(m, g, p);
  }

  /** The rows of the group that starts at `start` are exactly those before `GroupEnd`. */
  lemma GroupExtent(m: seq<bool>, start: nat, q: nat)
    requires start < |m| && q < |m|
    requires StartsGroup(m, start)
    ensures Index(m, q) == Index(m, start) <==> start <= q < GroupEnd(m, start)
  {
    var e := GroupEnd(m, start);
    if start <= q {
      SameGroup(m, start, q);
    } else {
      SameGroup(m, q, start);
    }
  }

  lemma {:induction false} CountAfterInsert(m: seq<bool>, pos: nat, b: bool)
    requires pos <= |m|
    ensures Count(InsertAt(m, pos, b)) == Count(m) + if b then 1 else 0
    decreases |m|
  {
    var n := |m|;
    if pos == n {
      assert InsertAt(m, pos, b)[..n] == m;
    } else {
      assert InsertAt(m, pos, b)[..n] == InsertAt(m[..n - 1], pos, b);
      CountAfterInsert(m[..n - 1], pos, b);
    }
  }

  /** A row put in front of row `pos` with marker `b`, and what it does to everyone's mask. */
  lemma IndexAfterInsert(m: seq<bool>, pos: nat, b: bool, q: nat)
    requires pos <= |m| && q < |m|
    ensures Index(InsertAt(m, pos, b), if q < pos then q else q + 1)
            == Index(m, q) + if b && q >= pos then 1 else 0
  {
    var m' := InsertAt(m, pos, b);
    if q < pos {
      assert m'[..q + 1] == m[..q + 1];
    } else {
      assert m'[..q + 2] == InsertAt(m[..q + 1], pos, b);
      CountAfterInsert(m[..q + 1], pos, b);
    }
  }

  lemma IndexOfInserted(m: seq<bool>, pos: nat, b: bool)
    requires pos <= |m|
    ensures Index(InsertAt(m, pos, b), pos) == Count(m[..pos]) + if b then 1 else 0
  {
    var m' := InsertAt(m, pos, b);
    IndexStep(m', pos);
    assert m'[..pos] == m[..pos];
  }

  /** A row taken out, and what its marker's disappearance does to everyone's mask. */
  lemma IndexAfterRemove(m: seq<bool>, pos: nat, q: nat)
    requires pos < |m| && q < |m| && q != pos
    ensures Index(RemoveAt(m, pos), if q < pos then q else q - 1)
            == Index(m, q) - if m[pos] && q > pos then 1 else 0
  {
    InsertRemoved(m, pos);
    IndexAfterInsert(RemoveAt(m, pos), pos, m[pos], if q < pos then q else q - 1);
  }

  lemma CountAfterRemove(m: seq<bool>, pos: nat)
    requires pos < |m|
    ensures Count(RemoveAt(m, pos)) == Count(m) - if m[pos] then 1 else 0
  {
    InsertRemoved(m, pos);
    CountAfterInsert(RemoveAt(m, pos), pos, m[pos]);
  }

  /** The next row becomes leader of the deleted leader's group. */
  predicate HandsOver(m: seq<bool>, p: nat)
    requires p < |m|
  {
    m[p] && p + 1 < |m| && !m[p + 1]
  }

  /**
   Deleting row `p`, in terms of the rows that survive. When the leadership is
   handed over, the markers are those of a deletion of the next row.
   */
  lemma IndexAfterDelete(m: seq<bool>, p: nat, q: nat)
    requires p < |m| && q + 1 < |m|
    ensures var o := if q < p then q else q + 1;
            var drops := m[p] && !HandsOver(m, p);
            && Index(RemoveAt(m, if HandsOver(m, p) then p + 1 else p), q)
               == Index(m, o) - (if drops && o > p then 1 else 0)
            && (drops && o < p ==> Index(m, o) < Index(m, p))
            && (drops && o > p ==> Index(m, o) > Index(m, p))
  {
    hide Index, RemoveAt;
    var o := if q < p then q else q + 1;
    if HandsOver(m, p) {
      SameGroup(m, p, p + 1);
      IndexAfterRemove(m, p + 1, if q == p then p else o);
    } else {
      IndexAfterRemove(m, p, o);
      if o < p {
        SameGroup(m, o, p);
        IndexMonotone(m, o, p);
      } else {
        SameGroup(m, p, o);
        IndexMonotone(m, p, o);
        assert p + 1 <= o;
      }
    }
  }
}
