/** The flow cache as the code keeps it, and the lookup of a packet through it. */
module FlowUnit {
  import opened Bytes
  import opened Fields
  import opened Matching
  import opened RowTables
  import opened FlowModel
  import opened MaskGroups
  import opened CacheModel
  import opened Tcam
  import opened ActionFields

  class FlowUnit {
    const tcam: TcamUnit
    const flowCache: array2<int>
    var cacheTop: nat

    ghost predicate Valid()
      reads this, tcam, flowCache
    {
      && tcam.Valid()
      && flowCache.Length0 == CACHE_SIZE && flowCache.Length1 == 2
      && InRange(CacheState())
    }

    /** The cache as a value. */
    ghost function CacheState(): Cache
      requires flowCache.Length0 == CACHE_SIZE && flowCache.Length1 == 2
      reads this, flowCache
    {
      Cache(
        seq(CACHE_SIZE, i requires 0 <= i < CACHE_SIZE reads flowCache => CacheSlot(flowCache[i, 0], flowCache[i, 1])),
        cacheTop)
    }

    ghost function Tables(): Table
      requires tcam.Valid()
      reads tcam, tcam.flowTable, tcam.maskTable, tcam.actionTable, tcam.flagTable
    {
      tcam.Tables()
    }

    /** `init`: marks every slot unwritten. */
    constructor (tcam: TcamUnit)
      requires tcam.Valid()
      ensures this.tcam == tcam && Valid() && Cleared(CacheState()) && fresh(flowCache)
    {
      this.tcam := tcam;
      flowCache := new int[CACHE_SIZE, 2];
      cacheTop := 1;
      new;
      for i := 0 to CACHE_SIZE
        invariant tcam.Valid() && cacheTop == 1
        invariant forall j :: 0 <= j < i ==> flowCache[j, 0] == -1
      {
        flowCache[i, 0] := -1;
      }
    }

    /**
     Looks at the cached rules only. flow_unit.h:304 starts one slot beyond those
     written; in the first lap that slot is still unwritten, and is skipped here
     where the code would index the mask table by -1.
     */
    method SearchCache(flow: array<byte>) returns (matchNo: int)
      requires Valid()
      requires flow.Length >= MTCH_FLD_LEN && tcam.Foreign(flow)
      modifies tcam.flowTable
      ensures Valid() && CacheState() == old(CacheState())
      ensures (Tables(), matchNo) == SearchCacheT(old(Tables()), old(CacheState()), flow[..MTCH_FLD_LEN])
    {
      hide Agree, RowsOf, CountedSlots, Leader, TcamUnit.Tables;
      ghost var t, c, pkt := Tables(), CacheState(), flow[..MTCH_FLD_LEN];
      matchNo := -1;
      CacheSearchStart(t, c, pkt);
      if cacheTop > 1 {
        var l := cacheTop;
        while l > 0
          invariant 0 <= l <= cacheTop && Valid() && CacheState() == c
          invariant flow[..MTCH_FLD_LEN] == pkt
          invariant Tables() == t.(rows := CountedSlots(t, c, pkt, cacheTop - l))
          invariant matchNo == Leader(t, c, pkt, cacheTop - l)
        {
          var mask, row := flowCache[CACHE_SIZE - l, 0], flowCache[CACHE_SIZE - l, 1];
          assert Visited(c)[cacheTop - l] == c.slots[CACHE_SIZE - l] == CacheSlot(mask, row);
          CacheSearchStep(t, c, pkt, cacheTop - l);
          if mask != -1 {
            matchNo := tcam.VisitRow(flow, mask, row, matchNo);
          }
          l := l - 1;
        }
      }
    }

    /** The winner of a full search takes the next slot, from the last to the first and round again. */
    method Record(maskPos: int, pos: int)
      requires Valid() && 0 <= maskPos < NO_F_FLWS && 0 <= pos < NO_F_FLWS
      modifies this`cacheTop, flowCache
      ensures Valid() && CacheState() == Recorded(old(CacheState()), maskPos, pos) && Tables() == old(Tables())
    {
      hide RowsOf;
      ghost var c := CacheState();
      flowCache[CACHE_SIZE - cacheTop, 0] := maskPos;
      flowCache[CACHE_SIZE - cacheTop, 1] := pos;
      cacheTop := cacheTop + 1;
      if cacheTop > CACHE_SIZE {
        cacheTop := 1;
      }
      assert CacheState() == Recorded(c, maskPos, pos);
    }

    /** Searches the tables; a winner's action set is copied out, and its mask and row are cached. */
    method SearchFlow(newFlow: array<byte>, actionSet: array<byte>) returns (pos: int)
      requires Valid()
      requires newFlow.Length >= MTCH_FLD_LEN && tcam.Foreign(newFlow)
      requires actionSet.Length == ACTN_ST_LEN && tcam.Foreign(actionSet) && actionSet != newFlow
      modifies this`cacheTop, flowCache, tcam.flowTable, actionSet
      ensures Valid()
      ensures Sound(old(Tables()), tcam.flowTail) ==>
                (Tables(), CacheState(), pos) == SearchFlowT(old(Tables()), old(CacheState()), newFlow[..MTCH_FLD_LEN])
      ensures !Sound(old(Tables()), tcam.flowTail) ==>
                && pos == STR_ERR && CacheState() == old(CacheState())
                && StoppedShort(old(Tables()), Tables(), newFlow[..MTCH_FLD_LEN])
      ensures pos >= 0 ==> pos < NO_F_FLWS && actionSet[..] == Tables().acts[pos]
      ensures pos < 0 ==> actionSet[..] == old(actionSet[..])
    {
      hide RowsOf, Agree;
      var maskPos;
      pos, maskPos := tcam.SearchTcam(newFlow);
      if pos < 0 {
        return;
      }
      CopyRow(tcam.actionTable, ACTN_ST_LEN, pos, actionSet);
      Record(maskPos, pos);
    }

    /** The lookup of `apply_action`, up to the choice of the rule and its action set. */
    method Lookup(newFlow: array<byte>, actionSet: array<byte>) returns (pos: int)
      requires Valid()
      requires newFlow.Length >= MTCH_FLD_LEN && tcam.Foreign(newFlow)
      requires actionSet.Length == ACTN_ST_LEN && tcam.Foreign(actionSet) && actionSet != newFlow
      modifies this`cacheTop, flowCache, tcam.flowTable, actionSet
      ensures Valid()
      ensures Sound(old(Tables()), tcam.flowTail) ==>
                (Tables(), CacheState(), pos) == LookupT(old(Tables()), old(CacheState()), newFlow[..MTCH_FLD_LEN])
      ensures !Sound(old(Tables()), tcam.flowTail) ==>
                var (t, hit) := SearchCacheT(old(Tables()), old(CacheState()), newFlow[..MTCH_FLD_LEN]);
                && pos == (if hit >= 0 then hit else STR_ERR) && CacheState() == old(CacheState())
                && if hit >= 0 then Tables() == t
                   else StoppedShort(old(Tables()), Tables(), newFlow[..MTCH_FLD_LEN])
      ensures pos >= 0 ==> pos < NO_F_FLWS && actionSet[..] == Tables().acts[pos]
    {
      hide RowsOf, Agree, Sound;
      ghost var t, c, pkt := Tables(), CacheState(), newFlow[..MTCH_FLD_LEN];
      pos := SearchCache(newFlow);
      if pos < 0 {
        MissCountsNothing(t, c, pkt, |Visited(c)|);
      }
      if pos >= 0 {
        CopyRow(tcam.actionTable, ACTN_ST_LEN, pos, actionSet);
      } else {
        pos := SearchFlow(newFlow, actionSet);
      }
    }

    /**
     `apply_action`: looks the packet up and prints the actions of the rule found. It returns 1 if there is
     one, and otherwise what the search returned.
     */
    method ApplyAction(newFlow: array<byte>) returns (r: int, shown: seq<Shown>)
      requires Valid()
      requires newFlow.Length >= MTCH_FLD_LEN && tcam.Foreign(newFlow)
      modifies this`cacheTop, flowCache, tcam.flowTable
      ensures Valid()
      ensures Sound(old(Tables()), tcam.flowTail) ==>
                var (t, c, pos) := LookupT(old(Tables()), old(CacheState()), newFlow[..MTCH_FLD_LEN]);
                && Tables() == t && CacheState() == c
                && if pos < 0 then r == pos && shown == []
                   else pos < NO_F_FLWS && r == 1 && shown == ShownActions(Tables().acts[pos], Tables().flags[pos])
      ensures !Sound(old(Tables()), tcam.flowTail) ==>
                var (t, hit) := SearchCacheT(old(Tables()), old(CacheState()), newFlow[..MTCH_FLD_LEN]);
                if hit < 0 then r == STR_ERR && shown == []
                else hit < NO_F_FLWS && r == 1 && shown == ShownActions(Tables().acts[hit], Tables().flags[hit])
    {
      hide RowsOf, Agree, Sound, LookupT, ShownActions;
      var actionSet := new byte[ACTN_ST_LEN](_ => 0);
      var pos := Lookup(newFlow, actionSet);
      if pos < 0 {
        return pos, [];
      }
      shown := ShowRule(pos, actionSet);
      r := 1;
    }

    method ShowRule(pos: nat, actionSet: array<byte>) returns (shown: seq<Shown>)
      requires Valid() && pos < NO_F_FLWS
      requires actionSet.Length == ACTN_ST_LEN && actionSet[..] == Tables().acts[pos]
      ensures shown == ShownActions(Tables().acts[pos], Tables().flags[pos])
    {
      hide RowsOf, InRange, ShownActions;
      var actionFlag := new byte[2](_ => 0);
      CopyRow(tcam.flagTable, 2, pos, actionFlag);
      shown := ShowActions(actionSet, actionFlag);
    }
  }
}
