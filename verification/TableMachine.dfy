/**
 The flow tables driven by whole runs: the arrays return what the list of rules
 returns, and lookups through the cache find a rule that matches.
 */
module TableMachine {
  import opened Bytes
  import opened Fields
  import opened MaskGroups
  import opened Matching
  import opened Priority
  import opened FlowModel
  import opened ModifyModel
  import opened RuleList
  import opened Refinement
  import opened TableTheorems
  import opened CacheModel
  import opened Tcam
  import opened ActionFields
  import opened FlowUnit
  import opened BrokenTables

  /** The tables stand for the list of rules `s`. */
  ghost predicate StandsFor(u: TcamUnit, s: RuleTable)
    reads u, u.flowTable, u.maskTable, u.actionTable, u.flagTable
  {
    u.Valid() && TableInv(u.Tables()) && Sound(u.Tables(), u.flowTail) && Abs(u.Tables()) == s
  }

  method ArrayOf(s: seq<byte>) returns (a: array<byte>)
    ensures fresh(a) && a[..] == s && a.Length == |s|
  {
    a := new byte[|s|](i requires 0 <= i < |s| => s[i]);
  }

  /** One operation on the arrays. */
  method Perform(u: TcamUnit, op: Op, ghost s: RuleTable) returns (r: int)
    requires StandsFor(u, s) && Legal(s, op)
    modifies u, u.flowTable, u.maskTable, u.actionTable, u.flagTable
    ensures StandsFor(u, StepR(u.line221, s, op).0) && r == StepR(u.line221, s, op).1
  {
    hide TableInv, Sound, Abs, AddT, DeleteT, ModifyT, SearchT, AddR, DeleteR, ModifyR, Lookup, MaskRoom;
    ghost var t := u.Tables();
    StepRefines(u.line221, t, op);
    match op {
      case Add(mask, entry, action, flag) =>
        var m := ArrayOf(mask);
        var e := ArrayOf(entry);
        var a := ArrayOf(action);
        var f := ArrayOf(flag);
        assert e[..MTCH_FLD_LEN + 1] == entry;
        r := u.AddNewEntry(m, e, a, f);
      case Delete(pkt) =>
        var p := ArrayOf(pkt);
        assert p[..MTCH_FLD_LEN] == pkt;
        r := u.DeleteFlowEntry(p);
      case Modify(pkt, flag, values) =>
        var p := ArrayOf(pkt);
        assert p[..MTCH_FLD_LEN] == pkt;
        var f := ArrayOf(flag);
        var vs := ArrayOf(values);
        r := u.ModifyEntry(p, f, vs);
      case Search(pkt) =>
        var p := ArrayOf(pkt);
        assert p[..MTCH_FLD_LEN] == pkt;
        var mask;
        r, mask := u.SearchTcam(p);
    }
  }

  /** A whole run on the arrays. */
  method Drive(u: TcamUnit, ops: seq<Op>, ghost s0: RuleTable) returns (results: seq<int>)
    requires StandsFor(u, s0) && LegalRun(u.line221, s0, ops)
    modifies u, u.flowTable, u.maskTable, u.actionTable, u.flagTable
    ensures StandsFor(u, RunR(u.line221, s0, ops).0) && results == RunR(u.line221, s0, ops).1
  {
    hide StandsFor, LegalRun, RunR, StepR, Legal;
    ghost var s := s0;
    results := [];
    assert ops[0..] == ops;
    for i := 0 to |ops|
      invariant StandsFor(u, s) && LegalRun(u.line221, s, ops[i..])
      invariant RunR(u.line221, s, ops[i..]).0 == RunR(u.line221, s0, ops).0
      invariant results + RunR(u.line221, s, ops[i..]).1 == RunR(u.line221, s0, ops).1
    {
      assert ops[i..][0] == ops[i] && ops[i..][1..] == ops[i + 1..];
      NextLegal(u.line221, s, ops[i..]);
      var r := Perform(u, ops[i], s);
      s := StepR(u.line221, s, ops[i]).0;
      assert results + ([r] + RunR(u.line221, s, ops[i + 1..]).1) == results + [r] + RunR(u.line221, s, ops[i + 1..]).1;
      results := results + [r];
    }
    assert ops[|ops|..] == [];
    NoLegalRun(u.line221, s);
  }

  lemma NextLegal(v: Line221, s: RuleTable, ops: seq<Op>)
    requires LegalRun(v, s, ops) && |ops| > 0
    ensures Legal(s, ops[0]) && LegalRun(v, StepR(v, s, ops[0]).0, ops[1..])
    ensures var (s1, r) := StepR(v, s, ops[0]);
            RunR(v, s, ops) == (RunR(v, s1, ops[1..]).0, [r] + RunR(v, s1, ops[1..]).1)
  {
  }

  lemma NewTables(u: TcamUnit)
    requires u.Valid() && u.flowTail == 0 && u.maskTail == 0
    ensures StandsFor(u, EMPTY)
  {
    hide TableInv, Sound, Abs;
    EmptyTable(u.Tables());
  }

  /** Any legal run, on new tables: the results are those of the list of rules. */
  method RunOnTables(v: Line221, ops: seq<Op>) returns (results: seq<int>)
    requires LegalRun(v, EMPTY, ops)
    ensures results == RunR(v, EMPTY, ops).1
  {
    hide LegalRun, RunR, StandsFor;
    var u := new TcamUnit(v);
    NewTables(u);
    results := Drive(u, ops, EMPTY);
  }

  // ---- lookups through the cache ----

  /** Counting the packet on the rows of the cache changes no rule. */
  lemma CacheSearchKeepsRules(t: Table, c: Cache, pkt: MatchField)
    requires TableInv(t) && Sound(t, t.tail) && InRange(c)
    ensures var t' := SearchCacheT(t, c, pkt).0;
            TableInv(t') && Sound(t', t'.tail) && Abs(t') == Abs(t)
  {
    hide Visited, BitOf, WithBit, CleanMask, Normalised, CountedSlots;
    var t' := SearchCacheT(t, c, pkt).0;
    forall p | 0 <= p < NO_F_FLWS
      ensures t'.rows[p][..COUNTER] == t.rows[p][..COUNTER] && t'.rows[p][44] == t.rows[p][44]
    {
      CountedSlotsKeep(t, c, pkt, |Visited(c)|, p);
      assert t'.rows[p][..COUNTER][44] == t.rows[p][..COUNTER][44];
    }
    assert Marks(t') == Marks(t);
    forall p | 0 <= p < t.tail
      ensures RuleAt(t', p) == RuleAt(t, p)
    {
      SameSlotSameRule(t, p, t', p);
    }
  }

  /**
   One lookup: it finds nothing exactly when the list of rules has nothing, and otherwise a rule that matches,
   of which it copies the action set; the best one if there is no other.
   */
  lemma LookupFindsARule(t: Table, c: Cache, pkt: MatchField)
    requires TableInv(t) && Sound(t, t.tail) && CacheSound(t, c)
    ensures var (t', c', r) := LookupT(t, c, pkt);
            && TableInv(t') && Sound(t', t'.tail) && Abs(t') == Abs(t) && CacheSound(t', c')
            && (r == NO_MATCH <==> Lookup(Abs(t), pkt) == NO_MATCH)
            && (r != NO_MATCH ==>
                  0 <= r < t.tail && RuleMatches(Rules(t)[r], pkt) && Rules(t)[r].action == t'.acts[r])
            && (Unique(Rules(t), pkt) ==> r == Lookup(Abs(t), pkt))
  {
    hide TableInv, Matches, SearchCacheT, SearchT, IsCached, RuleMatches, Lookup, Index;
    LookupKeepsSound(t, c, pkt);
    CacheSearchKeepsRules(t, c, pkt);
    SearchRefines(t, pkt);
    HitIsBestCached(t, c, pkt);
    SearchWinner(t, pkt);
    forall p | 0 <= p < t.tail
      ensures Matches(t, p, pkt) == RuleMatches(Rules(t)[p], pkt)
    {
      MatchesRule(t, p, pkt);
    }
  }

  ghost predicate Unique(rules: seq<Rule>, pkt: MatchField) {
    forall p, q :: 0 <= p < q < |rules| ==> !(RuleMatches(rules[p], pkt) && RuleMatches(rules[q], pkt))
  }

  /** What one lookup may answer: a rule that matches, if there is one, and the rule that wins if there is no other. */
  ghost predicate Finds(s: RuleTable, pkt: MatchField, r: int, action: ActionSet) {
    && (r == NO_MATCH <==> Lookup(s, pkt) == NO_MATCH)
    && (r != NO_MATCH ==> 0 <= r < |s.rules| && RuleMatches(s.rules[r], pkt) && action == s.rules[r].action)
    && (Unique(s.rules, pkt) ==> r == Lookup(s, pkt))
  }

  /** The tables stand for `s`, and the cache for some of its rules. */
  ghost predicate Serves(fu: FlowUnit, s: RuleTable)
    reads fu, fu.flowCache, fu.tcam, fu.tcam.flowTable, fu.tcam.maskTable, fu.tcam.actionTable, fu.tcam.flagTable
  {
    fu.Valid() && StandsFor(fu.tcam, s) && CacheSound(fu.Tables(), fu.CacheState())
  }

  method FindRule(fu: FlowUnit, pkt: MatchField, ghost s: RuleTable) returns (r: int, action: ActionSet)
    requires Serves(fu, s)
    modifies fu`cacheTop, fu.flowCache, fu.tcam.flowTable
    ensures Serves(fu, s) && Finds(s, pkt, r, action)
  {
    hide TableInv, CacheSound, LookupT, RuleMatches, Lookup, Unique, Rules;
    var p := ArrayOf(pkt);
    var a := new byte[ACTN_ST_LEN](_ => 0);
    assert p[..MTCH_FLD_LEN] == pkt;
    LookupFindsARule(fu.Tables(), fu.CacheState(), pkt);
    AbsLength(fu.Tables());
    r := fu.Lookup(p, a);
    action := a[..];
  }

  /** After any legal run the lookups of any packets, through a cache just cleared, find rules of the list. */
  method LookupOnTables(v: Line221, ops: seq<Op>, pkts: seq<MatchField>)
    returns (found: seq<int>, actions: seq<ActionSet>)
    requires LegalRun(v, EMPTY, ops)
    ensures |found| == |actions| == |pkts|
    ensures forall i :: 0 <= i < |pkts| ==> Finds(RunR(v, EMPTY, ops).0, pkts[i], found[i], actions[i])
  {
    hide LegalRun, RunR, Finds, CacheSound, TableInv, Sound, Abs;
    var u := new TcamUnit(v);
    NewTables(u);
    var results := Drive(u, ops, EMPTY);
    ghost var s := RunR(v, EMPTY, ops).0;
    var fu := new FlowUnit(u);
    ClearedIsSound(fu.Tables(), fu.CacheState());
    found, actions := [], [];
    for i := 0 to |pkts|
      invariant Serves(fu, s) && |found| == |actions| == i
      invariant forall k :: 0 <= k < i ==> Finds(s, pkts[k], found[k], actions[k])
    {
      var r, action := FindRule(fu, pkts[i], s);
      found, actions := found + [r], actions + [action];
    }
  }

  // ---- actions ----

  /**
   What `apply_action` may do for a packet: nothing exactly when no rule matches; otherwise it prints the
   actions of a rule that matches, and of the winner if no other rule does.
   */
  ghost predicate Applies(s: RuleTable, pkt: MatchField, r: int, shown: seq<Shown>) {
    if Lookup(s, pkt) == -1 then r == -1 && shown == []
    else r == 1 && exists i :: ShownOf(s, pkt, i, shown)
  }

  ghost predicate ShownOf(s: RuleTable, pkt: MatchField, i: int, shown: seq<Shown>) {
    && 0 <= i < |s.rules| && RuleMatches(s.rules[i], pkt)
    && shown == ShownActions(s.rules[i].action, s.rules[i].flag)
    && (Unique(s.rules, pkt) ==> i == Lookup(s, pkt))
  }

  method ApplyRule(fu: FlowUnit, pkt: MatchField, ghost s: RuleTable) returns (r: int, shown: seq<Shown>)
    requires Serves(fu, s)
    modifies fu`cacheTop, fu.flowCache, fu.tcam.flowTable
    ensures Serves(fu, s) && Applies(s, pkt, r, shown)
  {
    hide TableInv, CacheSound, LookupT, RuleMatches, Lookup, Unique, Rules, ShownActions;
    var p := ArrayOf(pkt);
    assert p[..MTCH_FLD_LEN] == pkt;
    ghost var t, c := fu.Tables(), fu.CacheState();
    LookupFindsARule(t, c, pkt);
    AbsLength(t);
    ghost var pos := LookupT(t, c, pkt).2;
    r, shown := fu.ApplyAction(p);
    if pos >= 0 {
      RuleParts(fu.Tables(), pos);
      assert ShownOf(s, pkt, pos, shown);
    }
  }

  lemma RuleParts(t: Table, p: nat)
    requires Sound(t, t.tail) && p < t.tail
    ensures |Rules(t)| == t.tail && Rules(t)[p].action == t.acts[p] && Rules(t)[p].flag == t.flags[p]
  {
  }

  /** After any legal run, packets are answered by the actions of rules of the list. */
  method ApplyOnTables(v: Line221, ops: seq<Op>, pkts: seq<MatchField>)
    returns (results: seq<int>, shown: seq<seq<Shown>>)
    requires LegalRun(v, EMPTY, ops)
    ensures |results| == |shown| == |pkts|
    ensures forall i :: 0 <= i < |pkts| ==> Applies(RunR(v, EMPTY, ops).0, pkts[i], results[i], shown[i])
  {
    hide LegalRun, RunR, Applies, CacheSound, TableInv, Sound, Abs;
    var u := new TcamUnit(v);
    NewTables(u);
    var answers := Drive(u, ops, EMPTY);
    ghost var s := RunR(v, EMPTY, ops).0;
    var fu := new FlowUnit(u);
    ClearedIsSound(fu.Tables(), fu.CacheState());
    results, shown := [], [];
    for i := 0 to |pkts|
      invariant Serves(fu, s) && |results| == |shown| == i
      invariant forall k :: 0 <= k < i ==> Applies(s, pkts[k], results[k], shown[k])
    {
      var r, lines := ApplyRule(fu, pkts[i], s);
      results, shown := results + [r], shown + [lines];
    }
  }
}
