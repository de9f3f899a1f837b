/**
 The reference machine: a plain list of rules, each with its own mask, and the
 list of masks in the order of their groups. There are no markers, no tails, no
 stale rows and no counters here.
 */
module RuleList {
  import opened Bytes
  import opened Lists
  import opened Matching
  import opened Priority
  import opened FlowModel
  import opened ModifyModel

  /** `fields` is the match field with its marker bit cleared. */
  datatype Rule = Rule(fields: MatchField, mask: MatchField, priority: byte, action: ActionSet, flag: FlagWord)

  datatype RuleTable = RuleTable(rules: seq<Rule>, masks: seq<MatchField>)

  const EMPTY := RuleTable([], [])

  predicate RuleMatches(r: Rule, pkt: MatchField) {
    Agree(r.mask, pkt, r.fields)
  }

  function RuleCandidates(rules: seq<Rule>, pkt: MatchField): (c: seq<Candidate>)
    ensures |c| == |rules|
  {
    seq(|rules|, i requires 0 <= i < |rules| =>
      Candidate(RuleMatches(rules[i], pkt), rules[i].priority as nat))
  }

  function Lookup(s: RuleTable, pkt: MatchField): (r: int)
    ensures r < |s.rules|
  {
    Best(RuleCandidates(s.rules, pkt))
  }

  predicate OwnsRule(rules: seq<Rule>, mask: MatchField) {
    exists i :: 0 <= i < |rules| && rules[i].mask == mask
  }

  /** One past the last rule with this mask. */
  function AfterLast(rules: seq<Rule>, mask: MatchField): (n: nat)
    ensures n <= |rules|
    ensures n > 0 ==> rules[n - 1].mask == mask
    ensures forall i :: n <= i < |rules| ==> rules[i].mask != mask
  {
    if |rules| == 0 || rules[|rules| - 1].mask == mask then |rules|
    else AfterLast(rules[..|rules| - 1], mask)
  }

  function NewRule(mask: MatchField, entry: Entry, action: ActionSet, flag: FlagWord): Rule {
    Rule(WithMarker(entry[..MTCH_FLD_LEN], false), mask, entry[PRIORITY], action, flag)
  }

  predicate TakenForDuplicate(v: Line221, rules: seq<Rule>, mask: MatchField, entry: Entry) {
    exists i :: 0 <= i < |rules| && i < NO_F_FLWS && rules[i].mask == mask
                && ScanHits(v, mask, entry, rules[i].fields, i)
  }

  function AddR(v: Line221, s: RuleTable, mask: MatchField, entry: Entry, action: ActionSet, flag: FlagWord)
    : (RuleTable, int)
  {
    if |s.rules| >= NO_F_FLWS then (s, TBL_FULL)
    else if TakenForDuplicate(v, s.rules, mask, entry) then (s, RDNDNT)
    else
      var pos := if mask in s.masks then AfterLast(s.rules, mask) else |s.rules|;
      (RuleTable(InsertAt(s.rules, pos, NewRule(mask, entry, action, flag)),
                 if mask in s.masks then s.masks else s.masks + [mask]), pos)
  }

  /** Rule `p` goes; its mask goes with it if no other rule has it, unless it is the very first mask. */
  function RemoveR(s: RuleTable, p: nat): RuleTable
    requires p < |s.rules|
  {
    var mask := s.rules[p].mask;
    RuleTable(RemoveAt(s.rules, p),
              if mask !in s.masks || OwnsRule(RemoveAt(s.rules, p), mask) || s.masks[0] == mask then s.masks
              else RemoveAt(s.masks, IndexOf(s.masks, mask)))
  }

  function DeleteR(s: RuleTable, pkt: MatchField): (RuleTable, int)
    requires Lookup(s, pkt) >= 0
  {
    (RemoveR(s, Lookup(s, pkt)), Lookup(s, pkt))
  }

  function ModifiedRule(r: Rule, flag: FlagWord, values: seq<byte>): Rule
    requires EnoughValues(flag, values)
  {
    r.(action := EditedTo(r.action, flag, values, LAST_ACTION_FIELD + 1),
       priority := if Selected(flag, 13) then Fields.ByteOf(Value(flag, values, 13)) else r.priority,
       flag := OrFlags(r.flag, flag))
  }

  function ModifyR(s: RuleTable, pkt: MatchField, flag: FlagWord, values: seq<byte>): (RuleTable, int)
    requires Lookup(s, pkt) >= 0 && EnoughValues(flag, values)
  {
    var p := Lookup(s, pkt);
    (s.(rules := s.rules[p := ModifiedRule(s.rules[p], flag, values)]), p)
  }

  /** The mask does not select the marker bit nor the three unused bits. */
  predicate CleanMask(mask: MatchField) {
    MarkerFree(mask) && Normalised(mask) == mask
  }

  /** Such a mask selects none of the last four bits. */
  lemma CleanMaskBits(mask: MatchField)
    ensures CleanMask(mask) <==> !Bit(mask, 356) && !Bit(mask, 357) && !Bit(mask, 358) && !Bit(mask, 359)
  {
    hide Bit, Normalised;
    MarkedIsBit(mask);
    NormalisedEveryBit(mask);
    if !Bit(mask, 357) && !Bit(mask, 358) && !Bit(mask, 359) {
      BitsExtensionality(Normalised(mask), mask);
    }
  }

  lemma CleanIsMarkerFree(mask: MatchField)
    requires CleanMask(mask)
    ensures MarkerFree(mask) && Normalised(mask) == mask
  {
  }

  lemma NewRuleMatches(mask: MatchField, entry: Entry, action: ActionSet, flag: FlagWord, pkt: MatchField)
    requires CleanMask(mask)
    ensures RuleMatches(NewRule(mask, entry, action, flag), pkt) == Agree(mask, pkt, entry)
  {
    hide Agree, WithMarker, Normalised, MarkerFree;
    MarkerUnseen(mask, pkt, entry[..MTCH_FLD_LEN], false);
    AgreeOnPrefix(mask, pkt, entry);
  }

  /**
   When an add is safe: the mask is clean, the table is not the leftover of
   deleting its last rule, the mask is not one whose group has been emptied, and
   there is a slot for a new mask.
   */
  predicate AddIsSafe(s: RuleTable, mask: MatchField) {
    && CleanMask(mask)
    && (s.rules == [] ==> s.masks == [])
    && (mask in s.masks ==> OwnsRule(s.rules, mask))
    && (mask !in s.masks ==> |s.masks| < NO_F_FLWS)
  }

  // ---- runs ----

  datatype Op =
    | Add(mask: MatchField, entry: Entry, action: ActionSet, flag: FlagWord)
    | Delete(pkt: MatchField)
    | Modify(pkt: MatchField, flag: FlagWord, values: seq<byte>)
    | Search(pkt: MatchField)

  /** A step the code is meant for; the table being full or the rule redundant is not excluded. */
  predicate Legal(s: RuleTable, op: Op) {
    match op
    case Add(mask, _, _, _) => |s.rules| >= NO_F_FLWS || AddIsSafe(s, mask)
    case Delete(pkt) => Lookup(s, pkt) >= 0
    case Modify(pkt, flag, values) => Lookup(s, pkt) >= 0 && EnoughValues(flag, values)
    case Search(_) => true
  }

  function StepR(v: Line221, s: RuleTable, op: Op): (RuleTable, int)
    requires Legal(s, op)
  {
    match op
    case Add(mask, entry, action, flag) => AddR(v, s, mask, entry, action, flag)
    case Delete(pkt) => DeleteR(s, pkt)
    case Modify(pkt, flag, values) => ModifyR(s, pkt, flag, values)
    case Search(pkt) => (s, Lookup(s, pkt))
  }

  predicate LegalRun(v: Line221, s: RuleTable, ops: seq<Op>)
    decreases |ops|
  {
    |ops| == 0 || (Legal(s, ops[0]) && LegalRun(v, StepR(v, s, ops[0]).0, ops[1..]))
  }

  /** The table after a run, and what every operation returned. */
  function RunR(v: Line221, s: RuleTable, ops: seq<Op>): (RuleTable, seq<int>)
    requires LegalRun(v, s, ops)
    decreases |ops|
  {
    if |ops| == 0 then (s, [])
    else
      var (s1, r) := StepR(v, s, ops[0]);
      var (s2, rs) := RunR(v, s1, ops[1..]);
      (s2, [r] + rs)
  }
}
