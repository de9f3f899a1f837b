/**
 `modify_entry` as bit-field editing (flow-processing-unit/flow_unit.h:507-644).

 Fields are numbered by their flag bit: 1..12 are fields of the action set,
 13..15 the priority, counter and timeout bytes of the flow row. The new values
 of the selected fields lie densely packed in `values`, in that order.
 */
module ModifyModel {
  import opened Bytes
  import opened Fields
  import opened Matching
  import opened Priority
  import opened FlowModel

  const LAST_ACTION_FIELD: nat := 12
  const NO_OF_FIELDS: nat := 15

  function Width(f: nat): (n: nat)
    requires 1 <= f <= NO_OF_FIELDS
    ensures 1 <= n <= 48
  {
    [48, 48, 12, 3, 20, 3, 32, 32, 6, 16, 16, 8, 8, 8, 8][f - 1]
  }

  /** First bit of field `f`, in its action set for f <= 12 and in its flow row above. */
  function Start(f: nat): (s: nat)
    requires 1 <= f <= NO_OF_FIELDS
    ensures s + Width(f) <= 8 * if f <= LAST_ACTION_FIELD then ACTN_ST_LEN else FLW_ENT_LEN
  {
    [0, 48, 96, 108, 111, 131, 134, 166, 198, 204, 220, 240, 360, 368, 376][f - 1]
  }

  /** Bit 0 says "drop": then no action field carries a value. */
  predicate Selected(flag: FlagWord, f: nat)
    requires 1 <= f <= NO_OF_FIELDS
  {
    Bit(flag, f) && (f <= LAST_ACTION_FIELD ==> !Bit(flag, 0))
  }

  /** Where the value of field `f` begins in the packed values. */
  function Offset(flag: FlagWord, f: nat): nat
    requires 1 <= f <= NO_OF_FIELDS + 1
    decreases f
  {
    if f == 1 then 0
    else Offset(flag, f - 1) + if Selected(flag, f - 1) then Width(f - 1) else 0
  }

  lemma {:induction false} OffsetMonotone(flag: FlagWord, f: nat, g: nat)
    requires 1 <= f <= g <= NO_OF_FIELDS + 1
    ensures Offset(flag, f) <= Offset(flag, g)
    decreases g
  {
    hide Selected, Width;
    if f < g {
      OffsetMonotone(flag, f, g - 1);
    }
  }

  predicate EnoughValues(flag: FlagWord, values: seq<byte>) {
    Offset(flag, NO_OF_FIELDS + 1) <= 8 * |values|
  }

  /** The packed value of a selected field. */
  function Value(flag: FlagWord, values: seq<byte>, f: nat): (v: seq<bool>)
    requires 1 <= f <= NO_OF_FIELDS && Selected(flag, f)
    requires EnoughValues(flag, values)
    ensures |v| == Width(f)
  {
    OffsetMonotone(flag, f + 1, NO_OF_FIELDS + 1);
    Extract(values, Offset(flag, f), Width(f))
  }

  lemma ValueInside(flag: FlagWord, values: seq<byte>, f: nat)
    requires 1 <= f <= NO_OF_FIELDS && EnoughValues(flag, values)
    ensures Offset(flag, f + 1) == Offset(flag, f) + if Selected(flag, f) then Width(f) else 0
    ensures Selected(flag, f) ==>
              && Offset(flag, f) + Width(f) <= 8 * |values|
              && Value(flag, values, f) == Extract(values, Offset(flag, f), Width(f))
  {
    hide Selected, Extract;
    OffsetMonotone(flag, f + 1, NO_OF_FIELDS + 1);
  }

  /** Fields 12 to 15 are whole bytes. */
  lemma ByteFields()
    ensures Width(12) == Width(13) == Width(14) == Width(15) == 8
    ensures Start(12) == 8 * 30
  {
  }

  /** The action set once the fields before `f` have been dealt with. */
  function EditedTo(action: ActionSet, flag: FlagWord, values: seq<byte>, f: nat): ActionSet
    requires 1 <= f <= LAST_ACTION_FIELD + 1
    requires EnoughValues(flag, values)
    decreases f
  {
    if f == 1 then action
    else if Selected(flag, f - 1)
    then Replace(EditedTo(action, flag, values, f - 1), Start(f - 1), Value(flag, values, f - 1))
    else EditedTo(action, flag, values, f - 1)
  }

  /**
   Priority, counter and timeout. The search has counted a packet that never
   came; a new counter value is given one more so that the final decrement
   leaves exactly the value supplied.
   */
  function EditedRow(row: FlowRow, flag: FlagWord, values: seq<byte>): FlowRow
    requires EnoughValues(flag, values)
  {
    row[PRIORITY := if Selected(flag, 13) then ByteOf(Value(flag, values, 13)) else row[PRIORITY]]
       [COUNTER := if Selected(flag, 14) then ByteOf(Value(flag, values, 14)) else row[COUNTER] - 1]
       [TIMEOUT := if Selected(flag, 15) then ByteOf(Value(flag, values, 15)) else row[TIMEOUT]]
  }

  function OrFlags(a: FlagWord, b: FlagWord): FlagWord {
    [a[0] | b[0], a[1] | b[1]]
  }

  function ModifiedT(t: Table, p: nat, flag: FlagWord, values: seq<byte>): Table
    requires Shaped(t) && p < t.tail
    requires EnoughValues(flag, values)
  {
    t.(acts := t.acts[p := EditedTo(t.acts[p], flag, values, LAST_ACTION_FIELD + 1)],
       rows := t.rows[p := EditedRow(t.rows[p], flag, values)],
       flags := t.flags[p := OrFlags(t.flags[p], flag)])
  }

  function ModifyT(t: Table, pkt: MatchField, flag: FlagWord, values: seq<byte>): (Table, int)
    requires Sound(t, t.tail) && SearchT(t, pkt).1 >= 0
    requires EnoughValues(flag, values)
  {
    var (t1, p) := SearchT(t, pkt);
    (ModifiedT(t1, p, flag, values), p)
  }

  /** Fields of one action set never overlap, and the same holds within a row. */
  lemma FieldsAreDisjoint(f: nat, g: nat)
    requires 1 <= f < g <= NO_OF_FIELDS
    requires g <= LAST_ACTION_FIELD || LAST_ACTION_FIELD < f
    ensures Start(f) + Width(f) <= Start(g)
    decreases g
  {
    if f + 1 < g {
      FieldsAreDisjoint(f, g - 1);
    }
  }

  /** What the editing does to each of the twelve action fields; bits 236..239 belong to none of them. */
  lemma {:induction false} EditedField(action: ActionSet, flag: FlagWord, values: seq<byte>, g: nat, f: nat)
    requires 1 <= f <= LAST_ACTION_FIELD && 1 <= g <= LAST_ACTION_FIELD + 1
    requires EnoughValues(flag, values)
    ensures Extract(EditedTo(action, flag, values, g), Start(f), Width(f))
            == if f < g && Selected(flag, f) then Value(flag, values, f)
               else Extract(action, Start(f), Width(f))
    decreases g
  {
    hide Selected, Extract, Replace, Offset, Value;
    if g > 1 {
      EditedField(action, flag, values, g - 1, f);
      if Selected(flag, g - 1) {
        var before := EditedTo(action, flag, values, g - 1);
        var v := Value(flag, values, g - 1);
        if f == g - 1 {
          PutGet(before, Start(f), v);
        } else {
          if f < g - 1 { FieldsAreDisjoint(f, g - 1); } else { FieldsAreDisjoint(g - 1, f); }
          DisjointWriteUnseen(before, Start(g - 1), v, Start(f), Width(f));
        }
      }
    }
  }

  // ---- dense packing ----

  /** The selected fields of `vals` before field `f`, one after the other in flag order. */
  function PackedTo(flag: FlagWord, vals: seq<seq<bool>>, f: nat): (r: seq<bool>)
    requires 1 <= f <= NO_OF_FIELDS + 1
    requires FitsFields(vals)
    ensures |r| == Offset(flag, f)
    decreases f
  {
    if f == 1 then []
    else PackedTo(flag, vals, f - 1) + if Selected(flag, f - 1) then vals[f - 1] else []
  }

  /** One value of the right width for every field; entry 0 stands for the drop bit and is unused. */
  predicate FitsFields(vals: seq<seq<bool>>) {
    && |vals| == NO_OF_FIELDS + 1
    && forall f :: 1 <= f <= NO_OF_FIELDS ==> |vals[f]| == Width(f)
  }

  function Packed(flag: FlagWord, vals: seq<seq<bool>>): seq<bool>
    requires FitsFields(vals)
  {
    PackedTo(flag, vals, NO_OF_FIELDS + 1)
  }

  lemma {:induction false} PackedFieldAt(flag: FlagWord, vals: seq<seq<bool>>, f: nat, g: nat)
    requires FitsFields(vals)
    requires 1 <= f < g <= NO_OF_FIELDS + 1 && Selected(flag, f)
    ensures Offset(flag, f) + Width(f) <= Offset(flag, g)
    ensures PackedTo(flag, vals, g)[Offset(flag, f)..Offset(flag, f) + Width(f)] == vals[f]
    decreases g
  {
    hide Selected, Offset, PackedTo, Width;
    PackedNext(flag, vals, g - 1);
    if f + 1 < g {
      PackedFieldAt(flag, vals, f, g - 1);
    }
  }

  lemma PackedNext(flag: FlagWord, vals: seq<seq<bool>>, g: nat)
    requires FitsFields(vals) && 1 <= g <= NO_OF_FIELDS
    ensures PackedTo(flag, vals, g + 1) == PackedTo(flag, vals, g) + if Selected(flag, g) then vals[g] else []
  {
    hide Selected, Width;
  }

  /** If `values` holds the packing of `vals`, the packed value of each selected field is its own. */
  lemma UnpackedValue(flag: FlagWord, vals: seq<seq<bool>>, values: seq<byte>, f: nat)
    requires FitsFields(vals) && EnoughValues(flag, values)
    requires Extract(values, 0, Offset(flag, NO_OF_FIELDS + 1)) == Packed(flag, vals)
    requires 1 <= f <= NO_OF_FIELDS && Selected(flag, f)
    ensures Value(flag, values, f) == vals[f]
  {
    hide Selected, Offset, Extract, PackedTo, Width;
    PackedFieldAt(flag, vals, f, NO_OF_FIELDS + 1);
    OffsetMonotone(flag, f, NO_OF_FIELDS + 1);
    ExtractWithin(values, Offset(flag, NO_OF_FIELDS + 1), Offset(flag, f), Width(f));
  }

  /** Field `f` of rule `p` as `apply_action` reads it (f <= 12), or as it lies in the flow row. */
  function FieldOf(t: Table, p: nat, f: nat): seq<bool>
    requires Shaped(t) && p < t.tail && 1 <= f <= NO_OF_FIELDS
  {
    if f <= LAST_ACTION_FIELD then Extract(t.acts[p], Start(f), Width(f))
    else Extract(t.rows[p], Start(f), Width(f))
  }

  /**
   `modify_entry` undoes dense packing, for every flag word and every choice of
   field values: each selected field of the matched rule becomes its value, each
   unselected field keeps what it had, and no other rule changes in anything but
   its packet counter.
   */
  lemma ModifyUnpacks(t: Table, pkt: MatchField, flag: FlagWord, vals: seq<seq<bool>>, values: seq<byte>)
    requires Sound(t, t.tail) && SearchT(t, pkt).1 >= 0
    requires FitsFields(vals) && EnoughValues(flag, values)
    requires Extract(values, 0, Offset(flag, NO_OF_FIELDS + 1)) == Packed(flag, vals)
    ensures var (t', p) := ModifyT(t, pkt, flag, values);
            && (forall f :: 1 <= f <= NO_OF_FIELDS ==>
                  FieldOf(t', p, f) == if Selected(flag, f) then vals[f] else FieldOf(t, p, f))
            && t'.rows[p][..MTCH_FLD_LEN] == t.rows[p][..MTCH_FLD_LEN]
            && t'.flags[p] == OrFlags(t.flags[p], flag)
            && (forall q :: 0 <= q < NO_F_FLWS && q != p ==>
                  && t'.acts[q] == t.acts[q] && t'.flags[q] == t.flags[q]
                  && t'.rows[q] == CountedTo(t, pkt, t.tail)[q])
            && t'.masks == t.masks && t'.tail == t.tail && t'.maskTail == t.maskTail
  {
    hide Selected, Offset, Extract, Value, EditedTo, ByteOf, BitOf, Matches;
    var (t1, p) := SearchT(t, pkt);
    BestWins(Candidates(t, pkt));
    assert Matches(t, p, pkt) && t1.rows[p] == Bump(t.rows[p]);
    var (t', _) := ModifyT(t, pkt, flag, values);
    assert t'.rows[p] == EditedRow(t1.rows[p], flag, values);
    forall f | 1 <= f <= NO_OF_FIELDS
      ensures FieldOf(t', p, f) == if Selected(flag, f) then vals[f] else FieldOf(t, p, f)
    {
      if Selected(flag, f) {
        UnpackedValue(flag, vals, values, f);
      }
      if f <= LAST_ACTION_FIELD {
        EditedField(t1.acts[p], flag, values, LAST_ACTION_FIELD + 1, f);
      } else if Selected(flag, f) {
        ByteField(t'.rows[p], f + 32, Value(flag, values, f));
      } else {
        ByteUnchanged(t'.rows[p], t.rows[p], f + 32);
      }
    }
  }

  lemma ByteUnchanged(a: seq<byte>, b: seq<byte>, i: nat)
    requires i < |a| == |b| && a[i] == b[i]
    ensures Extract(a, 8 * i, 8) == Extract(b, 8 * i, 8)
  {
    hide BitOf;
    forall j | 0 <= j < 8
      ensures Extract(a, 8 * i, 8)[j] == Extract(b, 8 * i, 8)[j]
    {
      BitInByte(a, i, j);
      BitInByte(b, i, j);
    }
  }
}
