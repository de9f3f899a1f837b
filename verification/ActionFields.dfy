/**
 What becomes of a rule's action set: `modify_entry` puts the new values in and
 `apply_action` prints them (flow-processing-unit/flow_unit.h:511-757). Here every place is the number of
 a bit, and every field is selected by the number of its flag bit.
 */
module ActionFields {
  import opened Bytes
  import opened Fields
  import opened Matching
  import opened FlowModel
  import opened ModifyModel

  // ---- what apply_action prints ----

  datatype ActionField =
    | MacSrc | MacDst | VlanId | VlanPriority | MplsLabel | MplsClass
    | IPv4Src | IPv4Dst | IPv4ToS | TcpSrc | TcpDst | OutputPort

  /** One line of the output: the packet is dropped, or a field with the bytes printed for it. */
  datatype Shown = Drop | Printed(field: ActionField, bytes: seq<byte>)

  /** `n` bits of an action set at the front of `k` bytes, the rest of which is 0. */
  function Front(action: ActionSet, start: nat, n: nat, k: nat): (s: seq<byte>)
    requires start + n <= 248 && n <= 8 * k
    ensures |s| == k
  {
    Replace(seq(k, _ => 0), 0, Extract(action, start, n))
  }

  function If(b: bool, field: ActionField, bytes: seq<byte>): seq<Shown> {
    if b then [Printed(field, bytes)] else []
  }

  function ShownTags(action: ActionSet, flag: FlagWord): seq<Shown> {
    If(Bit(flag, 1), MacSrc, Front(action, 0, 48, 6))
    + If(Bit(flag, 2), MacDst, Front(action, 48, 48, 6))
    + If(Bit(flag, 3), VlanId, Front(action, 96, 12, 2))
    + If(Bit(flag, 4), VlanPriority, Front(action, 108, 3, 1))
    + If(Bit(flag, 5), MplsLabel, Front(action, 111, 20, 3))
    + If(Bit(flag, 6), MplsClass, Front(action, 131, 3, 1))
  }

  function ShownNetwork(action: ActionSet, flag: FlagWord): seq<Shown> {
    If(Bit(flag, 7), IPv4Src, Front(action, 134, 32, 4))
    + If(Bit(flag, 8), IPv4Dst, Front(action, 166, 32, 4))
    + If(Bit(flag, 9), IPv4ToS, Front(action, 198, 6, 1))
    + If(Bit(flag, 10), TcpSrc, Front(action, 204, 16, 2))
    + If(Bit(flag, 11), TcpDst, Front(action, 220, 16, 2))
  }

  /** The lines in their order; the output port is printed whether or not its flag is set. */
  function ShownActions(action: ActionSet, flag: FlagWord): seq<Shown> {
    if Bit(flag, 0) then [Drop]
    else ShownTags(action, flag) + ShownNetwork(action, flag) + [Printed(OutputPort, [action[30]])]
  }

  /** The flag bit of a field. */
  function FlagBit(field: ActionField): (f: nat)
    ensures 1 <= f <= 12
  {
    match field
    case MacSrc => 1 case MacDst => 2 case VlanId => 3 case VlanPriority => 4
    case MplsLabel => 5 case MplsClass => 6 case IPv4Src => 7 case IPv4Dst => 8
    case IPv4ToS => 9 case TcpSrc => 10 case TcpDst => 11 case OutputPort => 12
  }

  /** The lines show fields of flag bits lo..hi-1, each at most once and in that order, and only those that are set. */
  ghost predicate InOrder(lines: seq<Shown>, flag: FlagWord, lo: nat, hi: nat) {
    && (forall i :: 0 <= i < |lines| ==>
          lines[i].Printed? && lo <= FlagBit(lines[i].field) < hi
          && (lines[i].field.OutputPort? || Bit(flag, FlagBit(lines[i].field))))
    && forall i, j :: 0 <= i < j < |lines| ==> FlagBit(lines[i].field) < FlagBit(lines[j].field)
  }

  lemma LineInOrder(flag: FlagWord, field: ActionField, bytes: seq<byte>)
    ensures InOrder(If(Bit(flag, FlagBit(field)), field, bytes), flag, FlagBit(field), FlagBit(field) + 1)
  {
    hide Bit;
  }

  lemma JoinInOrder(a: seq<Shown>, b: seq<Shown>, flag: FlagWord, lo: nat, mid: nat, hi: nat)
    requires lo <= mid <= hi && InOrder(a, flag, lo, mid) && InOrder(b, flag, mid, hi)
    ensures InOrder(a + b, flag, lo, hi)
  {
    hide Bit, FlagBit;
  }

  lemma TagsInOrder(action: ActionSet, flag: FlagWord)
    ensures InOrder(ShownTags(action, flag), flag, 1, 7)
  {
    hide InOrder, If, Front, Bit;
    var a := If(Bit(flag, 1), MacSrc, Front(action, 0, 48, 6));
    var b := If(Bit(flag, 2), MacDst, Front(action, 48, 48, 6));
    var c := If(Bit(flag, 3), VlanId, Front(action, 96, 12, 2));
    var d := If(Bit(flag, 4), VlanPriority, Front(action, 108, 3, 1));
    var e := If(Bit(flag, 5), MplsLabel, Front(action, 111, 20, 3));
    var f := If(Bit(flag, 6), MplsClass, Front(action, 131, 3, 1));
    LineInOrder(flag, MacSrc, Front(action, 0, 48, 6));
    LineInOrder(flag, MacDst, Front(action, 48, 48, 6));
    LineInOrder(flag, VlanId, Front(action, 96, 12, 2));
    LineInOrder(flag, VlanPriority, Front(action, 108, 3, 1));
    LineInOrder(flag, MplsLabel, Front(action, 111, 20, 3));
    LineInOrder(flag, MplsClass, Front(action, 131, 3, 1));
    JoinInOrder(a, b, flag, 1, 2, 3);
    JoinInOrder(a + b, c, flag, 1, 3, 4);
    JoinInOrder(a + b + c, d, flag, 1, 4, 5);
    JoinInOrder(a + b + c + d, e, flag, 1, 5, 6);
    JoinInOrder(a + b + c + d + e, f, flag, 1, 6, 7);
  }

  lemma NetworkInOrder(action: ActionSet, flag: FlagWord)
    ensures InOrder(ShownNetwork(action, flag), flag, 7, 12)
  {
    hide InOrder, If, Front, Bit;
    var a := If(Bit(flag, 7), IPv4Src, Front(action, 134, 32, 4));
    var b := If(Bit(flag, 8), IPv4Dst, Front(action, 166, 32, 4));
    var c := If(Bit(flag, 9), IPv4ToS, Front(action, 198, 6, 1));
    var d := If(Bit(flag, 10), TcpSrc, Front(action, 204, 16, 2));
    var e := If(Bit(flag, 11), TcpDst, Front(action, 220, 16, 2));
    LineInOrder(flag, IPv4Src, Front(action, 134, 32, 4));
    LineInOrder(flag, IPv4Dst, Front(action, 166, 32, 4));
    LineInOrder(flag, IPv4ToS, Front(action, 198, 6, 1));
    LineInOrder(flag, TcpSrc, Front(action, 204, 16, 2));
    LineInOrder(flag, TcpDst, Front(action, 220, 16, 2));
    JoinInOrder(a, b, flag, 7, 8, 9);
    JoinInOrder(a + b, c, flag, 7, 9, 10);
    JoinInOrder(a + b + c, d, flag, 7, 10, 11);
    JoinInOrder(a + b + c + d, e, flag, 7, 11, 12);
  }

  /** Unless the packet is dropped nothing is printed twice, out of order or unselected; the output port comes last. */
  lemma LinesInOrder(action: ActionSet, flag: FlagWord)
    requires !Bit(flag, 0)
    ensures var lines := ShownActions(action, flag);
            && InOrder(lines, flag, 1, 13)
            && |lines| > 0 && lines[|lines| - 1] == Printed(OutputPort, [action[30]])
  {
    hide ShownTags, ShownNetwork, Bit;
    TagsInOrder(action, flag);
    NetworkInOrder(action, flag);
    JoinInOrder(ShownTags(action, flag), ShownNetwork(action, flag), flag, 1, 7, 12);
    JoinInOrder(ShownTags(action, flag) + ShownNetwork(action, flag), [Printed(OutputPort, [action[30]])], flag,
                1, 12, 13);
  }

  /** What is printed for a field gives the field back. */
  lemma FrontExtract(action: ActionSet, start: nat, n: nat, k: nat)
    requires start + n <= 248 && n <= 8 * k
    ensures Extract(Front(action, start, n, k), 0, n) == Extract(action, start, n)
  {
    hide Extract, Replace;
    PutGet(seq(k, _ => 0), 0, Extract(action, start, n));
  }

  lemma FrontOfBuffer(val: seq<byte>, action: ActionSet, start: nat, n: nat, k: nat)
    requires start + n <= 248 && n <= 8 * k && k <= |val|
    requires n == 8 * k || forall i :: 0 <= i < k ==> val[i] == 0
    ensures Replace(val, 0, Extract(action, start, n))[..k] == Front(action, start, n, k)
  {
    hide Extract, Replace, PutBit, BitOf;
    var v := Extract(action, start, n);
    var a, b := Replace(val, 0, v)[..k], Front(action, start, n, k);
    forall q | 0 <= q < 8 * k
      ensures Bit(a, q) == Bit(b, q)
    {
      ReplaceAt(val, 0, v, q);
      ReplaceAt(seq(k, _ => 0), 0, v, q);
    }
    BitsExtensionality(a, b);
  }

  method Clear(val: array<byte>, n: nat)
    requires n <= val.Length
    modifies val
    ensures forall i :: 0 <= i < n ==> val[i] == 0
  {
    for i := 0 to n
      invariant forall j :: 0 <= j < i ==> val[j] == 0
    {
      val[i] := 0;
    }
  }

  /**
   One block of `apply_action`: if its flag bit is set, `k` bytes of the buffer, the first `cleared` of which are
   cleared before unless the field fills all that are printed.
   */
  method ShowField(field: ActionField, actionFlag: array<byte>, f: nat, actionSet: array<byte>, strtBit: nat,
                   endBit: nat, val: array<byte>, cleared: nat, k: nat)
    returns (lines: seq<Shown>)
    requires actionSet.Length == ACTN_ST_LEN && actionFlag.Length == 2 && f < 16
    requires val.Length == 6 && val != actionSet && val != actionFlag && cleared <= 6
    requires strtBit <= endBit < 248 && endBit + 1 - strtBit <= 8 * k && k <= 6
    requires endBit + 1 - strtBit == 8 * k || k <= cleared
    modifies val
    ensures lines == If(Bit(actionFlag[..], f), field, Front(actionSet[..], strtBit, endBit + 1 - strtBit, k))
  {
    hide Extract, Replace, Bit, Front;
    lines := [];
    if ReadBit(actionFlag, f) {
      Clear(val, cleared);
      FrontOfBuffer(val[..], actionSet[..], strtBit, endBit + 1 - strtBit, k);
      ExtractField(actionSet, 0, strtBit, endBit, val);
      lines := [Printed(field, val[..k])];
    }
  }

  method ShowTags(actionSet: array<byte>, actionFlag: array<byte>, val: array<byte>) returns (shown: seq<Shown>)
    requires actionSet.Length == ACTN_ST_LEN && actionFlag.Length == 2
    requires val.Length == 6 && val != actionSet && val != actionFlag
    modifies val
    ensures shown == ShownTags(actionSet[..], actionFlag[..])
  {
    hide If, Front, Bit;
    var macSrc := ShowField(MacSrc, actionFlag, 1, actionSet, 0, 47, val, 0, 6);
    var macDst := ShowField(MacDst, actionFlag, 2, actionSet, 48, 95, val, 0, 6);
    var vlanId := ShowField(VlanId, actionFlag, 3, actionSet, 96, 107, val, 6, 2);
    var vlanPriority := ShowField(VlanPriority, actionFlag, 4, actionSet, 108, 110, val, 6, 1);
    var mplsLabel := ShowField(MplsLabel, actionFlag, 5, actionSet, 111, 130, val, 6, 3);
    var mplsClass := ShowField(MplsClass, actionFlag, 6, actionSet, 131, 133, val, 6, 1);
    shown := macSrc + macDst + vlanId + vlanPriority + mplsLabel + mplsClass;
  }

  method ShowNetwork(actionSet: array<byte>, actionFlag: array<byte>, val: array<byte>) returns (shown: seq<Shown>)
    requires actionSet.Length == ACTN_ST_LEN && actionFlag.Length == 2
    requires val.Length == 6 && val != actionSet && val != actionFlag
    modifies val
    ensures shown == ShownNetwork(actionSet[..], actionFlag[..])
  {
    hide If, Front, Bit;
    var ipv4Src := ShowField(IPv4Src, actionFlag, 7, actionSet, 134, 165, val, 0, 4);
    var ipv4Dst := ShowField(IPv4Dst, actionFlag, 8, actionSet, 166, 197, val, 0, 4);
    var tos := ShowField(IPv4ToS, actionFlag, 9, actionSet, 198, 203, val, 1, 1);
    var tcpSrc := ShowField(TcpSrc, actionFlag, 10, actionSet, 204, 219, val, 0, 2);
    var tcpDst := ShowField(TcpDst, actionFlag, 11, actionSet, 220, 235, val, 0, 2);
    shown := ipv4Src + ipv4Dst + tos + tcpSrc + tcpDst;
  }

  /** The printing part of `apply_action`. */
  method ShowActions(actionSet: array<byte>, actionFlag: array<byte>) returns (shown: seq<Shown>)
    requires actionSet.Length == ACTN_ST_LEN && actionFlag.Length == 2
    ensures shown == ShownActions(actionSet[..], actionFlag[..])
  {
    hide ShownTags, ShownNetwork, Bit;
    if ReadBit(actionFlag, 0) {
      return [Drop];
    }
    var val := new byte[6];
    var tags := ShowTags(actionSet, actionFlag, val);
    var network := ShowNetwork(actionSet, actionFlag, val);
    shown := tags + network + [Printed(OutputPort, [actionSet[30]])];
  }

  // ---- what modify_entry puts in ----

  /** A new value for every field, as bits. */
  datatype NewValues = NewValues(
    macSrc: seq<bool>, macDst: seq<bool>, vlanId: seq<bool>, vlanPriority: seq<bool>,
    mplsLabel: seq<bool>, mplsClass: seq<bool>, ipv4Src: seq<bool>, ipv4Dst: seq<bool>,
    tos: seq<bool>, tcpSrc: seq<bool>, tcpDst: seq<bool>, outputPort: seq<bool>,
    priority: seq<bool>, counter: seq<bool>, timeout: seq<bool>)

  predicate RightWidths(x: NewValues) {
    && |x.macSrc| == 48 && |x.macDst| == 48 && |x.vlanId| == 12 && |x.vlanPriority| == 3
    && |x.mplsLabel| == 20 && |x.mplsClass| == 3 && |x.ipv4Src| == 32 && |x.ipv4Dst| == 32
    && |x.tos| == 6 && |x.tcpSrc| == 16 && |x.tcpDst| == 16 && |x.outputPort| == 8
    && |x.priority| == 8 && |x.counter| == 8 && |x.timeout| == 8
  }

  function Given(b: bool, v: seq<bool>): seq<bool> {
    if b then v else []
  }

  function DenseTags(flag: FlagWord, on: bool, x: NewValues): seq<bool> {
    Given(on && Bit(flag, 1), x.macSrc) + Given(on && Bit(flag, 2), x.macDst)
    + Given(on && Bit(flag, 3), x.vlanId) + Given(on && Bit(flag, 4), x.vlanPriority)
    + Given(on && Bit(flag, 5), x.mplsLabel) + Given(on && Bit(flag, 6), x.mplsClass)
  }

  function DenseNetwork(flag: FlagWord, on: bool, x: NewValues): seq<bool> {
    Given(on && Bit(flag, 7), x.ipv4Src) + Given(on && Bit(flag, 8), x.ipv4Dst)
    + Given(on && Bit(flag, 9), x.tos) + Given(on && Bit(flag, 10), x.tcpSrc)
    + Given(on && Bit(flag, 11), x.tcpDst) + Given(on && Bit(flag, 12), x.outputPort)
  }

  function DenseRow(flag: FlagWord, x: NewValues): seq<bool> {
    Given(Bit(flag, 13), x.priority) + Given(Bit(flag, 14), x.counter) + Given(Bit(flag, 15), x.timeout)
  }

  /** The selected values one after the other; with the drop bit there are none for the action set. */
  function Dense(flag: FlagWord, x: NewValues): seq<bool> {
    DenseTags(flag, !Bit(flag, 0), x) + DenseNetwork(flag, !Bit(flag, 0), x) + DenseRow(flag, x)
  }

  /** Bits start..start+n-1 of the action set are the new value if flag bit `f` selects it, and the old ones if not. */
  predicate Takes(now: ActionSet, was: ActionSet, flag: FlagWord, f: nat, start: nat, v: seq<bool>)
    requires f < 16 && start + |v| <= 248
  {
    Extract(now, start, |v|) == if Bit(flag, f) && !Bit(flag, 0) then v else Extract(was, start, |v|)
  }

  predicate TakesAll(now: ActionSet, was: ActionSet, flag: FlagWord, x: NewValues)
    requires RightWidths(x)
  {
    && Takes(now, was, flag, 1, 0, x.macSrc) && Takes(now, was, flag, 2, 48, x.macDst)
    && Takes(now, was, flag, 3, 96, x.vlanId) && Takes(now, was, flag, 4, 108, x.vlanPriority)
    && Takes(now, was, flag, 5, 111, x.mplsLabel) && Takes(now, was, flag, 6, 131, x.mplsClass)
    && Takes(now, was, flag, 7, 134, x.ipv4Src) && Takes(now, was, flag, 8, 166, x.ipv4Dst)
    && Takes(now, was, flag, 9, 198, x.tos) && Takes(now, was, flag, 10, 204, x.tcpSrc)
    && Takes(now, was, flag, 11, 220, x.tcpDst) && Takes(now, was, flag, 12, 240, x.outputPort)
  }

  /** A byte of the flow row: the new value if flag bit `f` is set. */
  predicate ByteTakes(now: byte, was: byte, flag: FlagWord, f: nat, v: seq<bool>)
    requires f < 16 && |v| == 8
  {
    if Bit(flag, f) then Extract([now], 0, 8) == v else now == was
  }

  function Listed(x: NewValues): seq<seq<bool>> {
    [[], x.macSrc, x.macDst, x.vlanId, x.vlanPriority, x.mplsLabel, x.mplsClass, x.ipv4Src, x.ipv4Dst, x.tos,
     x.tcpSrc, x.tcpDst, x.outputPort, x.priority, x.counter, x.timeout]
  }

  lemma ListedFits(x: NewValues)
    requires RightWidths(x)
    ensures FitsFields(Listed(x))
  {
  }

  lemma ListedNetwork(x: NewValues)
    ensures Listed(x)[7] == x.ipv4Src && Listed(x)[8] == x.ipv4Dst && Listed(x)[9] == x.tos
    ensures Listed(x)[10] == x.tcpSrc && Listed(x)[11] == x.tcpDst && Listed(x)[12] == x.outputPort
  {
  }

  lemma PackedStart(flag: FlagWord, vals: seq<seq<bool>>)
    requires FitsFields(vals)
    ensures PackedTo(flag, vals, 1) == []
  {
  }

  lemma PackedStep(flag: FlagWord, x: NewValues, g: nat, on: bool)
    requires RightWidths(x) && 1 <= g <= 15 && on == (g > 12 || !Bit(flag, 0))
    ensures FitsFields(Listed(x))
    ensures PackedTo(flag, Listed(x), g + 1) == PackedTo(flag, Listed(x), g) + Given(on && Bit(flag, g), Listed(x)[g])
  {
    hide Bit, FitsFields, PackedTo, RightWidths, Listed;
    ListedFits(x);
    PackedNext(flag, Listed(x), g);
  }

  lemma TagsPacked(flag: FlagWord, x: NewValues)
    requires RightWidths(x)
    ensures FitsFields(Listed(x)) && PackedTo(flag, Listed(x), 7) == DenseTags(flag, !Bit(flag, 0), x)
  {
    hide PackedTo, FitsFields, RightWidths, Bit, Given;
    var on := !Bit(flag, 0);
    ListedFits(x);
    PackedStart(flag, Listed(x));
    PackedStep(flag, x, 1, on);
    PackedStep(flag, x, 2, on);
    PackedStep(flag, x, 3, on);
    PackedStep(flag, x, 4, on);
    PackedStep(flag, x, 5, on);
    PackedStep(flag, x, 6, on);
    assert PackedTo(flag, Listed(x), 2) == Given(on && Bit(flag, 1), x.macSrc);
  }

  lemma NetworkPacked(flag: FlagWord, x: NewValues)
    requires RightWidths(x)
    ensures FitsFields(Listed(x))
    ensures PackedTo(flag, Listed(x), 13) == PackedTo(flag, Listed(x), 7) + DenseNetwork(flag, !Bit(flag, 0), x)
  {
    hide PackedTo, FitsFields, RightWidths, Bit, Given, Listed;
    var on := !Bit(flag, 0);
    ListedFits(x);
    ListedNetwork(x);
    PackedStep(flag, x, 7, on);
    PackedStep(flag, x, 8, on);
    PackedStep(flag, x, 9, on);
    PackedStep(flag, x, 10, on);
    PackedStep(flag, x, 11, on);
    PackedStep(flag, x, 12, on);
    SixMore(PackedTo(flag, Listed(x), 7), Given(on && Bit(flag, 7), x.ipv4Src), Given(on && Bit(flag, 8), x.ipv4Dst),
            Given(on && Bit(flag, 9), x.tos), Given(on && Bit(flag, 10), x.tcpSrc),
            Given(on && Bit(flag, 11), x.tcpDst), Given(on && Bit(flag, 12), x.outputPort));
  }

  lemma SixMore(p: seq<bool>, a: seq<bool>, b: seq<bool>, c: seq<bool>, d: seq<bool>, e: seq<bool>, f: seq<bool>)
    ensures p + a + b + c + d + e + f == p + (a + b + c + d + e + f)
  {
  }

  lemma RowPacked(flag: FlagWord, x: NewValues)
    requires RightWidths(x)
    ensures FitsFields(Listed(x))
    ensures PackedTo(flag, Listed(x), 16) == PackedTo(flag, Listed(x), 13) + DenseRow(flag, x)
  {
    hide PackedTo, FitsFields, RightWidths, Bit, Given;
    ListedFits(x);
    PackedStep(flag, x, 13, true);
    PackedStep(flag, x, 14, true);
    PackedStep(flag, x, 15, true);
    var p, a, b, c := PackedTo(flag, Listed(x), 13), Given(Bit(flag, 13), x.priority), Given(Bit(flag, 14), x.counter),
                      Given(Bit(flag, 15), x.timeout);
    assert p + a + b + c == p + (a + b + c);
  }

  lemma DenseIsPacked(flag: FlagWord, x: NewValues)
    requires RightWidths(x)
    ensures FitsFields(Listed(x)) && Packed(flag, Listed(x)) == Dense(flag, x)
  {
    hide PackedTo, FitsFields, RightWidths, Bit, DenseTags, DenseNetwork, DenseRow, Listed;
    TagsPacked(flag, x);
    NetworkPacked(flag, x);
    RowPacked(flag, x);
  }

  // ---- what becomes of the rule ----

  /** Where the fields are, and how wide. */
  lemma TagPlaces()
    ensures Start(1) == 0 && Start(2) == 48 && Start(3) == 96 && Start(4) == 108 && Start(5) == 111 && Start(6) == 131
    ensures Width(1) == 48 && Width(2) == 48 && Width(3) == 12 && Width(4) == 3 && Width(5) == 20 && Width(6) == 3
  {
  }

  lemma NetworkPlaces()
    ensures Start(7) == 134 && Start(8) == 166 && Start(9) == 198 && Start(10) == 204 && Start(11) == 220
    ensures Width(7) == 32 && Width(8) == 32 && Width(9) == 6 && Width(10) == 16 && Width(11) == 16
  {
  }

  lemma BytePlaces()
    ensures Start(12) == 240 && Start(13) == 360 && Start(14) == 368 && Start(15) == 376
    ensures Width(12) == 8 && Width(13) == 8 && Width(14) == 8 && Width(15) == 8
  {
  }

  lemma AllPlaces()
    ensures Start(1) == 0 && Start(2) == 48 && Start(3) == 96 && Start(4) == 108 && Start(5) == 111 && Start(6) == 131
    ensures Start(7) == 134 && Start(8) == 166 && Start(9) == 198 && Start(10) == 204 && Start(11) == 220
    ensures Start(12) == 240 && Start(13) == 360 && Start(14) == 368 && Start(15) == 376
    ensures Width(1) == 48 && Width(2) == 48 && Width(3) == 12 && Width(4) == 3 && Width(5) == 20 && Width(6) == 3
    ensures Width(7) == 32 && Width(8) == 32 && Width(9) == 6 && Width(10) == 16 && Width(11) == 16
    ensures Width(12) == 8 && Width(13) == 8 && Width(14) == 8 && Width(15) == 8
  {
    hide Start, Width;
    TagPlaces();
    NetworkPlaces();
    BytePlaces();
  }

  lemma FieldTakes(t: Table, t': Table, p: nat, flag: FlagWord, f: nat, start: nat, v: seq<bool>)
    requires Shaped(t) && Shaped(t') && p < t.tail && p < t'.tail && 1 <= f <= 12
    requires start == Start(f) && |v| == Width(f)
    requires FieldOf(t', p, f) == if Selected(flag, f) then v else FieldOf(t, p, f)
    ensures start + |v| <= 248 && Takes(t'.acts[p], t.acts[p], flag, f, start, v)
  {
    hide Start, Width, Extract, Bit;
  }

  lemma {:induction false} EditedGap(action: ActionSet, flag: FlagWord, values: seq<byte>, g: nat)
    requires 1 <= g <= LAST_ACTION_FIELD + 1 && EnoughValues(flag, values)
    ensures Extract(EditedTo(action, flag, values, g), 236, 4) == Extract(action, 236, 4)
    decreases g
  {
    hide Selected, Extract, Replace, Offset, Value, Start, Width;
    if g > 1 {
      EditedGap(action, flag, values, g - 1);
      if Selected(flag, g - 1) {
        AllPlaces();
        assert g == 2 || g == 3 || g == 4 || g == 5 || g == 6 || g == 7 || g == 8 || g == 9 || g == 10 || g == 11
               || g == 12 || g == 13;
        DisjointWriteUnseen(EditedTo(action, flag, values, g - 1), Start(g - 1), Value(flag, values, g - 1), 236, 4);
      }
    }
  }

  lemma ByteInRow(row: FlowRow, i: nat)
    requires i < 48
    ensures Extract(row, 8 * i, 8) == Extract([row[i]], 0, 8)
  {
    hide BitOf;
    var a, b := Extract(row, 8 * i, 8), Extract([row[i]], 0, 8);
    forall k | 0 <= k < 8
      ensures a[k] == b[k]
    {
      BitInByte(row, i, k);
      BitInByte([row[i]], 0, k);
    }
  }

  lemma SameBitsSameByte(a: byte, b: byte)
    requires Extract([a], 0, 8) == Extract([b], 0, 8)
    ensures a == b
  {
    hide BitOf;
    forall j | 0 <= j < 8
      ensures BitOf(a, j) == BitOf(b, j)
    {
      BitInByte([a], 0, j);
      BitInByte([b], 0, j);
      assert Extract([a], 0, 8)[j] == Extract([b], 0, 8)[j];
    }
    ByteExtensionality(a, b);
  }

  lemma RowTakes(t: Table, t': Table, p: nat, flag: FlagWord, f: nat, v: seq<bool>)
    requires Shaped(t) && Shaped(t') && p < t.tail && p < t'.tail && 13 <= f <= 15 && |v| == 8
    requires FieldOf(t', p, f) == if Selected(flag, f) then v else FieldOf(t, p, f)
    ensures ByteTakes(t'.rows[p][f + 32], t.rows[p][f + 32], flag, f, v)
  {
    hide Start, Width, Extract, Bit;
    AllPlaces();
    ByteInRow(t.rows[p], f + 32);
    ByteInRow(t'.rows[p], f + 32);
    assert Start(f) == 8 * (f + 32) && Width(f) == 8 by { assert f == 13 || f == 14 || f == 15; }
    if !Bit(flag, f) {
      SameBitsSameByte(t'.rows[p][f + 32], t.rows[p][f + 32]);
    }
  }

  lemma OrFlagsBit(a: FlagWord, b: FlagWord, q: nat)
    requires q < 16
    ensures Bit(OrFlags(a, b), q) <==> Bit(a, q) || Bit(b, q)
  {
    hide Flag;
    var x, y, f := a[q / 8], b[q / 8], Flag(q % 8);
    assert f & (x | y) == (f & x) | (f & y);
    FlagMeets(q % 8, q % 8);
  }

  /**
   `modify_entry`: if the values lie densely packed in flag order, the fields selected become
   theirs and nothing else of the action set changes; priority, counter and timeout likewise; the flags
   are added to those the rule had. Of the other rows only the packet counters change.
   */
  lemma ModifyTakes(t: Table, pkt: MatchField, flag: FlagWord, x: NewValues, values: seq<byte>)
    requires Sound(t, t.tail) && SearchT(t, pkt).1 >= 0 && RightWidths(x)
    requires |Dense(flag, x)| <= 8 * |values| && Extract(values, 0, |Dense(flag, x)|) == Dense(flag, x)
    ensures EnoughValues(flag, values)
    ensures var (t', p) := ModifyT(t, pkt, flag, values);
            && p == SearchT(t, pkt).1 && Shaped(t') && 0 <= p < t.tail == t'.tail
            && TakesAll(t'.acts[p], t.acts[p], flag, x)
            && Extract(t'.acts[p], 236, 4) == Extract(t.acts[p], 236, 4)
            && ByteTakes(t'.rows[p][45], t.rows[p][45], flag, 13, x.priority)
            && ByteTakes(t'.rows[p][46], t.rows[p][46], flag, 14, x.counter)
            && ByteTakes(t'.rows[p][47], t.rows[p][47], flag, 15, x.timeout)
            && t'.rows[p][..45] == t.rows[p][..45]
            && (forall q :: 0 <= q < 16 ==> (Bit(t'.flags[p], q) <==> Bit(t.flags[p], q) || Bit(flag, q)))
            && (forall q :: 0 <= q < 20 && q != p ==>
                  && t'.acts[q] == t.acts[q] && t'.flags[q] == t.flags[q]
                  && t'.rows[q][..46] == t.rows[q][..46] && t'.rows[q][47] == t.rows[q][47])
            && t'.masks == t.masks && t'.maskTail == t.maskTail
  {
    hide Dense, Extract, Bit, Packed, Listed, FitsFields, EnoughValues, SearchT, Sound, ModifyT, Takes, ByteTakes,
      FieldOf, Selected, RightWidths, AllFields;
    DenseIsPacked(flag, x);
    LongEnough(flag, Listed(x), values);
    ModifyUnpacks(t, pkt, flag, Listed(x), values);
    ModifyShape(t, pkt, flag, values);
    UnpacksAll(t, pkt, flag, x, values);
    var (t', p) := ModifyT(t, pkt, flag, values);
    TagsTake(t, t', p, flag, x);
    NetworkTakes(t, t', p, flag, x);
    RowBytesTake(t, t', p, flag, x);
  }

  lemma UnpacksAll(t: Table, pkt: MatchField, flag: FlagWord, x: NewValues, values: seq<byte>)
    requires Sound(t, t.tail) && SearchT(t, pkt).1 >= 0 && RightWidths(x) && EnoughValues(flag, values)
    requires |Dense(flag, x)| <= 8 * |values| && Extract(values, 0, |Dense(flag, x)|) == Dense(flag, x)
    ensures var (t', p) := ModifyT(t, pkt, flag, values);
            0 <= p && AllFields(t, t', p, flag, x)
  {
    hide Dense, Extract, Bit, Packed, Listed, EnoughValues, FieldOf, Selected, RightWidths, Matches, EditedTo,
      EditedRow, OrFlags, CandidatesTo;
    DenseIsPacked(flag, x);
    LongEnough(flag, Listed(x), values);
    ModifyUnpacks(t, pkt, flag, Listed(x), values);
  }

  lemma ModifyShape(t: Table, pkt: MatchField, flag: FlagWord, values: seq<byte>)
    requires Sound(t, t.tail) && SearchT(t, pkt).1 >= 0 && EnoughValues(flag, values)
    ensures var (t', p) := ModifyT(t, pkt, flag, values);
            && p == SearchT(t, pkt).1 && Shaped(t') && 0 <= p < t.tail == t'.tail
            && Extract(t'.acts[p], 236, 4) == Extract(t.acts[p], 236, 4)
            && (forall q :: 0 <= q < 16 ==> (Bit(t'.flags[p], q) <==> Bit(t.flags[p], q) || Bit(flag, q)))
            && (forall q :: 0 <= q < 20 && q != p ==>
                  t'.rows[q][..46] == t.rows[q][..46] && t'.rows[q][47] == t.rows[q][47])
  {
    hide Extract, Bit, EnoughValues, EditedTo, OrFlags, Matches, Value, Selected, ByteOf;
    var (t', p) := ModifyT(t, pkt, flag, values);
    EditedGap(t.acts[p], flag, values, 13);
    forall q | 0 <= q < 16
      ensures Bit(t'.flags[p], q) <==> Bit(t.flags[p], q) || Bit(flag, q)
    {
      OrFlagsBit(t.flags[p], flag, q);
    }
  }

  /** All fields as ModifyModel numbers them. */
  ghost predicate AllFields(t: Table, t': Table, p: nat, flag: FlagWord, x: NewValues) {
    && Shaped(t) && Shaped(t') && p < t.tail && p < t'.tail
    && forall f :: 1 <= f <= 15 ==> FieldOf(t', p, f) == if Selected(flag, f) then Listed(x)[f] else FieldOf(t, p, f)
  }

  lemma NthTakes(t: Table, t': Table, p: nat, flag: FlagWord, x: NewValues, f: nat, start: nat, v: seq<bool>)
    requires AllFields(t, t', p, flag, x) && 1 <= f <= 12
    requires start == Start(f) && |v| == Width(f) && v == Listed(x)[f]
    ensures start + |v| <= 248 && Takes(t'.acts[p], t.acts[p], flag, f, start, v)
  {
    hide FieldOf, Selected, Start, Width, Takes, Listed;
    FieldTakes(t, t', p, flag, f, start, v);
  }

  lemma TagsTake(t: Table, t': Table, p: nat, flag: FlagWord, x: NewValues)
    requires AllFields(t, t', p, flag, x) && RightWidths(x)
    ensures var now, was := t'.acts[p], t.acts[p];
            && Takes(now, was, flag, 1, 0, x.macSrc) && Takes(now, was, flag, 2, 48, x.macDst)
            && Takes(now, was, flag, 3, 96, x.vlanId) && Takes(now, was, flag, 4, 108, x.vlanPriority)
            && Takes(now, was, flag, 5, 111, x.mplsLabel) && Takes(now, was, flag, 6, 131, x.mplsClass)
  {
    hide AllFields, Start, Width, Takes;
    AllPlaces();
    NthTakes(t, t', p, flag, x, 1, 0, x.macSrc);
    NthTakes(t, t', p, flag, x, 2, 48, x.macDst);
    NthTakes(t, t', p, flag, x, 3, 96, x.vlanId);
    NthTakes(t, t', p, flag, x, 4, 108, x.vlanPriority);
    NthTakes(t, t', p, flag, x, 5, 111, x.mplsLabel);
    NthTakes(t, t', p, flag, x, 6, 131, x.mplsClass);
  }

  lemma NetworkTakes(t: Table, t': Table, p: nat, flag: FlagWord, x: NewValues)
    requires AllFields(t, t', p, flag, x) && RightWidths(x)
    ensures var now, was := t'.acts[p], t.acts[p];
            && Takes(now, was, flag, 7, 134, x.ipv4Src) && Takes(now, was, flag, 8, 166, x.ipv4Dst)
            && Takes(now, was, flag, 9, 198, x.tos) && Takes(now, was, flag, 10, 204, x.tcpSrc)
            && Takes(now, was, flag, 11, 220, x.tcpDst) && Takes(now, was, flag, 12, 240, x.outputPort)
  {
    hide AllFields, Start, Width, Takes;
    AllPlaces();
    NthTakes(t, t', p, flag, x, 7, 134, x.ipv4Src);
    NthTakes(t, t', p, flag, x, 8, 166, x.ipv4Dst);
    NthTakes(t, t', p, flag, x, 9, 198, x.tos);
    NthTakes(t, t', p, flag, x, 10, 204, x.tcpSrc);
    NthTakes(t, t', p, flag, x, 11, 220, x.tcpDst);
    NthTakes(t, t', p, flag, x, 12, 240, x.outputPort);
  }

  lemma RowBytesTake(t: Table, t': Table, p: nat, flag: FlagWord, x: NewValues)
    requires AllFields(t, t', p, flag, x) && RightWidths(x)
    ensures ByteTakes(t'.rows[p][45], t.rows[p][45], flag, 13, x.priority)
    ensures ByteTakes(t'.rows[p][46], t.rows[p][46], flag, 14, x.counter)
    ensures ByteTakes(t'.rows[p][47], t.rows[p][47], flag, 15, x.timeout)
  {
    hide FieldOf, Selected, ByteTakes;
    assert Listed(x)[13] == x.priority && Listed(x)[14] == x.counter && Listed(x)[15] == x.timeout;
    RowTakes(t, t', p, flag, 13, x.priority);
    RowTakes(t, t', p, flag, 14, x.counter);
    RowTakes(t, t', p, flag, 15, x.timeout);
  }

  lemma LongEnough(flag: FlagWord, vals: seq<seq<bool>>, values: seq<byte>)
    requires FitsFields(vals) && |Packed(flag, vals)| <= 8 * |values|
    ensures EnoughValues(flag, values) && |Packed(flag, vals)| == Offset(flag, NO_OF_FIELDS + 1)
  {
  }

  // ---- printing what was put in ----

  /** Some line shows the field, and its bytes begin with the bits `v`. */
  ghost predicate Shows(lines: seq<Shown>, field: ActionField, v: seq<bool>) {
    exists bytes :: Printed(field, bytes) in lines && |v| <= 8 * |bytes| && Extract(bytes, 0, |v|) == v
  }

  lemma ShownLine(lines: seq<Shown>, field: ActionField, action: ActionSet, start: nat, n: nat, k: nat)
    requires start + n <= 248 && n <= 8 * k && Printed(field, Front(action, start, n, k)) in lines
    ensures Shows(lines, field, Extract(action, start, n))
  {
    hide Extract, Front;
    FrontExtract(action, start, n, k);
  }

  lemma TagLines(action: ActionSet, flag: FlagWord)
    requires !Bit(flag, 0)
    ensures var lines := ShownActions(action, flag);
            && (Bit(flag, 1) ==> Shows(lines, MacSrc, Extract(action, 0, 48)))
            && (Bit(flag, 2) ==> Shows(lines, MacDst, Extract(action, 48, 48)))
            && (Bit(flag, 3) ==> Shows(lines, VlanId, Extract(action, 96, 12)))
            && (Bit(flag, 4) ==> Shows(lines, VlanPriority, Extract(action, 108, 3)))
            && (Bit(flag, 5) ==> Shows(lines, MplsLabel, Extract(action, 111, 20)))
            && (Bit(flag, 6) ==> Shows(lines, MplsClass, Extract(action, 131, 3)))
  {
    hide Extract, Front, Bit, Shows, ShownNetwork;
    var lines := ShownActions(action, flag);
    if Bit(flag, 1) { ShownLine(lines, MacSrc, action, 0, 48, 6); }
    if Bit(flag, 2) { ShownLine(lines, MacDst, action, 48, 48, 6); }
    if Bit(flag, 3) { ShownLine(lines, VlanId, action, 96, 12, 2); }
    if Bit(flag, 4) { ShownLine(lines, VlanPriority, action, 108, 3, 1); }
    if Bit(flag, 5) { ShownLine(lines, MplsLabel, action, 111, 20, 3); }
    if Bit(flag, 6) { ShownLine(lines, MplsClass, action, 131, 3, 1); }
  }

  lemma NetworkLines(action: ActionSet, flag: FlagWord)
    requires !Bit(flag, 0)
    ensures var lines := ShownActions(action, flag);
            && (Bit(flag, 7) ==> Shows(lines, IPv4Src, Extract(action, 134, 32)))
            && (Bit(flag, 8) ==> Shows(lines, IPv4Dst, Extract(action, 166, 32)))
            && (Bit(flag, 9) ==> Shows(lines, IPv4ToS, Extract(action, 198, 6)))
            && (Bit(flag, 10) ==> Shows(lines, TcpSrc, Extract(action, 204, 16)))
            && (Bit(flag, 11) ==> Shows(lines, TcpDst, Extract(action, 220, 16)))
            && Shows(lines, OutputPort, Extract(action, 240, 8))
  {
    hide Extract, Front, Bit, Shows, ShownTags;
    var lines := ShownActions(action, flag);
    if Bit(flag, 7) { ShownLine(lines, IPv4Src, action, 134, 32, 4); }
    if Bit(flag, 8) { ShownLine(lines, IPv4Dst, action, 166, 32, 4); }
    if Bit(flag, 9) { ShownLine(lines, IPv4ToS, action, 198, 6, 1); }
    if Bit(flag, 10) { ShownLine(lines, TcpSrc, action, 204, 16, 2); }
    if Bit(flag, 11) { ShownLine(lines, TcpDst, action, 220, 16, 2); }
    PortLine(lines, action);
  }

  lemma PortLine(lines: seq<Shown>, action: ActionSet)
    requires Printed(OutputPort, [action[30]]) in lines
    ensures Shows(lines, OutputPort, Extract(action, 240, 8))
  {
    hide BitOf;
    var a, b := Extract(action, 240, 8), Extract([action[30]], 0, 8);
    forall k | 0 <= k < 8
      ensures a[k] == b[k]
    {
      BitInByte(action, 30, k);
      BitInByte([action[30]], 0, k);
    }
  }

  /** Every field selected is shown with its value. */
  ghost predicate PrintsAll(lines: seq<Shown>, flag: FlagWord, x: NewValues) {
    && (Bit(flag, 1) ==> Shows(lines, MacSrc, x.macSrc))
    && (Bit(flag, 2) ==> Shows(lines, MacDst, x.macDst))
    && (Bit(flag, 3) ==> Shows(lines, VlanId, x.vlanId))
    && (Bit(flag, 4) ==> Shows(lines, VlanPriority, x.vlanPriority))
    && (Bit(flag, 5) ==> Shows(lines, MplsLabel, x.mplsLabel))
    && (Bit(flag, 6) ==> Shows(lines, MplsClass, x.mplsClass))
    && (Bit(flag, 7) ==> Shows(lines, IPv4Src, x.ipv4Src))
    && (Bit(flag, 8) ==> Shows(lines, IPv4Dst, x.ipv4Dst))
    && (Bit(flag, 9) ==> Shows(lines, IPv4ToS, x.tos))
    && (Bit(flag, 10) ==> Shows(lines, TcpSrc, x.tcpSrc))
    && (Bit(flag, 11) ==> Shows(lines, TcpDst, x.tcpDst))
    && (Bit(flag, 12) ==> Shows(lines, OutputPort, x.outputPort))
  }

  /**
   `apply_action` prints for the rule modified, unless it drops packets, each field that was
   selected with the value that was given for it.
   */
  lemma ModifiedIsPrinted(t: Table, pkt: MatchField, flag: FlagWord, x: NewValues, values: seq<byte>)
    requires Sound(t, t.tail) && SearchT(t, pkt).1 >= 0 && RightWidths(x)
    requires |Dense(flag, x)| <= 8 * |values| && Extract(values, 0, |Dense(flag, x)|) == Dense(flag, x)
    ensures EnoughValues(flag, values)
    ensures var (t', p) := ModifyT(t, pkt, flag, values);
            && Shaped(t') && 0 <= p < t.tail
            && var lines := ShownActions(t'.acts[p], t'.flags[p]);
               if Bit(t.flags[p], 0) || Bit(flag, 0) then lines == [Drop]
               else PrintsAll(lines, flag, x)
  {
    hide Dense, Extract, Bit, EnoughValues, SearchT, Sound, ModifyT, Shows, ShownTags, ShownNetwork, ByteTakes;
    ModifyTakes(t, pkt, flag, x, values);
    var (t', p) := ModifyT(t, pkt, flag, values);
    if !Bit(t'.flags[p], 0) {
      TagLines(t'.acts[p], t'.flags[p]);
      NetworkLines(t'.acts[p], t'.flags[p]);
    }
  }
}
