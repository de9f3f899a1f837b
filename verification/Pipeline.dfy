/**
 Whole runs of the pre-processor: packets loaded, match fields prepared and pairs
 returned in any order that keeps the two buffers in step.
 */
module Pipeline {
  import opened Bytes
  import opened Matching
  import opened PacketBuffers
  import opened MatchFieldBuffers
  import opened Packets
  import opened MatchFieldMeaning
  import opened PreProcessing

  datatype PipeOp = LoadPacket(p: WirePacket) | Prepare | Return

  /** What a run has done so far; `full` is the packet buffer's flag, which stays up. */
  datatype PipeState = PipeState(loaded: seq<WirePacket>, prepared: nat, returned: nat, full: bool)

  const START := PipeState([], 0, 0, false)

  ghost predicate Ordered(s: PipeState) {
    Framed(s.loaded) && s.returned <= s.prepared <= |s.loaded|
  }

  /**
   The condition under which each operation keeps the buffers in step. Returning when nothing is
   prepared is allowed, and returns nothing.
   */
  ghost predicate InStep(s: PipeState, op: PipeOp) {
    && Ordered(s)
    && match op
       case LoadPacket(p) =>
         && Wired(p) && WellFramed(p) && !s.full
         && |Frames(s.loaded)| + |Frame(p)| <= Boundary(s.loaded, s.returned) + PACKET_BUFFER_LEN
       case Prepare =>
         && s.prepared < |s.loaded| && |Frame(s.loaded[s.prepared])| <= MAX_PACKET_SIZE
         && MTCH_FLD_LEN * (s.prepared - s.returned + 1) <= MATCH_FIELD_BUFFER_LEN
       case Return =>
         s.returned == s.prepared
         || Boundary(s.loaded, s.prepared) < Boundary(s.loaded, s.returned) + PACKET_BUFFER_LEN
  }

  ghost function Step(s: PipeState, op: PipeOp): (r: PipeState)
    requires InStep(s, op)
    ensures Ordered(r)
  {
    match op
    case LoadPacket(p) =>
      assert forall k :: 0 <= k < |s.loaded| ==> (s.loaded + [p])[k] == s.loaded[k];
      s.(loaded := s.loaded + [p],
         full := |Frames(s.loaded)| + |Frame(p)| == Boundary(s.loaded, s.returned) + PACKET_BUFFER_LEN)
    case Prepare => s.(prepared := s.prepared + 1)
    case Return => if s.returned < s.prepared then s.(returned := s.returned + 1) else s
  }

  ghost predicate StaysInStep(s: PipeState, ops: seq<PipeOp>)
    decreases |ops|
  {
    |ops| > 0 ==> InStep(s, ops[0]) && StaysInStep(Step(s, ops[0]), ops[1..])
  }

  ghost function Run(s: PipeState, ops: seq<PipeOp>): PipeState
    requires StaysInStep(s, ops)
    decreases |ops|
  {
    if |ops| == 0 then s else Run(Step(s, ops[0]), ops[1..])
  }

  /** The packets that the run loads, in order. */
  function LoadedBy(ops: seq<PipeOp>): seq<WirePacket> {
    if |ops| == 0 then []
    else (if ops[0].LoadPacket? then [ops[0].p] else []) + LoadedBy(ops[1..])
  }

  lemma {:induction false} RunLoads(s: PipeState, ops: seq<PipeOp>)
    requires StaysInStep(s, ops)
    ensures Run(s, ops).loaded == s.loaded + LoadedBy(ops)
    decreases |ops|
  {
    hide InStep;
    if |ops| > 0 {
      RunLoads(Step(s, ops[0]), ops[1..]);
    }
  }

  /** The pre-processor is in the state that the run has come to. */
  ghost predicate Follows(pp: PreProcessor, s: PipeState)
    reads pp, pp.pb, pp.pb.ring, pp.mf, pp.mf.ring
  {
    && pp.Valid() && Ordered(s)
    && pp.loaded == s.loaded && |pp.fields| == s.prepared && pp.returned == s.returned && pp.pb.bufferFull == s.full
  }

  method Loaded(pp: PreProcessor, p: WirePacket, ghost s: PipeState)
    requires Follows(pp, s) && InStep(s, LoadPacket(p))
    modifies pp, pp.pb, pp.pb.ring
    ensures Follows(pp, Step(s, LoadPacket(p))) && pp.fields == old(pp.fields)
  {
    hide Frame, Frames, Boundary, WellFramed, SlotOf, Records, Faithful;
    BoundariesKept(s.loaded, p, s.returned);
    pp.Load(p);
  }

  method Prepared(pp: PreProcessor, ghost s: PipeState)
    requires Follows(pp, s) && InStep(s, Prepare)
    modifies pp, pp.pb, pp.mf, pp.mf.ring
    ensures Follows(pp, Step(s, Prepare)) && pp.fields[..s.prepared] == old(pp.fields)
  {
    hide Frame, Frames, Boundary, WellFramed, SlotOf, Records, Faithful;
    pp.PrepareMatchField();
  }

  /** The pair that comes out, if one does. */
  method Returned(pp: PreProcessor, ghost s: PipeState) returns (packet: seq<byte>, field: MatchField)
    requires Follows(pp, s) && InStep(s, Return)
    modifies pp, pp.pb, pp.mf
    ensures Follows(pp, Step(s, Return)) && pp.fields == old(pp.fields)
    ensures s.returned < s.prepared ==>
              && packet == Frame(s.loaded[s.returned]) && field == pp.fields[s.returned]
              && Faithful(s.loaded[s.returned], field)
  {
    hide Frame, Frames, Boundary, WellFramed, SlotOf, Records, Faithful;
    var f := new byte[MTCH_FLD_LEN](_ => 0);
    var b := new byte[MAX_FRAME](_ => 0);
    if s.returned < s.prepared {
      FrameFitsByte(s.loaded[s.returned]);
    }
    pp.ReturnMatchFieldAndPacket(f, b);
    packet, field := b[..1 + b[0] as nat], f[..];
  }

  /** One operation, and the pair that comes out if it returns one. */
  method Do(pp: PreProcessor, op: PipeOp, ghost s: PipeState) returns (packet: seq<byte>, field: MatchField)
    requires Follows(pp, s) && InStep(s, op)
    modifies pp, pp.pb, pp.pb.ring, pp.mf, pp.mf.ring
    ensures Follows(pp, Step(s, op))
    ensures op.Return? && s.returned < s.prepared ==>
              packet == Frame(s.loaded[s.returned]) && Faithful(s.loaded[s.returned], field)
  {
    hide Frame, Faithful, InStep, Follows, Step;
    packet, field := [], seq(MTCH_FLD_LEN, _ => 0);
    match op {
      case LoadPacket(p) => Loaded(pp, p, s);
      case Prepare => Prepared(pp, s);
      case Return => packet, field := Returned(pp, s);
    }
  }

  /** What has come out so far belongs to the packets loaded first. */
  ghost predicate Paired(s: PipeState, packets: seq<seq<byte>>, fields: seq<MatchField>) {
    && Ordered(s) && |packets| == |fields| == s.returned
    && forall k :: 0 <= k < |packets| ==> packets[k] == Frame(s.loaded[k]) && Faithful(s.loaded[k], fields[k])
  }

  lemma StillPaired(s: PipeState, op: PipeOp, packets: seq<seq<byte>>, fields: seq<MatchField>)
    requires Paired(s, packets, fields) && InStep(s, op) && (op.Return? ==> s.returned == s.prepared)
    ensures Paired(Step(s, op), packets, fields)
  {
    hide Frame, Frames, Boundary, Faithful, WellFramed;
    forall k | 0 <= k < |packets|
      ensures Step(s, op).loaded[k] == s.loaded[k]
    {
    }
  }

  lemma OneMorePair(s: PipeState, packets: seq<seq<byte>>, fields: seq<MatchField>, packet: seq<byte>,
                    field: MatchField)
    requires Paired(s, packets, fields) && InStep(s, Return) && s.returned < s.prepared
    requires packet == Frame(s.loaded[s.returned]) && Faithful(s.loaded[s.returned], field)
    ensures Paired(Step(s, Return), packets + [packet], fields + [field])
  {
    hide Frame, Frames, Boundary, Faithful, WellFramed;
  }

  /** The whole run on one pre-processor. */
  method DriveAll(pp: PreProcessor, ops: seq<PipeOp>) returns (packets: seq<seq<byte>>, fields: seq<MatchField>)
    requires Follows(pp, START) && StaysInStep(START, ops)
    modifies pp, pp.pb, pp.pb.ring, pp.mf, pp.mf.ring
    ensures Paired(Run(START, ops), packets, fields)
  {
    hide Frame, Faithful, InStep, Follows, Step, Paired, StaysInStep, Run;
    ghost var s := START;
    var prepared, returned := 0, 0;
    packets, fields := [], [];
    assert ops[0..] == ops;
    assert Paired(s, packets, fields) by { NothingPaired(); }
    for i := 0 to |ops|
      invariant Follows(pp, s) && Paired(s, packets, fields)
      invariant prepared == s.prepared && returned == s.returned
      invariant StaysInStep(s, ops[i..]) && Run(s, ops[i..]) == Run(START, ops)
    {
      assert ops[i..][0] == ops[i] && ops[i..][1..] == ops[i + 1..];
      NextOp(s, ops[i..]);
      StepCounts(s, ops[i]);
      var packet, field := Do(pp, ops[i], s);
      if ops[i].Return? && returned < prepared {
        OneMorePair(s, packets, fields, packet, field);
        packets, fields, returned := packets + [packet], fields + [field], returned + 1;
      } else {
        StillPaired(s, ops[i], packets, fields);
        prepared := if ops[i].Prepare? then prepared + 1 else prepared;
      }
      s := Step(s, ops[i]);
    }
    assert ops[|ops|..] == [];
    NoOps(s);
  }

  /**
   Any run in step: the k-th pair that comes out is the k-th packet that went in, byte for byte, and the
   match field that carries its header fields.
   */
  method RunPipeline(ops: seq<PipeOp>) returns (packets: seq<seq<byte>>, fields: seq<MatchField>)
    requires StaysInStep(START, ops)
    ensures |packets| == |fields| == Run(START, ops).returned <= |LoadedBy(ops)|
    ensures forall p :: p in LoadedBy(ops) ==> Wired(p)
    ensures forall k :: 0 <= k < |packets| ==>
              packets[k] == Frame(LoadedBy(ops)[k]) && Faithful(LoadedBy(ops)[k], fields[k])
  {
    hide Frame, Faithful, InStep, Follows, Paired, StaysInStep, Run, LoadedBy;
    var pp := new PreProcessor();
    Begins(pp);
    packets, fields := DriveAll(pp, ops);
    RunLoads(START, ops);
    AllPaired(Run(START, ops), packets, fields);
  }

  lemma NextOp(s: PipeState, ops: seq<PipeOp>)
    requires StaysInStep(s, ops) && |ops| > 0
    ensures InStep(s, ops[0]) && StaysInStep(Step(s, ops[0]), ops[1..])
    ensures Run(s, ops) == Run(Step(s, ops[0]), ops[1..])
  {
  }

  lemma NothingPaired()
    ensures Paired(START, [], [])
  {
  }

  lemma StepCounts(s: PipeState, op: PipeOp)
    requires InStep(s, op)
    ensures s.returned <= s.prepared <= |s.loaded|
    ensures var r := Step(s, op);
            && r.prepared == (if op.Prepare? then s.prepared + 1 else s.prepared)
            && r.returned == if op.Return? && s.returned < s.prepared then s.returned + 1 else s.returned
  {
  }

  lemma AllPaired(s: PipeState, packets: seq<seq<byte>>, fields: seq<MatchField>)
    requires Paired(s, packets, fields)
    ensures |packets| == |fields| == s.returned <= |s.loaded| && forall p :: p in s.loaded ==> Wired(p)
    ensures forall k :: 0 <= k < |packets| ==> packets[k] == Frame(s.loaded[k]) && Faithful(s.loaded[k], fields[k])
  {
  }

  lemma Begins(pp: PreProcessor)
    requires pp.Valid() && pp.loaded == [] && pp.fields == [] && pp.returned == 0 && !pp.pb.bufferFull
    ensures Follows(pp, START)
  {
  }

  // ---- every packet in turn ----

  /** Each packet loaded, prepared and returned before the next. */
  function InTurn(ps: seq<WirePacket>): seq<PipeOp> {
    if |ps| == 0 then [] else [LoadPacket(ps[0])] + ([Prepare] + ([Return] + InTurn(ps[1..])))
  }

  /** Nothing is under way. */
  ghost predicate Idle(s: PipeState) {
    Ordered(s) && s.returned == s.prepared == |s.loaded| && !s.full
  }

  /** This never gets out of step, however many packets there are, if each fits the pre-processor's own buffer. */
  lemma {:induction false} InTurnStaysInStep(s: PipeState, ps: seq<WirePacket>)
    requires Idle(s)
    requires Framed(ps) && forall p :: p in ps ==> |Frame(p)| <= MAX_PACKET_SIZE
    ensures StaysInStep(s, InTurn(ps)) && LoadedBy(InTurn(ps)) == ps
    ensures Run(s, InTurn(ps)).returned == s.returned + |ps|
    decreases |ps|
  {
    hide InStep, Step, StaysInStep, Run, LoadedBy, Idle, WellFramed, Frame;
    if |ps| == 0 {
      NoOps(s);
    } else {
      OnePacketInTurn(s, ps[0]);
      var s3 := Step(Step(Step(s, LoadPacket(ps[0])), Prepare), Return);
      FramedRest(ps);
      InTurnStaysInStep(s3, ps[1..]);
      ThreeMoreOps(s, ps[0], InTurn(ps[1..]));
      assert [ps[0]] + ps[1..] == ps;
    }
  }

  lemma FramedRest(ps: seq<WirePacket>)
    requires |ps| > 0 && Framed(ps)
    ensures Framed(ps[1..])
  {
    hide WellFramed;
    forall k | 0 <= k < |ps| - 1
      ensures ps[1..][k] == ps[k + 1]
    {
    }
  }

  lemma ThreeMoreOps(s: PipeState, p: WirePacket, rest: seq<PipeOp>)
    requires InStep(s, LoadPacket(p)) && InStep(Step(s, LoadPacket(p)), Prepare)
    requires InStep(Step(Step(s, LoadPacket(p)), Prepare), Return)
    requires StaysInStep(Step(Step(Step(s, LoadPacket(p)), Prepare), Return), rest)
    ensures var ops := [LoadPacket(p)] + ([Prepare] + ([Return] + rest));
            && StaysInStep(s, ops)
            && Run(s, ops) == Run(Step(Step(Step(s, LoadPacket(p)), Prepare), Return), rest)
            && LoadedBy(ops) == [p] + LoadedBy(rest)
  {
    hide InStep, Step, StaysInStep, Run, LoadedBy;
    var s1 := Step(s, LoadPacket(p));
    OneMoreOp(Step(s1, Prepare), Return, rest);
    OneMoreOp(s1, Prepare, [Return] + rest);
    OneMoreOp(s, LoadPacket(p), [Prepare] + ([Return] + rest));
    assert [] + LoadedBy(rest) == LoadedBy(rest);
  }

  lemma NoOps(s: PipeState)
    ensures StaysInStep(s, []) && Run(s, []) == s && LoadedBy([]) == []
  {
  }

  lemma OneMoreOp(s: PipeState, op: PipeOp, rest: seq<PipeOp>)
    requires InStep(s, op) && StaysInStep(Step(s, op), rest)
    ensures StaysInStep(s, [op] + rest) && Run(s, [op] + rest) == Run(Step(s, op), rest)
    ensures LoadedBy([op] + rest) == (if op.LoadPacket? then [op.p] else []) + LoadedBy(rest)
  {
    hide InStep, Step;
    assert ([op] + rest)[1..] == rest;
  }

  lemma OnePacketInTurn(s: PipeState, p: WirePacket)
    requires Idle(s)
    requires Wired(p) && WellFramed(p) && |Frame(p)| <= MAX_PACKET_SIZE
    ensures InStep(s, LoadPacket(p))
    ensures var s1 := Step(s, LoadPacket(p));
            && InStep(s1, Prepare)
            && var s2 := Step(s1, Prepare);
               && InStep(s2, Return)
               && var s3 := Step(s2, Return);
                  Idle(s3) && s3.returned == s.returned + 1
  {
    hide Frame, Frames, Boundary, WellFramed;
    AllFrames(s.loaded);
    BoundariesKept(s.loaded, p, |s.loaded|);
    AllFrames(s.loaded + [p]);
  }

  /** So every packet of any list comes back with its match field. */
  method EveryPacketInTurn(ps: seq<WirePacket>) returns (packets: seq<seq<byte>>, fields: seq<MatchField>)
    requires Framed(ps) && forall p :: p in ps ==> |Frame(p)| <= MAX_PACKET_SIZE
    ensures |packets| == |fields| == |ps|
    ensures forall k :: 0 <= k < |ps| ==> packets[k] == Frame(ps[k]) && Faithful(ps[k], fields[k])
  {
    hide Frame, Faithful, StaysInStep, Run, WellFramed;
    InTurnStaysInStep(START, ps);
    packets, fields := RunPipeline(InTurn(ps));
  }

  // ---- a match field without its packet ----

  /**
   Ten packets of 87 bytes are loaded and prepared, which fills the ring. The first pair returned is a match
   field and no packet: the caller's array is as it was, and the two buffers are out of step.
   */
  method FieldLeavesItsPacketBehind(p: WirePacket) returns (packet: seq<byte>, field: MatchField, ghost inStep: bool)
    requires Wired(p) && p.len == |p.data| == 87
    ensures Faithful(p, field) && packet == seq(MAX_PACKET_SIZE, _ => 0) && !inStep
  {
    hide Frame, Faithful, Follows, SlotOf;
    var pp := TenPrepared(p);
    var f := new byte[MTCH_FLD_LEN](_ => 0);
    var b := new byte[MAX_PACKET_SIZE](_ => 0);
    RingIsFull(pp, p);
    pp.ReturnMatchFieldAndPacket(f, b);
    packet, field := b[..], f[..];
    inStep := pp.Valid();
  }

  method TenPrepared(p: WirePacket) returns (pp: PreProcessor)
    requires Wired(p) && p.len == |p.data| == 87
    ensures fresh(pp) && fresh(pp.pb) && fresh(pp.pb.ring) && fresh(pp.mf) && fresh(pp.mf.ring)
    ensures Follows(pp, PipeState(seq(10, _ => p), 10, 0, true))
  {
    hide Frame, Faithful, InStep, Follows, Step;
    pp := new PreProcessor();
    ghost var s := START;
    assert Follows(pp, s) by { Begins(pp); }
    for i := 0 to 10
      invariant Follows(pp, s) && s == PipeState(seq(i, _ => p), 0, 0, i == 10)
    {
      LoadTen(p, i);
      Loaded(pp, p, s);
      s := Step(s, LoadPacket(p));
    }
    for i := 0 to 10
      invariant Follows(pp, s) && s == PipeState(seq(10, _ => p), i, 0, true)
    {
      PrepareTen(p, i);
      Prepared(pp, s);
      s := Step(s, Prepare);
    }
  }

  lemma LoadTen(p: WirePacket, i: nat)
    requires Wired(p) && p.len == |p.data| == 87 && i < 10
    ensures var s := PipeState(seq(i, _ => p), 0, 0, false);
            InStep(s, LoadPacket(p)) && Step(s, LoadPacket(p)) == PipeState(seq(i + 1, _ => p), 0, 0, i == 9)
  {
    hide Frame, Frames;
    FramesOfOne(p, i);
    NoFrames(seq(i, _ => p));
    assert seq(i, _ => p) + [p] == seq(i + 1, _ => p);
  }

  lemma PrepareTen(p: WirePacket, i: nat)
    requires Wired(p) && p.len == |p.data| == 87 && i < 10
    ensures var s := PipeState(seq(10, _ => p), i, 0, true);
            InStep(s, Prepare) && Step(s, Prepare) == s.(prepared := i + 1)
  {
    hide Frame, Frames;
  }

  lemma RingIsFull(pp: PreProcessor, p: WirePacket)
    requires Wired(p) && p.len == |p.data| == 87 && Follows(pp, PipeState(seq(10, _ => p), 10, 0, true))
    ensures pp.Valid() && |pp.fields| == 10 && pp.returned == 0 && pp.loaded[0] == p
    ensures pp.pb.read == pp.pb.gone + PACKET_BUFFER_LEN
  {
    hide Frame, Frames, Faithful, SlotOf;
    AllFrames(pp.loaded);
    FramesOfOne(p, 10);
  }
}
