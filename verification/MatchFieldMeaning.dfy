/**
 What a match field has to be for a packet (pre-composer/pre_processing.h:61-191), in
 numbers of bits only: this module's `Faithful` knows neither the running offsets of
 the code nor its kinds of packets.
 */
module MatchFieldMeaning {
  import opened Bytes
  import opened Fields
  import opened Matching
  import opened MatchFieldLayout
  import opened Packets

  /** As far as `data` has bits from..from+n-1, they stand in the match field from bit `to` on. */
  predicate Carries(field: MatchField, to: nat, n: nat, data: seq<byte>, from: nat)
    requires to + n <= 360
  {
    from + n <= 8 * |data| ==> Extract(field, to, n) == Extract(data, from, n)
  }

  predicate Ones(field: MatchField, to: nat, n: nat)
    requires to + n <= 360
  {
    Extract(field, to, n) == seq(n, _ => true)
  }

  /**
   The match field of a packet. Bits 0..207 are ingress port, metadata, source and
   destination MAC address and EtherType. The rest depends on the EtherType, and its bits are numbered in the frame,
   where the packet's data begins at bit 104.
   */
  ghost predicate Faithful(p: WirePacket, field: MatchField)
    requires Wired(p)
  {
    && Carries(field, 0, 32, p.port, 0)
    && Carries(field, 32, 64, p.metadata, 0)
    && Carries(field, 96, 48, p.data, 48)
    && Carries(field, 144, 48, p.data, 0)
    && Carries(field, 192, 16, p.data, 96)
    && (|p.data| >= 14 ==>
          var etherType := (p.data[12], p.data[13]);
          if etherType == (0x08, 0x00) then PlainIPv4(field, Frame(p))
          else if etherType == (0x81, 0x00) then Tagged(field, Frame(p))
          else if etherType == (0x88, 0x47) then Labelled(field, Frame(p))
          else Unrecognised(field, Frame(p)))
  }

  /** Tags all ones; then both IPv4 addresses, protocol, ToS and both ports. */
  predicate PlainIPv4(field: MatchField, fr: seq<byte>) {
    && Ones(field, 208, 38)
    && Carries(field, 246, 32, fr, 332) && Carries(field, 278, 32, fr, 364)
    && Carries(field, 310, 8, fr, 308) && Carries(field, 318, 6, fr, 246)
    && Carries(field, 324, 16, fr, 396) && Carries(field, 340, 16, fr, 412)
  }

  /** VLAN id and priority; MPLS all ones. */
  predicate Tagged(field: MatchField, fr: seq<byte>) {
    && Carries(field, 208, 12, fr, 236) && Carries(field, 220, 3, fr, 232) && Ones(field, 223, 23)
    && Carries(field, 246, 32, fr, 353) && Carries(field, 278, 32, fr, 385)
    && Carries(field, 310, 8, fr, 329) && Carries(field, 318, 6, fr, 267)
    && Carries(field, 324, 16, fr, 417) && Carries(field, 340, 16, fr, 433)
  }

  /** VLAN all ones; MPLS label and traffic class. */
  predicate Labelled(field: MatchField, fr: seq<byte>) {
    && Ones(field, 208, 15) && Carries(field, 223, 20, fr, 215) && Carries(field, 243, 3, fr, 235)
    && Carries(field, 246, 32, fr, 341) && Carries(field, 278, 32, fr, 373)
    && Carries(field, 310, 8, fr, 317) && Carries(field, 318, 6, fr, 255)
    && Carries(field, 324, 16, fr, 405) && Carries(field, 340, 16, fr, 421)
  }

  /** No tags at all, and so the rest 38 bits too early. */
  predicate Unrecognised(field: MatchField, fr: seq<byte>) {
    && Carries(field, 208, 32, fr, 310) && Carries(field, 240, 32, fr, 342)
    && Carries(field, 272, 8, fr, 286) && Carries(field, 280, 6, fr, 224)
    && Carries(field, 286, 16, fr, 374) && Carries(field, 302, 16, fr, 390)
  }

  // ---- the composed match field ----

  lemma CallsDisjoint(kind: Kind, i: nat, q: nat)
    requires i < |Calls(kind)| && Covers(Calls(kind)[i], q)
    ensures forall j :: 0 <= j < |Calls(kind)| ==> (Covers(Calls(kind)[j], q) <==> j == i)
  {
  }

  /** What one call has written is still there at the end. */
  lemma CallInPlace(init: MatchField, pkt: seq<byte>, kind: Kind, i: nat)
    requires i < |Calls(kind)| && AllFit(Calls(kind), pkt)
    ensures Fits(Calls(kind)[i], pkt)
    ensures var c := Calls(kind)[i];
            Extract(After(init, Calls(kind), pkt), c.to, c.n) == Written(c, pkt)
  {
    hide Bit, Calls, After, Written;
    var c := Calls(kind)[i];
    forall k | 0 <= k < c.n
      ensures Bit(After(init, Calls(kind), pkt), c.to + k) == Written(c, pkt)[k]
    {
      CallsDisjoint(kind, i, c.to + k);
      BitAfter(init, Calls(kind), pkt, i, c.to + k);
    }
  }

  lemma BitOnPrefix(s: seq<byte>, prefix: seq<byte>, q: nat)
    requires prefix <= s && q < 8 * |prefix|
    ensures Bit(s, q) == Bit(prefix, q)
  {
  }

  lemma ExtractOnPrefix(s: seq<byte>, prefix: seq<byte>, p: nat, n: nat)
    requires prefix <= s && p + n <= 8 * |prefix|
    ensures Extract(s, p, n) == Extract(prefix, p, n)
  {
    hide Bit;
    var a, b := Extract(s, p, n), Extract(prefix, p, n);
    forall k | 0 <= k < n
      ensures a[k] == b[k]
    {
      BitOnPrefix(s, prefix, p + k);
    }
  }

  /** A copy carries `n` bits of the frame, from bit `d` of what it copies. */
  lemma CopyCarries(init: MatchField, pkt: seq<byte>, fr: seq<byte>, kind: Kind, i: nat, d: nat, n: nat)
    requires i < |Calls(kind)| && AllFit(Calls(kind), pkt) && fr <= pkt
    requires Calls(kind)[i].source.FromPacket? && d + n <= Calls(kind)[i].n
    ensures var c := Calls(kind)[i];
            c.to + d + n <= 360 && Carries(After(init, Calls(kind), pkt), c.to + d, n, fr, c.source.start + d)
  {
    hide Bit, Calls, After;
    CallInPlace(init, pkt, kind, i);
    var c := Calls(kind)[i];
    var field := After(init, Calls(kind), pkt);
    if c.source.start + d + n <= 8 * |fr| {
      ExtractOnPrefix(pkt, fr, c.source.start + d, n);
      var a, b := Extract(field, c.to + d, n), Extract(pkt, c.source.start + d, n);
      forall k | 0 <= k < n
        ensures a[k] == b[k]
      {
        assert Extract(field, c.to, c.n)[d + k] == Extract(pkt, c.source.start, c.n)[d + k];
      }
    }
  }

  lemma FillIsOnes(init: MatchField, pkt: seq<byte>, kind: Kind, i: nat)
    requires i < |Calls(kind)| && AllFit(Calls(kind), pkt) && Calls(kind)[i].source.Fill?
    ensures Calls(kind)[i].to + Calls(kind)[i].n <= 360
    ensures Ones(After(init, Calls(kind), pkt), Calls(kind)[i].to, Calls(kind)[i].n)
  {
    hide Calls, After, Extract;
    CallInPlace(init, pkt, kind, i);
  }

  /** The bits of a part of the frame. */
  lemma PartCarries(field: MatchField, to: nat, n: nat, fr: seq<byte>, a: nat, part: seq<byte>, from: nat)
    requires a + |part| <= |fr| && fr[a..a + |part|] == part && to + n <= 360
    ensures Carries(field, to, n, fr, 8 * a + from) ==> Carries(field, to, n, part, from)
    ensures from + n <= 8 * |part| && Carries(field, to, n, part, from) ==> Carries(field, to, n, fr, 8 * a + from)
  {
    hide BitOf;
    if from + n <= 8 * |part| {
      var x, y := Extract(fr, 8 * a + from, n), Extract(part, from, n);
      forall k | 0 <= k < n
        ensures x[k] == y[k]
      {
        BitOfPart(fr, a, part, from + k);
      }
    }
  }

  lemma BitOfPart(fr: seq<byte>, a: nat, part: seq<byte>, q: nat)
    requires a + |part| <= |fr| && fr[a..a + |part|] == part && q < 8 * |part|
    ensures Bit(fr, 8 * a + q) == Bit(part, q)
  {
    hide BitOf;
    assert (8 * a + q) / 8 == a + q / 8 && (8 * a + q) % 8 == q % 8;
    assert part[q / 8] == fr[a + q / 8];
  }

  lemma CommonCalls(kind: Kind)
    ensures |Calls(kind)| > 4
    ensures Calls(kind)[0] == Call(0, 96, FromPacket(8)) && Calls(kind)[1] == Call(144, 48, FromPacket(104))
    ensures Calls(kind)[2] == Call(96, 48, FromPacket(152)) && Calls(kind)[3] == Call(192, 16, FromPacket(200))
  {
  }

  /** Bits 0..207, whatever the EtherType. */
  lemma CommonComposed(p: WirePacket, pkt: seq<byte>, kind: Kind, init: MatchField)
    requires Wired(p) && Frame(p) <= pkt && AllFit(Calls(kind), pkt)
    ensures var field := After(init, Calls(kind), pkt);
            && Carries(field, 0, 32, p.port, 0) && Carries(field, 32, 64, p.metadata, 0)
            && Carries(field, 96, 48, p.data, 48) && Carries(field, 144, 48, p.data, 0)
            && Carries(field, 192, 16, p.data, 96)
  {
    hide Frame, After, Calls, AllFit, Carries;
    var fr, field := Frame(p), After(init, Calls(kind), pkt);
    CommonCalls(kind);
    CopyCarries(init, pkt, fr, kind, 0, 0, 32);
    CopyCarries(init, pkt, fr, kind, 0, 32, 64);
    CopyCarries(init, pkt, fr, kind, 1, 0, 48);
    CopyCarries(init, pkt, fr, kind, 2, 0, 48);
    CopyCarries(init, pkt, fr, kind, 3, 0, 16);
    FrameIsParts(p);
    assert fr[13..13 + |p.data|] == p.data;
    PartCarries(field, 0, 32, fr, 1, p.port, 0);
    PartCarries(field, 32, 64, fr, 5, p.metadata, 0);
    PartCarries(field, 144, 48, fr, 13, p.data, 0);
    PartCarries(field, 96, 48, fr, 13, p.data, 48);
    PartCarries(field, 192, 16, fr, 13, p.data, 96);
  }

  lemma PlainComposed(pkt: seq<byte>, fr: seq<byte>, init: MatchField)
    requires fr <= pkt && AllFit(Calls(IPv4), pkt)
    ensures PlainIPv4(After(init, Calls(IPv4), pkt), fr)
  {
    hide After, AllFit, Carries, Ones;
    FillIsOnes(init, pkt, IPv4, 4);
    CopyCarries(init, pkt, fr, IPv4, 5, 0, 6);
    CopyCarries(init, pkt, fr, IPv4, 6, 0, 8);
    CopyCarries(init, pkt, fr, IPv4, 7, 0, 32);
    CopyCarries(init, pkt, fr, IPv4, 8, 0, 32);
    CopyCarries(init, pkt, fr, IPv4, 9, 0, 16);
    CopyCarries(init, pkt, fr, IPv4, 10, 0, 16);
  }

  lemma TaggedComposed(pkt: seq<byte>, fr: seq<byte>, init: MatchField)
    requires fr <= pkt && AllFit(Calls(Vlan), pkt)
    ensures Tagged(After(init, Calls(Vlan), pkt), fr)
  {
    hide After, AllFit, Carries, Ones;
    CopyCarries(init, pkt, fr, Vlan, 4, 0, 3);
    CopyCarries(init, pkt, fr, Vlan, 5, 0, 12);
    FillIsOnes(init, pkt, Vlan, 6);
    CopyCarries(init, pkt, fr, Vlan, 7, 0, 6);
    CopyCarries(init, pkt, fr, Vlan, 8, 0, 8);
    CopyCarries(init, pkt, fr, Vlan, 9, 0, 32);
    CopyCarries(init, pkt, fr, Vlan, 10, 0, 32);
    CopyCarries(init, pkt, fr, Vlan, 11, 0, 16);
    CopyCarries(init, pkt, fr, Vlan, 12, 0, 16);
  }

  lemma LabelledComposed(pkt: seq<byte>, fr: seq<byte>, init: MatchField)
    requires fr <= pkt && AllFit(Calls(Mpls), pkt)
    ensures Labelled(After(init, Calls(Mpls), pkt), fr)
  {
    hide After, AllFit, Carries, Ones;
    FillIsOnes(init, pkt, Mpls, 4);
    CopyCarries(init, pkt, fr, Mpls, 5, 0, 20);
    CopyCarries(init, pkt, fr, Mpls, 5, 20, 3);
    CopyCarries(init, pkt, fr, Mpls, 6, 0, 6);
    CopyCarries(init, pkt, fr, Mpls, 7, 0, 8);
    CopyCarries(init, pkt, fr, Mpls, 8, 0, 32);
    CopyCarries(init, pkt, fr, Mpls, 9, 0, 32);
    CopyCarries(init, pkt, fr, Mpls, 10, 0, 16);
    CopyCarries(init, pkt, fr, Mpls, 11, 0, 16);
  }

  lemma UnrecognisedComposed(pkt: seq<byte>, fr: seq<byte>, init: MatchField)
    requires fr <= pkt && AllFit(Calls(Other), pkt)
    ensures Unrecognised(After(init, Calls(Other), pkt), fr)
  {
    hide After, AllFit, Carries;
    CopyCarries(init, pkt, fr, Other, 4, 0, 6);
    CopyCarries(init, pkt, fr, Other, 5, 0, 8);
    CopyCarries(init, pkt, fr, Other, 6, 0, 32);
    CopyCarries(init, pkt, fr, Other, 7, 0, 32);
    CopyCarries(init, pkt, fr, Other, 8, 0, 16);
    CopyCarries(init, pkt, fr, Other, 9, 0, 16);
  }

  /** The match field that the code composes is the one it has to be, for every packet. */
  lemma ComposedIsFaithful(p: WirePacket, pkt: seq<byte>, init: MatchField)
    requires Wired(p) && Frame(p) <= pkt && |pkt| > 26
    requires AllFit(Calls(KindOf(pkt)), pkt)
    ensures Faithful(p, After(init, Calls(KindOf(pkt)), pkt))
  {
    hide Frame, After, Calls, AllFit, Carries, PlainIPv4, Tagged, Labelled, Unrecognised;
    CommonComposed(p, pkt, KindOf(pkt), init);
    if |p.data| >= 14 {
      FrameIsParts(p);
      assert pkt[25] == Frame(p)[13..][12] && pkt[26] == Frame(p)[13..][13];
      match KindOf(pkt)
      case IPv4 => PlainComposed(pkt, Frame(p), init);
      case Vlan => TaggedComposed(pkt, Frame(p), init);
      case Mpls => LabelledComposed(pkt, Frame(p), init);
      case Other => UnrecognisedComposed(pkt, Frame(p), init);
    }
  }

  // ---- in the order of the header fields ----

  ghost predicate FieldEndsInside(f: nat)
    requires f < NO_OF_HEADERS
    ensures FieldStart(f) + HeaderLength(f) <= FIELD_BITS
  {
    FieldEnd(f);
    true
  }

  lemma OnesWithin(field: MatchField, to: nat, n: nat, d: nat, m: nat)
    requires to + n <= 360 && Ones(field, to, n) && d + m <= n
    ensures Ones(field, to + d, m)
  {
    hide Bit;
    var x := Extract(field, to + d, m);
    forall k | 0 <= k < m
      ensures x[k]
    {
      assert Extract(field, to, n)[d + k];
    }
  }

  /** The match field has header field `f` in place, from where `FieldSource` says. */
  predicate InPlace(field: MatchField, fr: seq<byte>, kind: Kind, f: nat)
    requires kind != Other && f < NO_OF_HEADERS
  {
    FieldStart(f) + HeaderLength(f) <= 360 &&
    match FieldSource(kind, f)
    case FromPacket(start) => Carries(field, FieldStart(f), HeaderLength(f), fr, start)
    case Fill => Ones(field, FieldStart(f), HeaderLength(f))
  }

  lemma NetworkInPlace(field: MatchField, fr: seq<byte>, kind: Kind, f: nat)
    requires kind == IPv4 ==> PlainIPv4(field, fr)
    requires kind == Vlan ==> Tagged(field, fr)
    requires kind == Mpls ==> Labelled(field, fr)
    requires kind != Other && 9 <= f < NO_OF_HEADERS
    ensures InPlace(field, fr, kind, f)
  {
    hide FieldStart, Carries, Ones;
    FieldStarts();
    assert f == 9 || f == 10 || f == 11 || f == 12 || f == 13 || f == 14;
    match kind case IPv4 => case Vlan => case Mpls =>
  }

  lemma TagsInPlace(field: MatchField, fr: seq<byte>, kind: Kind, f: nat)
    requires kind == IPv4 ==> PlainIPv4(field, fr)
    requires kind == Vlan ==> Tagged(field, fr)
    requires kind == Mpls ==> Labelled(field, fr)
    requires kind != Other && 5 <= f < 9
    ensures InPlace(field, fr, kind, f)
  {
    hide FieldStart, Carries, Ones;
    FieldStarts();
    assert f == 5 || f == 6 || f == 7 || f == 8;
    match kind
    case IPv4 => OnesWithin(field, 208, 38, FieldStart(f) - 208, HeaderLength(f));
    case Vlan => if f >= 7 { OnesWithin(field, 223, 23, FieldStart(f) - 223, HeaderLength(f)); }
    case Mpls => if f < 7 { OnesWithin(field, 208, 15, FieldStart(f) - 208, HeaderLength(f)); }
  }

  lemma CommonInPlace(p: WirePacket, field: MatchField, kind: Kind, f: nat)
    requires Wired(p) && Faithful(p, field) && |p.data| >= 14 && kind != Other && f < 5
    ensures InPlace(field, Frame(p), kind, f)
  {
    hide Frame, Carries, PlainIPv4, Tagged, Labelled, Unrecognised, FieldStart;
    var fr := Frame(p);
    FrameIsParts(p);
    FieldStarts();
    assert fr[13..13 + |p.data|] == p.data;
    PartCarries(field, 0, 32, fr, 1, p.port, 0);
    PartCarries(field, 32, 64, fr, 5, p.metadata, 0);
    PartCarries(field, 144, 48, fr, 13, p.data, 0);
    PartCarries(field, 96, 48, fr, 13, p.data, 48);
    PartCarries(field, 192, 16, fr, 13, p.data, 96);
    assert f == 0 || f == 1 || f == 2 || f == 3 || f == 4;
  }

  /** A recognised packet that is long enough has its header fields in place, in the order of `pkt_headers`. */
  lemma FaithfulInOrder(p: WirePacket, field: MatchField, f: nat)
    requires Wired(p) && Faithful(p, field) && |Frame(p)| > 26 && KindOf(Frame(p)) != Other
    requires BitsRead(KindOf(Frame(p))) <= 8 * |Frame(p)| && f < NO_OF_HEADERS
    ensures FieldEndsInside(f) && Extract(field, FieldStart(f), HeaderLength(f)) == FieldValue(Frame(p), f)
  {
    hide Frame, Carries, PlainIPv4, Tagged, Labelled, Unrecognised, FieldStart, HeaderLength, FieldSource, BitsRead;
    var fr := Frame(p);
    FrameIsParts(p);
    assert |p.data| >= 14;
    assert fr[25] == fr[13..][12] && fr[26] == fr[13..][13];
    if f < 5 {
      CommonInPlace(p, field, KindOf(fr), f);
    } else if f < 9 {
      TagsInPlace(field, fr, KindOf(fr), f);
    } else {
      NetworkInPlace(field, fr, KindOf(fr), f);
    }
    ValueInPlace(field, fr, f);
  }

  lemma ValueInPlace(field: MatchField, fr: seq<byte>, f: nat)
    requires |fr| > 26 && KindOf(fr) != Other && BitsRead(KindOf(fr)) <= 8 * |fr| && f < NO_OF_HEADERS
    requires InPlace(field, fr, KindOf(fr), f)
    ensures FieldEndsInside(f) && Extract(field, FieldStart(f), HeaderLength(f)) == FieldValue(fr, f)
  {
    hide FieldStart, HeaderLength, FieldSource, BitsRead, KindOf, Extract;
    SourcesInside(KindOf(fr), f);
  }
}
