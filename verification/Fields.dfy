/**
 Unaligned bit fields of byte tables (flow-processing-unit/modify_field.h).
 */
module Fields {
  import opened Bytes

  const ACTN_ST_LEN: nat := 31

  /** The `n` bits of `s` that start at bit `p`. */
  function Extract(s: seq<byte>, p: nat, n: nat): (v: seq<bool>)
    requires p + n <= 8 * |s|
    ensures |v| == n
  {
    seq(n, i requires 0 <= i < n => Bit(s, p + i))
  }

  /** `s` with the bits `v` written from bit `p` on. */
  function Replace(s: seq<byte>, p: nat, v: seq<bool>): (r: seq<byte>)
    requires p + |v| <= 8 * |s|
    ensures |r| == |s|
    decreases |v|
  {
    if |v| == 0 then s
    else
      var n := |v| - 1;
      PutBit(Replace(s, p, v[..n]), p + n, v[n])
  }

  /** What `Replace` does to every bit: the frame and the written range at once. */
  lemma {:induction false} ReplaceAt(s: seq<byte>, p: nat, v: seq<bool>, q: nat)
    requires p + |v| <= 8 * |s| && q < 8 * |s|
    ensures Bit(Replace(s, p, v), q) == if p <= q < p + |v| then v[q - p] else Bit(s, q)
    decreases |v|
  {
    hide Bit, PutBit;
    if |v| > 0 {
      var n := |v| - 1;
      ReplaceAt(s, p, v[..n], q);
      PutBitAt(Replace(s, p, v[..n]), p + n, v[n], q);
    }
  }

  /** Put-get: a field reads back as it was written. */
  lemma PutGet(s: seq<byte>, p: nat, v: seq<bool>)
    requires p + |v| <= 8 * |s|
    ensures Extract(Replace(s, p, v), p, |v|) == v
  {
    hide Bit, PutBit, Replace;
    forall i | 0 <= i < |v|
      ensures Bit(Replace(s, p, v), p + i) == v[i]
    {
      ReplaceAt(s, p, v, p + i);
    }
  }

  /** Get-put: writing back what was read changes nothing. */
  lemma GetPut(s: seq<byte>, p: nat, n: nat)
    requires p + n <= 8 * |s|
    ensures Replace(s, p, Extract(s, p, n)) == s
  {
    hide Bit, PutBit, Replace;
    forall q | 0 <= q < 8 * |s|
      ensures Bit(Replace(s, p, Extract(s, p, n)), q) == Bit(s, q)
    {
      ReplaceAt(s, p, Extract(s, p, n), q);
    }
    BitsExtensionality(Replace(s, p, Extract(s, p, n)), s);
  }

  /** Put-put: the second write of a field hides the first. */
  lemma PutPut(s: seq<byte>, p: nat, v: seq<bool>, w: seq<bool>)
    requires |v| == |w| && p + |v| <= 8 * |s|
    ensures Replace(Replace(s, p, v), p, w) == Replace(s, p, w)
  {
    hide Bit, PutBit, Replace;
    forall q | 0 <= q < 8 * |s|
      ensures Bit(Replace(Replace(s, p, v), p, w), q) == Bit(Replace(s, p, w), q)
    {
      ReplaceAt(Replace(s, p, v), p, w, q);
      ReplaceAt(s, p, v, q);
      ReplaceAt(s, p, w, q);
    }
    BitsExtensionality(Replace(Replace(s, p, v), p, w), Replace(s, p, w));
  }

  /** A field of a longer field. */
  lemma ExtractWithin(s: seq<byte>, n: nat, p: nat, w: nat)
    requires n <= 8 * |s| && p + w <= n
    ensures Extract(s, p, w) == Extract(s, 0, n)[p..p + w]
  {
    hide Bit;
  }

  predicate DisjointRanges(p: nat, n: nat, q: nat, m: nat) {
    p + n <= q || q + m <= p
  }

  /** Writes of disjoint fields commute. */
  lemma DisjointWritesCommute(s: seq<byte>, p: nat, v: seq<bool>, q: nat, w: seq<bool>)
    requires p + |v| <= 8 * |s| && q + |w| <= 8 * |s|
    requires DisjointRanges(p, |v|, q, |w|)
    ensures Replace(Replace(s, p, v), q, w) == Replace(Replace(s, q, w), p, v)
  {
    hide Bit, PutBit, Replace;
    var pq, qp := Replace(Replace(s, p, v), q, w), Replace(Replace(s, q, w), p, v);
    forall b | 0 <= b < 8 * |s|
      ensures Bit(pq, b) == Bit(qp, b)
    {
      ReplaceAt(Replace(s, p, v), q, w, b);
      ReplaceAt(Replace(s, q, w), p, v, b);
      ReplaceAt(s, p, v, b);
      ReplaceAt(s, q, w, b);
    }
    BitsExtensionality(pq, qp);
  }

  /** A field reads the same before and after a write of a disjoint one. */
  lemma DisjointWriteUnseen(s: seq<byte>, p: nat, v: seq<bool>, q: nat, n: nat)
    requires p + |v| <= 8 * |s| && q + n <= 8 * |s|
    requires DisjointRanges(p, |v|, q, n)
    ensures Extract(Replace(s, p, v), q, n) == Extract(s, q, n)
  {
    hide Bit, PutBit, Replace;
    forall i | 0 <= i < n
      ensures Extract(Replace(s, p, v), q, n)[i] == Extract(s, q, n)[i]
    {
      ReplaceAt(s, p, v, q + i);
    }
  }

  /** The `n` bits from bit `i` on lie inside entry `e` of an action table. */
  predicate InsideEntry(e: nat, i: nat, n: nat) {
    e * ACTN_ST_LEN * 8 <= i && i + n <= (e + 1) * ACTN_ST_LEN * 8
  }

  /** Writes to different entries commute, and neither is visible in the other, wherever in the entries they are. */
  lemma DifferentEntriesCommute(s: seq<byte>, e: nat, i: nat, v: seq<bool>, f: nat, j: nat, w: seq<bool>)
    requires e != f && InsideEntry(e, i, |v|) && InsideEntry(f, j, |w|)
    requires i + |v| <= 8 * |s| && j + |w| <= 8 * |s|
    ensures Replace(Replace(s, i, v), j, w) == Replace(Replace(s, j, w), i, v)
    ensures Extract(Replace(s, i, v), j, |w|) == Extract(s, j, |w|)
  {
    hide Replace, Extract, Bit, PutBit;
    assert DisjointRanges(i, |v|, j, |w|) by { EntriesAreDisjoint(e, i, |v|, f, j, |w|); }
    DisjointWritesCommute(s, i, v, j, w);
    DisjointWriteUnseen(s, i, v, j, |w|);
  }

  lemma EntriesAreDisjoint(e: nat, i: nat, n: nat, f: nat, j: nat, m: nat)
    requires e != f && InsideEntry(e, i, n) && InsideEntry(f, j, m)
    ensures DisjointRanges(i, n, j, m)
  {
  }

  /** The byte with the eight given bits. */
  function ByteOf(v: seq<bool>): byte
    requires |v| == 8
  {
    Replace([0], 0, v)[0]
  }

  lemma ByteOfBits(v: seq<bool>, j: nat)
    requires |v| == 8 && j < 8
    ensures BitOf(ByteOf(v), j) == v[j]
  {
    hide PutBit, BitOf, Replace;
    ReplaceAt([0], 0, v, j);
  }

  lemma BitInByte(s: seq<byte>, i: nat, j: nat)
    requires i < |s| && j < 8
    ensures Bit(s, 8 * i + j) == BitOf(s[i], j)
  {
    assert (8 * i + j) / 8 == i && (8 * i + j) % 8 == j;
  }

  /** Eight bits extracted into a buffer determine its first byte, whatever it held. */
  lemma FirstByte(s: seq<byte>, v: seq<bool>)
    requires |s| > 0 && |v| == 8
    ensures Replace(s, 0, v)[0] == ByteOf(v)
  {
    ReplaceByte(s, 0, v);
  }

  /** An aligned field of eight bits is a byte. */
  lemma ByteField(s: seq<byte>, i: nat, v: seq<bool>)
    requires i < |s| && |v| == 8
    requires s[i] == ByteOf(v)
    ensures Extract(s, 8 * i, 8) == v
  {
    hide PutBit, BitOf, ByteOf;
    forall j | 0 <= j < 8
      ensures Extract(s, 8 * i, 8)[j] == v[j]
    {
      ByteOfBits(v, j);
      BitInByte(s, i, j);
    }
  }

  lemma ReplaceByte(s: seq<byte>, i: nat, v: seq<bool>)
    requires i < |s| && |v| == 8
    ensures Replace(s, 8 * i, v) == s[i := ByteOf(v)]
  {
    var r := s[i := ByteOf(v)];
    forall q | 0 <= q < 8 * |s|
      ensures Bit(Replace(s, 8 * i, v), q) == Bit(r, q)
    {
      hide PutBit, BitOf, Replace, ByteOf;
      ReplaceAt(s, 8 * i, v, q);
      if q / 8 == i {
        ByteOfBits(v, q % 8);
      }
    }
    BitsExtensionality(Replace(s, 8 * i, v), r);
  }

  /** Reads bits strtBit..endBit of an entry into the first bits of `val`. */
  method ExtractField(table: array<byte>, entryNo: nat, strtBit: nat, endBit: int, val: array<byte>)
    requires val != table
    requires strtBit <= endBit + 1
    requires entryNo * ACTN_ST_LEN * 8 + endBit < 8 * table.Length
    requires endBit - strtBit < 8 * val.Length
    modifies val
    ensures val[..] == Replace(old(val[..]), 0,
                               Extract(table[..], entryNo * ACTN_ST_LEN * 8 + strtBit, endBit + 1 - strtBit))
  {
    hide Bit, PutBit;
    ghost var base := entryNo * ACTN_ST_LEN * 8 + strtBit;
    ghost var field := Extract(table[..], base, endBit + 1 - strtBit);
    var i := strtBit;
    while i <= endBit
      invariant strtBit <= i <= endBit + 1
      invariant val[..] == Replace(old(val[..]), 0, field[..i - strtBit])
    {
      ghost var done := field[..i + 1 - strtBit];
      assert done[..i - strtBit] == field[..i - strtBit] && done[i - strtBit] == Bit(table[..], base + (i - strtBit));
      if ReadBit(table, entryNo * ACTN_ST_LEN * 8 + i) {
        SetBit(val, i - strtBit);
      } else {
        ResetBit(val, i - strtBit);
      }
      i := i + 1;
    }
    assert field[..endBit + 1 - strtBit] == field;
  }

  /** Overwrites bits strtBit..endBit of an entry with the first bits of `val`. */
  method ReplaceField(table: array<byte>, entryNo: nat, strtBit: nat, endBit: int, val: array<byte>)
    requires val != table
    requires strtBit <= endBit + 1
    requires entryNo * ACTN_ST_LEN * 8 + endBit < 8 * table.Length
    requires endBit - strtBit < 8 * val.Length
    modifies table
    ensures table[..] == Replace(old(table[..]), entryNo * ACTN_ST_LEN * 8 + strtBit,
                                 Extract(val[..], 0, endBit + 1 - strtBit))
  {
    hide Bit, PutBit;
    ghost var base := entryNo * ACTN_ST_LEN * 8 + strtBit;
    ghost var field := Extract(val[..], 0, endBit + 1 - strtBit);
    var i := strtBit;
    while i <= endBit
      invariant strtBit <= i <= endBit + 1
      invariant table[..] == Replace(old(table[..]), base, field[..i - strtBit])
    {
      ghost var done := field[..i + 1 - strtBit];
      assert done[..i - strtBit] == field[..i - strtBit] && done[i - strtBit] == Bit(val[..], i - strtBit);
      if ReadBit(val, i - strtBit) {
        SetBit(table, entryNo * ACTN_ST_LEN * 8 + i);
      } else {
        ResetBit(table, entryNo * ACTN_ST_LEN * 8 + i);
      }
      i := i + 1;
    }
    assert field[..endBit + 1 - strtBit] == field;
  }
}
