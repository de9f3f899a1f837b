/** A flat byte array read as NO_F_FLWS rows of equal width. */
module RowTables {
  import opened Bytes
  import opened Fields
  import opened Matching

  lemma {:induction false} MulMonotone(a: nat, b: nat, w: nat)
    requires a <= b
    ensures a * w <= b * w
    decreases b
  {
    if a < b {
      MulMonotone(a, b - 1, w);
      assert b * w == (b - 1) * w + w;
    }
  }

  lemma RowInside(w: nat, i: nat)
    requires i < NO_F_FLWS
    ensures 0 <= i * w && i * w + w <= NO_F_FLWS * w
  {
    MulMonotone(i + 1, NO_F_FLWS, w);
    MulMonotone(0, i, w);
    assert (i + 1) * w == i * w + w;
  }

  lemma RowsApart(w: nat, i: nat, j: nat)
    requires i < j
    ensures i * w + w <= j * w
  {
    MulMonotone(i + 1, j, w);
    assert (i + 1) * w == i * w + w;
  }

  function RowAt(s: seq<byte>, w: nat, i: nat): (r: seq<byte>)
    requires |s| == NO_F_FLWS * w && i < NO_F_FLWS
    ensures |r| == w
  {
    RowInside(w, i);
    s[i * w..i * w + w]
  }

  function RowsOf(s: seq<byte>, w: nat): (r: seq<seq<byte>>)
    requires |s| == NO_F_FLWS * w
    ensures |r| == NO_F_FLWS
    ensures forall i :: 0 <= i < NO_F_FLWS ==> |r[i]| == w
  {
    seq(NO_F_FLWS, i requires 0 <= i < NO_F_FLWS => RowAt(s, w, i))
  }

  lemma SliceAfterSplice(s: seq<byte>, o: nat, row: seq<byte>, a: nat)
    requires o + |row| <= |s| && a + |row| <= |s|
    ensures var s' := s[..o] + row + s[o + |row|..];
            && (a == o ==> s'[a..a + |row|] == row)
            && (a + |row| <= o || o + |row| <= a ==> s'[a..a + |row|] == s[a..a + |row|])
  {
  }

  /** Rewriting one row leaves the other rows alone. */
  lemma RowWritten(s: seq<byte>, s': seq<byte>, w: nat, i: nat, row: seq<byte>)
    requires |s| == |s'| == NO_F_FLWS * w && i < NO_F_FLWS && |row| == w
    requires 0 <= i * w && i * w + w <= |s| && s' == s[..i * w] + row + s[i * w + w..]
    ensures RowsOf(s', w) == RowsOf(s, w)[i := row]
  {
    forall j | 0 <= j < NO_F_FLWS
      ensures RowsOf(s', w)[j] == if j == i then row else RowsOf(s, w)[j]
    {
      RowInside(w, j);
      if j < i { RowsApart(w, j, i); } else if i < j { RowsApart(w, i, j); }
      var o, a := i * w, j * w;
      SliceAfterSplice(s, o, row, a);
    }
  }

  lemma ByteOfRow(s: seq<byte>, w: nat, i: nat, b: nat)
    requires |s| == NO_F_FLWS * w && i < NO_F_FLWS && b < w
    ensures 0 <= i * w && i * w + b < |s| && s[i * w + b] == RowsOf(s, w)[i][b]
  {
    RowInside(w, i);
  }

  /** Writing one byte of a row. */
  lemma ByteWritten(s: seq<byte>, w: nat, i: nat, b: nat, x: byte)
    requires |s| == NO_F_FLWS * w && i < NO_F_FLWS && b < w
    ensures 0 <= i * w && i * w + b < |s|
    ensures RowsOf(s[i * w + b := x], w) == RowsOf(s, w)[i := RowsOf(s, w)[i][b := x]]
  {
    RowInside(w, i);
    var row := RowsOf(s, w)[i][b := x];
    assert s[i * w + b := x] == s[..i * w] + row + s[i * w + w..];
    RowWritten(s, s[i * w + b := x], w, i, row);
  }

  /** Writing one bit of a row. */
  lemma BitWritten(s: seq<byte>, w: nat, i: nat, k: nat, v: bool)
    requires |s| == NO_F_FLWS * w && i < NO_F_FLWS && k < 8 * w
    ensures 0 <= i * w && i * w * 8 + k < 8 * |s|
    ensures RowsOf(PutBit(s, i * w * 8 + k, v), w) == RowsOf(s, w)[i := PutBit(RowsOf(s, w)[i], k, v)]
    ensures Bit(s, i * w * 8 + k) == Bit(RowsOf(s, w)[i], k)
  {
    hide WithBit, BitOf;
    RowInside(w, i);
    ByteOfRow(s, w, i, k / 8);
    assert (i * w * 8 + k) / 8 == i * w + k / 8 && (i * w * 8 + k) % 8 == k % 8;
    ByteWritten(s, w, i, k / 8, WithBit(s[i * w + k / 8], k % 8, v));
  }

  /** Writing an unaligned field of a row. */
  lemma {:induction false} FieldWritten(s: seq<byte>, w: nat, i: nat, p: nat, v: seq<bool>)
    requires |s| == NO_F_FLWS * w && i < NO_F_FLWS && p + |v| <= 8 * w
    ensures 0 <= i * w && i * w * 8 + p + |v| <= 8 * |s|
    ensures RowsOf(Replace(s, i * w * 8 + p, v), w) == RowsOf(s, w)[i := Replace(RowsOf(s, w)[i], p, v)]
    decreases |v|
  {
    hide PutBit, Bit, RowsOf;
    RowInside(w, i);
    if |v| > 0 {
      var n := |v| - 1;
      FieldWritten(s, w, i, p, v[..n]);
      BitWritten(Replace(s, i * w * 8 + p, v[..n]), w, i, p + n, v[n]);
    } else {
      assert RowsOf(s, w)[i := RowsOf(s, w)[i]] == RowsOf(s, w);
    }
  }

  /** A byte-by-byte copy loop; every table row is moved by one of these. */
  method CopyBytes(src: array<byte>, from: nat, dst: array<byte>, to: nat, n: nat)
    requires src != dst
    requires from + n <= src.Length && to + n <= dst.Length
    modifies dst
    ensures dst[..] == old(dst[..to]) + src[from..from + n] + old(dst[to + n..])
  {
    for i := 0 to n
      invariant forall j :: 0 <= j < dst.Length ==>
                  dst[j] == if to <= j < to + i then src[from + (j - to)] else old(dst[j])
    {
      dst[to + i] := src[from + i];
    }
  }

  /** Copies row `i` of a table into a caller's buffer. */
  method CopyRow(table: array<byte>, w: nat, i: nat, dst: array<byte>)
    requires table.Length == NO_F_FLWS * w && i < NO_F_FLWS
    requires dst != table && dst.Length == w
    modifies dst
    ensures dst[..] == RowsOf(table[..], w)[i]
  {
    RowInside(w, i);
    CopyBytes(table, i * w, dst, 0, w);
  }
}
