/**
 Bytes and the bits inside them (flow-processing-unit/bit_operations.h).

 A `uint8_t` is a `bv8`, so that the counter's wrap-around at 256 and the
 unsigned comparison of priorities are those of the C type. Bit 0 of a byte
 is its most significant bit.
 */
module Bytes {

  type byte = bv8

  /** The one-bit flag that every bit operation builds: 1 shifted left by 7 - k. */
  function Flag(k: nat): byte
    requires k < 8
  {
    (1 as bv8) << (7 - k)
  }

  predicate BitOf(b: byte, k: nat)
    requires k < 8
  {
    Flag(k) & b != 0
  }

  function WithBit(b: byte, k: nat, v: bool): byte
    requires k < 8
  {
    if v then b | Flag(k) else b & !Flag(k)
  }

  /** Bit `pos` of a byte string, counted from the first bit of its first byte. */
  predicate Bit(s: seq<byte>, pos: nat)
    requires pos < 8 * |s|
  {
    BitOf(s[pos / 8], pos % 8)
  }

  function PutBit(s: seq<byte>, pos: nat, v: bool): (r: seq<byte>)
    requires pos < 8 * |s|
    ensures |r| == |s|
  {
    s[pos / 8 := WithBit(s[pos / 8], pos % 8, v)]
  }

  /** Where the eight bits of a byte are: the first is worth 128, the last 1. */
  lemma BitsOfByte(s: seq<byte>, i: nat)
    requires i < |s|
    ensures Bit(s, 8 * i) <==> s[i] & 0x80 != 0
    ensures Bit(s, 8 * i + 1) <==> s[i] & 0x40 != 0
    ensures Bit(s, 8 * i + 2) <==> s[i] & 0x20 != 0
    ensures Bit(s, 8 * i + 3) <==> s[i] & 0x10 != 0
    ensures Bit(s, 8 * i + 4) <==> s[i] & 0x08 != 0
    ensures Bit(s, 8 * i + 5) <==> s[i] & 0x04 != 0
    ensures Bit(s, 8 * i + 6) <==> s[i] & 0x02 != 0
    ensures Bit(s, 8 * i + 7) <==> s[i] & 0x01 != 0
  {
    FlagValues();
    hide Flag;
  }

  lemma FlagValues()
    ensures Flag(0) == 128 && Flag(1) == 64 && Flag(2) == 32 && Flag(3) == 16
    ensures Flag(4) == 8 && Flag(5) == 4 && Flag(6) == 2 && Flag(7) == 1
  {
  }

  /** Writing one bit of a byte sets that bit and leaves the other seven. */
  lemma WithBitAt(b: byte, k: nat, v: bool, j: nat)
    requires k < 8 && j < 8
    ensures BitOf(WithBit(b, k, v), j) == if j == k then v else BitOf(b, j)
  {
    FlagMeets(k, j);
    hide Flag;
    var f, g := Flag(k), Flag(j);
    if j == k {
      assert g & (b | g) == g && g & (b & !g) == 0;
    } else {
      assert g & (b | f) == (g & b) | (g & f) && g & (b & !f) == (g & !f) & b;
      assert f & g == 0 ==> g & !f == g;
    }
  }

  lemma FlagMeets(k: nat, j: nat)
    requires k < 8 && j < 8
    ensures Flag(k) != 0 && (Flag(k) & Flag(j) == 0 <==> k != j)
  {
    FlagValues();
  }

  lemma ByteExtensionality(a: byte, b: byte)
    requires forall j :: 0 <= j < 8 ==> BitOf(a, j) == BitOf(b, j)
    ensures a == b
  {
    FlagValues();
    assert BitOf(a, 0) == BitOf(b, 0) && BitOf(a, 1) == BitOf(b, 1);
    assert BitOf(a, 2) == BitOf(b, 2) && BitOf(a, 3) == BitOf(b, 3);
    assert BitOf(a, 4) == BitOf(b, 4) && BitOf(a, 5) == BitOf(b, 5);
    assert BitOf(a, 6) == BitOf(b, 6) && BitOf(a, 7) == BitOf(b, 7);
  }

  /** `set_bit` and `reset_bit` change the addressed bit of the array and no other. */
  lemma PutBitAt(s: seq<byte>, pos: nat, v: bool, q: nat)
    requires pos < 8 * |s| && q < 8 * |s|
    ensures Bit(PutBit(s, pos, v), q) == if q == pos then v else Bit(s, q)
  {
    if q / 8 == pos / 8 {
      WithBitAt(s[pos / 8], pos % 8, v, q % 8);
    }
  }

  lemma BitsExtensionality(a: seq<byte>, b: seq<byte>)
    requires |a| == |b|
    requires forall q :: 0 <= q < 8 * |a| ==> Bit(a, q) == Bit(b, q)
    ensures a == b
  {
    forall i | 0 <= i < |a|
      ensures a[i] == b[i]
    {
      forall j | 0 <= j < 8
        ensures BitOf(a[i], j) == BitOf(b[i], j)
      {
        assert Bit(a, 8 * i + j) == Bit(b, 8 * i + j);
      }
      ByteExtensionality(a[i], b[i]);
    }
  }

  lemma WrapAround(c: byte)
    ensures (c + 1) as nat == (c as nat + 1) % 256
    ensures c as nat == c as nat % 256
  {
  }

  /** An integer assigned to a byte: counting that far in a byte. */
  function Truncated(n: nat): byte {
    if n == 0 then 0 else Truncated(n - 1) + 1
  }

  lemma {:induction false} TruncatedValue(n: nat)
    ensures Truncated(n) as nat == n % 256
  {
    if n > 0 {
      TruncatedValue(n - 1);
      OneMore(Truncated(n - 1), n - 1);
    }
  }

  lemma OneMore(b: byte, n: nat)
    requires b as nat == n % 256
    ensures (b + 1) as nat == (n + 1) % 256
  {
    WrapAround(b);
    var c := b as nat;
    ModuloStep(c, n);
  }

  lemma ModuloStep(c: nat, n: nat)
    requires c == n % 256
    ensures (c + 1) % 256 == (n + 1) % 256
  {
  }

  method SetBit(arr: array<byte>, pos: nat)
    requires pos < 8 * arr.Length
    modifies arr
    ensures arr[..] == PutBit(old(arr[..]), pos, true)
  {
    var bytePos := pos / 8;
    var flag := Flag(pos % 8);
    arr[bytePos] := arr[bytePos] | flag;
  }

  method ResetBit(arr: array<byte>, pos: nat)
    requires pos < 8 * arr.Length
    modifies arr
    ensures arr[..] == PutBit(old(arr[..]), pos, false)
  {
    var bytePos := pos / 8;
    var flag := !Flag(pos % 8);
    arr[bytePos] := arr[bytePos] & flag;
  }

  function ReadBit(arr: array<byte>, pos: nat): (r: bool)
    requires pos < 8 * arr.Length
    reads arr
    ensures r == Bit(arr[..], pos)
  {
    Flag(pos % 8) & arr[pos / 8] != 0
  }
}
