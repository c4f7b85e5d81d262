/** The KISS CRC-8: generator x^8 + x^2 + x + 1 (0x07), initial value 0,
    no final XOR, each byte XORed into the register before eight shifts. */
module Crc {
  import opened Common

  /** One shift of the register: shift left, feeding back 0x07 when the
      bit shifted out was set. */
  function Shift(v: byte): byte
  {
    if v & 0x80 != 0 then 0x07 ^ (v << 1) else v << 1
  }

  /** `n` consecutive shifts. */
  function ShiftN(v: byte, n: nat): byte
    decreases n
  {
    if n == 0 then v else ShiftN(Shift(v), n - 1)
  }

  /** A shift loses no information: the feedback bit 0 of the result
      records the bit shifted out. */
  lemma ShiftInjective(x: byte, y: byte)
    ensures Shift(x) == Shift(y) ==> x == y
  {
  }

  lemma {:induction false} ShiftNInjective(x: byte, y: byte, n: nat)
    ensures ShiftN(x, n) == ShiftN(y, n) ==> x == y
    decreases n
  {
    if n > 0 {
      ShiftInjective(x, y);
      ShiftNInjective(Shift(x), Shift(y), n - 1);
    }
  }

  lemma {:induction false} ShiftNZero(n: nat)
    ensures ShiftN(0, n) == 0
    decreases n
  {
    if n > 0 {
      assert Shift(0) == 0;
      ShiftNZero(n - 1);
    }
  }

  /** `updateCrc8(crc, crc_seed)`: folds one byte into the register. The
      result is zero exactly when the byte equals the register. */
  function UpdateCrc8(crc: byte, seed: byte): (r: byte)
    ensures r == 0 <==> crc == seed
  {
    ShiftNZero(8);
    ShiftNInjective(crc ^ seed, 0, 8);
    ShiftN(crc ^ seed, 8)
  }

  /** Reference definition: the CRC of a byte sequence, register seeded with 0. */
  function Crc8(s: seq<byte>): byte
    decreases |s|
  {
    if |s| == 0 then 0 else UpdateCrc8(s[|s| - 1], Crc8(s[..|s| - 1]))
  }

  /** `calculateCrc8(Buf, BufLen)`: the loop over the first `len` bytes. */
  method CalculateCrc8(buf: seq<byte>, len: uint8) returns (crc: byte)
    requires len <= |buf|
    ensures crc == Crc8(buf[..len])
  {
    crc := 0;
    var i := 0;
    while i < len
      invariant 0 <= i <= len
      invariant crc == Crc8(buf[..i])
    {
      assert buf[..i + 1][..i] == buf[..i];
      crc := UpdateCrc8(buf[i], crc);
      i := i + 1;
    }
  }

  /** A message followed by its own CRC has CRC zero. */
  lemma AppendCrcGivesZero(m: seq<byte>)
    ensures Crc8(m + [Crc8(m)]) == 0
  {
    assert (m + [Crc8(m)])[..|m|] == m;
  }

  /** Two equal-length messages that differ in one byte only — any single-bit
      flip among them — have different CRCs. */
  lemma {:induction false} Crc8DetectsSingleByteChange(a: seq<byte>, b: seq<byte>, k: nat)
    requires |a| == |b| && k < |a|
    requires a[k] != b[k]
    requires forall i :: 0 <= i < |a| && i != k ==> a[i] == b[i]
    ensures Crc8(a) != Crc8(b)
    decreases |a|
  {
    var n := |a| - 1;
    Crc8Snoc(a);
    Crc8Snoc(b);
    if k == n {
      PrefixesAgree(a, b, n);
      UpdateDistinctBytes(a[n], b[n], Crc8(a[..n]));
    } else {
      OneDifferenceInPrefix(a, b, k);
      Crc8DetectsSingleByteChange(a[..n], b[..n], k);
      UpdateDistinctRegisters(a[n], Crc8(a[..n]), Crc8(b[..n]));
    }
  }

  /** One unfolding of the reference CRC. */
  lemma Crc8Snoc(a: seq<byte>)
    requires |a| > 0
    ensures Crc8(a) == UpdateCrc8(a[|a| - 1], Crc8(a[..|a| - 1]))
  {
  }

  lemma PrefixesAgree(a: seq<byte>, b: seq<byte>, n: nat)
    requires n <= |a| && n <= |b|
    requires forall i :: 0 <= i < n ==> a[i] == b[i]
    ensures a[..n] == b[..n]
  {
  }

  lemma OneDifferenceInPrefix(a: seq<byte>, b: seq<byte>, k: nat)
    requires |a| == |b| && k < |a| - 1
    requires a[k] != b[k]
    requires forall i :: 0 <= i < |a| && i != k ==> a[i] == b[i]
    ensures var n := |a| - 1;
            && a[..n][k] != b[..n][k]
            && a[n] == b[n]
            && forall i :: 0 <= i < n && i != k ==> a[..n][i] == b[..n][i]
  {
  }

  /** For a fixed register, distinct bytes give distinct registers. */
  lemma UpdateDistinctBytes(b1: byte, b2: byte, c: byte)
    requires b1 != b2
    ensures UpdateCrc8(b1, c) != UpdateCrc8(b2, c)
  {
    assert b1 ^ c != b2 ^ c;
    ShiftNInjective(b1 ^ c, b2 ^ c, 8);
  }

  /** For a fixed byte, distinct registers stay distinct. */
  lemma UpdateDistinctRegisters(b: byte, c1: byte, c2: byte)
    requires c1 != c2
    ensures UpdateCrc8(b, c1) != UpdateCrc8(b, c2)
  {
    assert b ^ c1 != b ^ c2;
    ShiftNInjective(b ^ c1, b ^ c2, 8);
  }

  /** The register is CRC-8 with polynomial 0x07 and initial value 0 (the
      catalogued CRC-8/SMBUS): the ASCII digits "123456789" give the
      catalogue's check value 0xF4, one prefix at a time. */
  lemma Crc8CheckValue()
    ensures Crc8([0x31, 0x32, 0x33, 0x34, 0x35, 0x36, 0x37, 0x38, 0x39]) == 0xF4
  {
    var s: seq<byte> := [0x31, 0x32, 0x33, 0x34, 0x35, 0x36, 0x37, 0x38, 0x39];
    assert s[..1][..0] == s[..0];
    assert Crc8(s[..1]) == 0x97;
    assert s[..2][..1] == s[..1];
    assert Crc8(s[..2]) == 0x72;
    assert s[..3][..2] == s[..2];
    assert Crc8(s[..3]) == 0xC0;
    assert s[..4][..3] == s[..3];
    assert Crc8(s[..4]) == 0xC2;
    assert s[..5][..4] == s[..4];
    assert Crc8(s[..5]) == 0xCB;
    assert s[..6][..5] == s[..5];
    assert Crc8(s[..6]) == 0xFD;
    assert s[..7][..6] == s[..6];
    assert Crc8(s[..7]) == 0x78;
    assert s[..8][..7] == s[..7];
    assert Crc8(s[..8]) == 0xC7;
    assert s[..9][..8] == s[..8];
    assert Crc8(s[..9]) == 0xF4;
    assert s[..9] == s;
  }
}
