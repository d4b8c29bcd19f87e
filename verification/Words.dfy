/** Fixed-width unsigned words, their counts of values, and words as little-endian bytes. */
module Words {
  import opened CStrings

  const UINT32_COUNT: nat := 0x1_0000_0000
  const UINT64_COUNT: nat := 0x1_0000_0000_0000_0000

  type Word32 = x: nat | x < UINT32_COUNT
  type Word64 = x: nat | x < UINT64_COUNT
  type Bytes = seq<Byte>

  /** n bytes of v, lowest first. */
  function PutBytes(v: nat, n: nat): (b: Bytes)
    ensures |b| == n
  {
    var low: int := v % 256;
    if n == 0 then [] else [low] + PutBytes(v / 256, n - 1)
  }

  function GetBytes(b: Bytes, n: nat): nat
    requires n <= |b|
  {
    if n == 0 then 0
    else
      var low: int := b[0];
      low + 256 * GetBytes(b[1..], n - 1)
  }

  function PutU32(v: nat): (b: Bytes)
    requires v < UINT32_COUNT
    ensures |b| == 4
  {
    PutBytes(v, 4)
  }

  function GetU32(b: Bytes): (v: nat)
    requires |b| >= 4
    ensures v < UINT32_COUNT
  {
    GetBounded(b, 4);
    GetBytes(b, 4)
  }

  /** How many values n bytes have. */
  function Count(n: nat): (c: nat)
    ensures c > 0
  {
    if n == 0 then 1 else 256 * Count(n - 1)
  }

  lemma CountU32()
    ensures Count(4) == UINT32_COUNT
  {
    assert Count(1) == 256 && Count(2) == 256 * Count(1) && Count(3) == 256 * Count(2) && Count(4) == 256 * Count(3);
  }

  lemma {:induction false} BytesRoundTrip(v: nat, n: nat, rest: Bytes)
    requires v < Count(n)
    ensures GetBytes(PutBytes(v, n) + rest, n) == v
    decreases n
  {
    if n > 0 {
      BytesRoundTrip(v / 256, n - 1, rest);
      assert (PutBytes(v, n) + rest)[1..] == PutBytes(v / 256, n - 1) + rest;
    }
  }

  lemma {:induction false} GetBounded(b: Bytes, n: nat)
    requires n <= |b|
    ensures GetBytes(b, n) < Count(n)
    ensures n == 4 ==> Count(n) == UINT32_COUNT
    decreases n
  {
    CountU32();
    if n > 0 {
      GetBounded(b[1..], n - 1);
    }
  }

  /** A word is read from the first bytes only. */
  lemma {:induction false} GetFirst(b: Bytes, n: nat, m: nat)
    requires n <= m <= |b|
    ensures GetBytes(b[..m], n) == GetBytes(b, n)
    decreases n
  {
    if n > 0 {
      GetFirst(b[1..], n - 1, m - 1);
      assert b[..m][1..] == b[1..][..m - 1];
    }
  }

  lemma U32RoundTrip(v: nat, rest: Bytes)
    requires v < UINT32_COUNT
    ensures GetU32(PutU32(v) + rest) == v
  {
    CountU32();
    BytesRoundTrip(v, 4, rest);
  }

  /** The lowest byte comes first. */
  lemma U32LittleEndian(b: Bytes)
    requires |b| == 4
    ensures var b0: int, b1: int, b2: int, b3: int := b[0], b[1], b[2], b[3];
      var v := b0 + 0x100 * b1 + 0x1_0000 * b2 + 0x100_0000 * b3;
      v < UINT32_COUNT && GetU32(b) == v && PutU32(v) == b
  {
    var b0: int, b1: int, b2: int, b3: int := b[0], b[1], b[2], b[3];
    var v1 := b1 + 0x100 * b2 + 0x1_0000 * b3;
    var v2 := b2 + 0x100 * b3;
    GetBytesStep(b);
    GetBytesStep(b[1..]);
    GetBytesStep(b[2..]);
    GetBytesStep(b[3..]);
    assert b[1..][1..] == b[2..] && b[2..][1..] == b[3..] && b[3..][1..] == b[4..];
    assert GetBytes(b[3..], 1) == b3 && GetBytes(b[2..], 2) == v2 && GetBytes(b[1..], 3) == v1;
    PutBytesStep(b0, v1, 3);
    PutBytesStep(b1, v2, 2);
    PutBytesStep(b2, b3, 1);
    PutBytesStep(b3, 0, 0);
    assert PutBytes(0, 0) == [];
    assert PutBytes(b0 + 256 * v1, 4) == [b0, b1, b2, b3];
  }

  lemma GetBytesStep(b: Bytes)
    requires b != []
    ensures forall n: nat :: n < |b| ==> GetBytes(b, n + 1) == (var low: int := b[0]; low + 256 * GetBytes(b[1..], n))
  {
  }

  lemma PutBytesStep(low: Byte, high: nat, n: nat)
    ensures var v: int := low; PutBytes(v + 256 * high, n + 1) == [low] + PutBytes(high, n)
  {
    var v: int := low;
    assert (v + 256 * high) % 256 == v && (v + 256 * high) / 256 == high;
  }
}
