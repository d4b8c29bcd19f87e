/**
 The size helpers of include/core/nmo_utils.h on a 64-bit size_t.
 nmo_align_dword masks with the 32-bit constant ~3u, which a 64-bit operand
 zero-extends: the mask keeps no bit above bit 31.
 */
module Alignment {
  import opened Words
  import opened Bits

  type Size = Word64

  /** (size + alignment - 1u) & ~(alignment - 1u) */
  function Align(size: Size, alignment: Size): nat
    requires alignment > 0
  {
    Pow2Values();
    And((size + alignment - 1) % UINT64_COUNT, Not(64, alignment - 1))
  }

  /** (bytes + 3u) & ~3u */
  function AlignDword(bytes: Size): nat {
    Pow2Values();
    And((bytes + 3) % UINT64_COUNT, Not(32, 3))
  }

  /** (bytes + 3u) / 4u */
  function BytesToDwords(bytes: Size): nat {
    (bytes + 3) % UINT64_COUNT / 4
  }

  /** aligned - size, in the wrap-around of size_t */
  function PaddingBytes(size: Size, alignment: Size): nat
    requires alignment > 0
  {
    (Align(size, alignment) - size) % UINT64_COUNT
  }

  ghost predicate PowerOfTwo(a: nat) {
    exists k: nat :: k < 64 && a == Pow2(k)
  }

  ghost predicate IsLeastMultipleFrom(r: nat, a: nat, size: nat)
    requires a > 0
  {
    && r % a == 0
    && size <= r
    && forall m: nat :: size <= m && m % a == 0 ==> r <= m
  }

  lemma AlignRoundsDown(size: Size, alignment: Size)
    requires PowerOfTwo(alignment)
    ensures alignment > 0
    ensures var x := (size + alignment - 1) % UINT64_COUNT;
      Align(size, alignment) == x - x % alignment
  {
    Pow2Values();
    var k: nat :| k < 64 && alignment == Pow2(k);
    AndHighMask((size + alignment - 1) % UINT64_COUNT, 64, k);
  }

  lemma RoundDownIsLeastMultiple(size: nat, a: nat)
    requires a > 0
    ensures var x := size + a - 1; IsLeastMultipleFrom(x - x % a, a, size) && x - x % a < size + a
  {
    var x := size + a - 1;
    var r := x - x % a;
    RemainderUnique(r, a, x / a, 0);
    forall m: nat | size <= m && m % a == 0
      ensures r <= m
    {
      if m < r {
        MultipleApart(a, x / a - m / a, r - m);
      }
    }
  }

  /**
   For every power of two and every size, nmo_align gives the least multiple not
   below the size exactly when size + alignment - 1 does not wrap; the padding
   is then what is missing, and less than the alignment.
   */
  lemma AlignIsLeastMultiple(size: Size, alignment: Size)
    requires PowerOfTwo(alignment)
    ensures alignment > 0
    ensures IsLeastMultipleFrom(Align(size, alignment), alignment, size) <==> size + alignment - 1 < UINT64_COUNT
    ensures size + alignment - 1 < UINT64_COUNT ==>
      && PaddingBytes(size, alignment) < alignment
      && (size + PaddingBytes(size, alignment)) % alignment == 0
  {
    AlignRoundsDown(size, alignment);
    if size + alignment - 1 < UINT64_COUNT {
      AlignFits(size, alignment);
    } else {
      AlignWraps(size, alignment);
    }
  }

  lemma AlignFits(size: Size, alignment: Size)
    requires PowerOfTwo(alignment) && size + alignment - 1 < UINT64_COUNT
    ensures alignment > 0
    ensures IsLeastMultipleFrom(Align(size, alignment), alignment, size)
    ensures PaddingBytes(size, alignment) < alignment
    ensures size + PaddingBytes(size, alignment) == Align(size, alignment)
  {
    hide And, Not, Pow2;
    AlignRoundsDown(size, alignment);
    RemainderUnique(size + alignment - 1, UINT64_COUNT, 0, size + alignment - 1);
    RoundDownIsLeastMultiple(size, alignment);
    var gap := Align(size, alignment) - size;
    RemainderUnique(gap, UINT64_COUNT, 0, gap);
  }

  lemma AlignWraps(size: Size, alignment: Size)
    requires PowerOfTwo(alignment) && UINT64_COUNT <= size + alignment - 1
    ensures alignment > 0 && Align(size, alignment) == 0 < size
    ensures PaddingBytes(size, alignment) == UINT64_COUNT - size
  {
    AlignRoundsDown(size, alignment);
    var x := size + alignment - 1 - UINT64_COUNT;
    RemainderUnique(size + alignment - 1, UINT64_COUNT, 1, x);
    RemainderUnique(x, alignment, 0, x);
  }

  lemma AlignDwordRoundsDown(bytes: Size)
    ensures var x := (bytes + 3) % UINT64_COUNT;
      AlignDword(bytes) == x % 0x1_0000_0000 - x % 4
  {
    Pow2Values();
    assert Pow2(2) == 4;
    var x := (bytes + 3) % UINT64_COUNT;
    var low := x % 0x1_0000_0000;
    AndLowHalf(x, Not(32, 3), 32);
    AndHighMask(low, 32, 2);
    RemainderUnique(x, 4, x / 0x1_0000_0000 * 0x4000_0000 + low / 4, low % 4);
  }

  /** A mask of w bits sees only the low w bits of the other operand. */
  lemma {:induction false} AndLowHalf(x: nat, m: nat, w: nat)
    requires m < Pow2(w)
    ensures And(x, m) == And(x % Pow2(w), m)
    decreases w
  {
    if w > 0 {
      AndLowHalf(x / 2, m / 2, w - 1);
      LowBits(x, Pow2(w - 1));
    }
  }

  lemma LowBits(x: nat, b: nat)
    requires b > 0
    ensures (x % (2 * b)) / 2 == (x / 2) % b && (x % (2 * b)) % 2 == x % 2
  {
    HalveRemainder(x, b);
  }

  /**
   nmo_align_dword agrees with nmo_align by four, and with four times
   nmo_bytes_to_dwords, exactly while bytes + 3 in size_t fits in 32 bits.
   */
  lemma AlignDwordAgrees(bytes: Size)
    ensures Align(bytes, 4) == 4 * BytesToDwords(bytes)
    ensures AlignDword(bytes) == Align(bytes, 4) <==> (bytes + 3) % UINT64_COUNT < 0x1_0000_0000
  {
    assert Pow2(2) == 4;
    AlignRoundsDown(bytes, 4);
    AlignDwordRoundsDown(bytes);
  }
}
