/**
 The integer hashes of include/core/nmo_hash.h: the two MurmurHash3 finalizers,
 on w-bit words with the wrap-around of C's unsigned multiplication written out.
 An explicit inverse is given for each, so both are permutations of their word
 type and no two distinct keys collide before a table reduces the hash.
 */
module Hashing {
  import opened Words
  import opened Bits

  /** value ^= value >> s */
  function Fold(x: nat, s: nat): nat {
    Xor(x, Shr(x, s))
  }

  function HashInt32(value: Word32): (hash: Word32) {
    Pow2Values();
    FoldBounded(value, 16, 32);
    var a := Fold(value, 16);
    var b := a * 0x85eb_ca6b % 0x1_0000_0000;
    FoldBounded(b, 13, 32);
    var c := Fold(b, 13);
    var d := c * 0xc2b2_ae35 % 0x1_0000_0000;
    FoldBounded(d, 16, 32);
    Fold(d, 16)
  }

  /** Undoes the five steps of HashInt32, last step first. */
  function UnhashInt32(hash: Word32): (value: Word32) {
    Pow2Values();
    FoldBounded(hash, 16, 32);
    var d := Fold(hash, 16);
    var c := d * 0x7ed1_b41d % 0x1_0000_0000;
    UnfoldBounded(c, 13, 32);
    var b := Unfold(c, 13);
    var a := b * 0xa5cb_9243 % 0x1_0000_0000;
    FoldBounded(a, 16, 32);
    Fold(a, 16)
  }

  function HashInt64(value: Word64): (hash: Word64) {
    Pow2Values();
    FoldBounded(value, 33, 64);
    var a := Fold(value, 33);
    var b := a * 0xff51_afd7_ed55_8ccd % 0x1_0000_0000_0000_0000;
    FoldBounded(b, 33, 64);
    var c := Fold(b, 33);
    var d := c * 0xc4ce_b9fe_1a85_ec53 % 0x1_0000_0000_0000_0000;
    FoldBounded(d, 33, 64);
    Fold(d, 33)
  }

  /** Undoes the five steps of HashInt64, last step first. */
  function UnhashInt64(hash: Word64): (value: Word64) {
    Pow2Values();
    FoldBounded(hash, 33, 64);
    var d := Fold(hash, 33);
    var c := d * 0x9cb4_b2f8_1293_37db % 0x1_0000_0000_0000_0000;
    FoldBounded(c, 33, 64);
    var b := Fold(c, 33);
    var a := b * 0x4f74_430c_22a5_4005 % 0x1_0000_0000_0000_0000;
    FoldBounded(a, 33, 64);
    Fold(a, 33)
  }

  /** The inverse of Fold when three shifts, but not two, clear the word. */
  function Unfold(x: nat, s: nat): nat {
    Xor(Fold(x, s), Shr(x, s + s))
  }

  lemma FoldBounded(x: nat, s: nat, w: nat)
    requires x < Pow2(w)
    ensures Fold(x, s) < Pow2(w)
  {
    ShrBounded(x, s);
    XorBounded(x, Shr(x, s), w);
  }

  lemma UnfoldBounded(x: nat, s: nat, w: nat)
    requires x < Pow2(w)
    ensures Unfold(x, s) < Pow2(w)
  {
    FoldBounded(x, s, w);
    ShrBounded(x, s + s);
    XorBounded(Fold(x, s), Shr(x, s + s), w);
  }

  /** (x ^ y) ^ (y ^ z) == x ^ z */
  lemma XorCancels(x: nat, y: nat, z: nat)
    ensures Xor(Xor(x, y), Xor(y, z)) == Xor(x, z)
  {
    XorAssociates(Xor(x, y), y, z);
    XorAssociates(x, y, y);
    XorSelf(y);
    XorZero(x);
  }

  /** The shape a second fold has, whatever the shift. */
  lemma FoldTwice(x: nat, s: nat)
    ensures Fold(Fold(x, s), s) == Xor(x, Shr(x, s + s))
  {
    XorShr(x, Shr(x, s), s);
    ShrShr(x, s, s);
    XorCancels(x, Shr(x, s), Shr(x, s + s));
  }

  lemma ShrFolded(x: nat, s: nat, t: nat)
    ensures Shr(Fold(x, s), t) == Xor(Shr(x, t), Shr(x, s + t))
  {
    XorShr(x, Shr(x, s), t);
    ShrShr(x, s, t);
  }

  lemma ShrEnough(x: nat, s: nat, w: nat)
    requires x < Pow2(w) && w <= s
    ensures Shr(x, s) == 0
  {
    Pow2Monotone(w, s);
    ShrAll(x, s);
  }

  /** A fold by at least half the word undoes itself. */
  lemma FoldUndone(x: nat, s: nat, w: nat)
    requires x < Pow2(w) && w <= s + s
    ensures Fold(Fold(x, s), s) == x
  {
    FoldTwice(x, s);
    ShrEnough(x, s + s, w);
    XorZero(x);
  }

  /** A fold by at least a third of the word is undone by Unfold, on either side. */
  lemma UnfoldUndone(x: nat, s: nat, w: nat)
    requires x < Pow2(w) && w <= s + s + s
    ensures Unfold(Fold(x, s), s) == x
    ensures Fold(Unfold(x, s), s) == x
  {
    var x2, x3 := Shr(x, s + s), Shr(x, s + s + s);
    ShrEnough(x, s + s + s, w);
    // Unfold after Fold: x ^ x2 ^ (x2 ^ x3)
    FoldTwice(x, s);
    ShrFolded(x, s, s + s);
    XorZero(x2);
    XorCancels(x, x2, 0);
    XorZero(x);
    // Fold after Unfold: the folds cancel down to x ^ x2, the shifted tail to x2
    XorShr(Fold(x, s), x2, s);
    ShrFolded(x, s, s);
    ShrShr(x, s + s, s);
    XorZero(Shr(Fold(x, s), s));
    FoldAfterUnfold(x, Shr(x, s), x2);
  }

  lemma FoldAfterUnfold(x: nat, x1: nat, x2: nat)
    ensures Xor(Xor(Xor(x, x1), x2), Xor(x1, x2)) == x
  {
    XorAssociates(x, x1, x2);
    XorAssociates(x, Xor(x1, x2), Xor(x1, x2));
    XorSelf(Xor(x1, x2));
    XorZero(x);
  }

  /** Multiplying by an odd number and then by its inverse modulo the word gives the word back. */
  lemma MulUndone(x: nat, k: nat, k': nat, m: nat, q: nat)
    requires x < m && k * k' == 1 + m * q
    ensures (x * k % m) * k' % m == x
  {
    var r, t := x * k % m, x * k / m;
    calc {
      r * k';
      (x * k - m * t) * k';
      x * k * k' - m * t * k';
      { assert x * k * k' == x * (k * k'); }
      x * (1 + m * q) - m * t * k';
      { assert x * (1 + m * q) == x + m * (x * q); }
      x + m * (x * q) - m * (t * k');
      m * (x * q - t * k') + x;
    }
    RemainderUnique(r * k', m, x * q - t * k', x);
  }

  lemma Mul32Undone(x: Word32)
    ensures (x * 0x85eb_ca6b % 0x1_0000_0000) * 0xa5cb_9243 % 0x1_0000_0000 == x
    ensures (x * 0xa5cb_9243 % 0x1_0000_0000) * 0x85eb_ca6b % 0x1_0000_0000 == x
    ensures (x * 0xc2b2_ae35 % 0x1_0000_0000) * 0x7ed1_b41d % 0x1_0000_0000 == x
    ensures (x * 0x7ed1_b41d % 0x1_0000_0000) * 0xc2b2_ae35 % 0x1_0000_0000 == x
  {
    MulUndone(x, 0x85eb_ca6b, 0xa5cb_9243, 0x1_0000_0000, 0x56bb_77f4);
    MulUndone(x, 0xa5cb_9243, 0x85eb_ca6b, 0x1_0000_0000, 0x56bb_77f4);
    MulUndone(x, 0xc2b2_ae35, 0x7ed1_b41d, 0x1_0000_0000, 0x6073_6e9a);
    MulUndone(x, 0x7ed1_b41d, 0xc2b2_ae35, 0x1_0000_0000, 0x6073_6e9a);
  }

  lemma Hash32Undone(value: Word32)
    ensures UnhashInt32(HashInt32(value)) == value
  {
    Pow2Values();
    var a := Fold(value, 16);
    FoldBounded(value, 16, 32);
    var b := a * 0x85eb_ca6b % 0x1_0000_0000;
    var c := Fold(b, 13);
    FoldBounded(b, 13, 32);
    var d := c * 0xc2b2_ae35 % 0x1_0000_0000;
    FoldUndone(d, 16, 32);
    Mul32Undone(c);
    UnfoldUndone(b, 13, 32);
    Mul32Undone(a);
    FoldUndone(value, 16, 32);
  }

  lemma Unhash32Undone(hash: Word32)
    ensures HashInt32(UnhashInt32(hash)) == hash
  {
    Pow2Values();
    var d := Fold(hash, 16);
    FoldBounded(hash, 16, 32);
    var c := d * 0x7ed1_b41d % 0x1_0000_0000;
    var b := Unfold(c, 13);
    UnfoldBounded(c, 13, 32);
    var a := b * 0xa5cb_9243 % 0x1_0000_0000;
    FoldUndone(a, 16, 32);
    Mul32Undone(b);
    UnfoldUndone(c, 13, 32);
    Mul32Undone(d);
    FoldUndone(hash, 16, 32);
  }

  /** Distinct 32-bit keys never collide, and every word is the hash of exactly one key. */
  lemma HashInt32IsPermutation(x: Word32, y: Word32)
    ensures HashInt32(x) == HashInt32(y) <==> x == y
    ensures HashInt32(x) == y <==> x == UnhashInt32(y)
  {
    Hash32Undone(x);
    Hash32Undone(y);
    Unhash32Undone(y);
  }

  lemma Mul64Undone(x: Word64)
    ensures (x * 0xff51_afd7_ed55_8ccd % 0x1_0000_0000_0000_0000) * 0x4f74_430c_22a5_4005 % 0x1_0000_0000_0000_0000 == x
    ensures (x * 0x4f74_430c_22a5_4005 % 0x1_0000_0000_0000_0000) * 0xff51_afd7_ed55_8ccd % 0x1_0000_0000_0000_0000 == x
    ensures (x * 0xc4ce_b9fe_1a85_ec53 % 0x1_0000_0000_0000_0000) * 0x9cb4_b2f8_1293_37db % 0x1_0000_0000_0000_0000 == x
    ensures (x * 0x9cb4_b2f8_1293_37db % 0x1_0000_0000_0000_0000) * 0xc4ce_b9fe_1a85_ec53 % 0x1_0000_0000_0000_0000 == x
  {
    MulUndone(x, 0xff51_afd7_ed55_8ccd, 0x4f74_430c_22a5_4005, 0x1_0000_0000_0000_0000, 0x4f3e_2925_cb7c_5b4e);
    MulUndone(x, 0x4f74_430c_22a5_4005, 0xff51_afd7_ed55_8ccd, 0x1_0000_0000_0000_0000, 0x4f3e_2925_cb7c_5b4e);
    MulUndone(x, 0xc4ce_b9fe_1a85_ec53, 0x9cb4_b2f8_1293_37db, 0x1_0000_0000_0000_0000, 0x7878_e448_12b2_d581);
    MulUndone(x, 0x9cb4_b2f8_1293_37db, 0xc4ce_b9fe_1a85_ec53, 0x1_0000_0000_0000_0000, 0x7878_e448_12b2_d581);
  }

  lemma Hash64Undone(value: Word64)
    ensures UnhashInt64(HashInt64(value)) == value
  {
    Pow2Values();
    var a := Fold(value, 33);
    FoldBounded(value, 33, 64);
    var b := a * 0xff51_afd7_ed55_8ccd % 0x1_0000_0000_0000_0000;
    var c := Fold(b, 33);
    FoldBounded(b, 33, 64);
    var d := c * 0xc4ce_b9fe_1a85_ec53 % 0x1_0000_0000_0000_0000;
    FoldUndone(d, 33, 64);
    Mul64Undone(c);
    FoldUndone(b, 33, 64);
    Mul64Undone(a);
    FoldUndone(value, 33, 64);
  }

  lemma Unhash64Undone(hash: Word64)
    ensures HashInt64(UnhashInt64(hash)) == hash
  {
    Pow2Values();
    var d := Fold(hash, 33);
    FoldBounded(hash, 33, 64);
    var c := d * 0x9cb4_b2f8_1293_37db % 0x1_0000_0000_0000_0000;
    var b := Fold(c, 33);
    FoldBounded(c, 33, 64);
    var a := b * 0x4f74_430c_22a5_4005 % 0x1_0000_0000_0000_0000;
    FoldUndone(a, 33, 64);
    Mul64Undone(b);
    FoldUndone(c, 33, 64);
    Mul64Undone(d);
    FoldUndone(hash, 33, 64);
  }

  /** Distinct 64-bit keys never collide, and every word is the hash of exactly one key. */
  lemma HashInt64IsPermutation(x: Word64, y: Word64)
    ensures HashInt64(x) == HashInt64(y) <==> x == y
    ensures HashInt64(x) == y <==> x == UnhashInt64(y)
  {
    Hash64Undone(x);
    Hash64Undone(y);
    Unhash64Undone(y);
  }

  // The hashes bit by bit.

  predicate Bit(x: nat, i: nat) {
    if i == 0 then x % 2 == 1 else Bit(x / 2, i - 1)
  }

  /** Bit i of y is bit i of x, turned over where the bit s places above it is set. */
  ghost predicate Folded(x: nat, s: nat, y: nat) {
    forall i: nat :: Bit(y, i) <==> (Bit(x, i) != Bit(x, i + s))
  }

  lemma {:induction false} XorBit(x: nat, y: nat, i: nat)
    ensures Bit(Xor(x, y), i) <==> (Bit(x, i) != Bit(y, i))
    decreases i
  {
    XorHalves(x, y);
    if i > 0 {
      XorBit(x / 2, y / 2, i - 1);
    }
  }

  lemma {:induction false} ShrBit(x: nat, s: nat, i: nat)
    ensures Bit(Shr(x, s), i) <==> Bit(x, i + s)
    decreases s
  {
    if s > 0 {
      ShrBit(x / 2, s - 1, i);
    }
  }

  lemma FoldFolds(x: nat, s: nat)
    ensures Folded(x, s, Fold(x, s))
  {
    forall i: nat
      ensures Bit(Fold(x, s), i) <==> (Bit(x, i) != Bit(x, i + s))
    {
      XorBit(x, Shr(x, s), i);
      ShrBit(x, s, i);
    }
  }

  /** The 32-bit finalizer: shifts of 16, 13 and 16 about two multiplications modulo 2^32. */
  lemma HashInt32Steps(value: Word32) returns (a: nat, b: nat, c: nat, d: nat)
    ensures Folded(value, 16, a) && b == a * 0x85eb_ca6b % 0x1_0000_0000
    ensures Folded(b, 13, c) && d == c * 0xc2b2_ae35 % 0x1_0000_0000
    ensures Folded(d, 16, HashInt32(value))
  {
    hide Fold, Folded;
    a := Fold(value, 16);
    b := a * 0x85eb_ca6b % 0x1_0000_0000;
    c := Fold(b, 13);
    d := c * 0xc2b2_ae35 % 0x1_0000_0000;
    FoldFolds(value, 16);
    FoldFolds(b, 13);
    FoldFolds(d, 16);
  }

  /** The 64-bit finalizer: three shifts of 33 about two multiplications modulo 2^64. */
  lemma HashInt64Steps(value: Word64) returns (a: nat, b: nat, c: nat, d: nat)
    ensures Folded(value, 33, a) && b == a * 0xff51_afd7_ed55_8ccd % 0x1_0000_0000_0000_0000
    ensures Folded(b, 33, c) && d == c * 0xc4ce_b9fe_1a85_ec53 % 0x1_0000_0000_0000_0000
    ensures Folded(d, 33, HashInt64(value))
  {
    hide Fold, Folded;
    a := Fold(value, 33);
    b := a * 0xff51_afd7_ed55_8ccd % 0x1_0000_0000_0000_0000;
    c := Fold(b, 33);
    d := c * 0xc4ce_b9fe_1a85_ec53 % 0x1_0000_0000_0000_0000;
    FoldFolds(value, 33);
    FoldFolds(b, 33);
    FoldFolds(d, 33);
  }

  /** Words with the same bits are the same. */
  lemma {:induction false} BitsDetermine(x: nat, y: nat)
    requires forall i: nat :: Bit(x, i) <==> Bit(y, i)
    ensures x == y
    decreases x + y
  {
    assert Bit(x, 0) <==> Bit(y, 0);
    if x + y > 0 {
      forall i: nat
        ensures Bit(x / 2, i) <==> Bit(y / 2, i)
      {
        assert Bit(x, i + 1) <==> Bit(y, i + 1);
      }
      BitsDetermine(x / 2, y / 2);
    }
  }
}
