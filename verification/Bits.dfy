/**
 Bitwise operations of C's unsigned types on natural numbers, bit by bit, with
 the laws the hash and alignment models need. A w-bit word is a number below
 Pow2(w); wrap-around is written out as % Pow2(w) where the source relies on it.
 */
module Bits {

  function Pow2(n: nat): (r: nat)
    ensures r > 0
  {
    if n == 0 then 1 else 2 * Pow2(n - 1)
  }

  /** x & y */
  function And(x: nat, y: nat): nat
    decreases x
  {
    if x == 0 || y == 0 then 0
    else 2 * And(x / 2, y / 2) + (x % 2) * (y % 2)
  }

  /** x ^ y */
  function Xor(x: nat, y: nat): nat
    decreases x + y
  {
    if x == 0 && y == 0 then 0
    else 2 * Xor(x / 2, y / 2) + (if x % 2 == y % 2 then 0 else 1)
  }

  /** x >> s */
  function Shr(x: nat, s: nat): nat {
    if s == 0 then x else Shr(x / 2, s - 1)
  }

  /** ~x in a word of w bits */
  function Not(w: nat, x: nat): nat
    requires x < Pow2(w)
  {
    Pow2(w) - 1 - x
  }

  lemma Pow2Values()
    ensures Pow2(32) == 0x1_0000_0000
    ensures Pow2(64) == 0x1_0000_0000_0000_0000
  {
    assert Pow2(8) == 0x100;
    Pow2Add(8, 8);
    Pow2Add(16, 16);
    Pow2Add(32, 32);
  }

  lemma {:induction false} Pow2Add(m: nat, n: nat)
    ensures Pow2(m + n) == Pow2(m) * Pow2(n)
  {
    if m > 0 {
      Pow2Add(m - 1, n);
      calc {
        Pow2(m + n);
        2 * Pow2(m - 1 + n);
        2 * (Pow2(m - 1) * Pow2(n));
        (2 * Pow2(m - 1)) * Pow2(n);
      }
    }
  }

  lemma Pow2Monotone(m: nat, n: nat)
    requires m <= n
    ensures Pow2(m) <= Pow2(n)
  {
  }

  lemma {:induction false} XorSelf(x: nat)
    ensures Xor(x, x) == 0
  {
    if x > 0 {
      XorSelf(x / 2);
    }
  }

  lemma {:induction false} XorZero(x: nat)
    ensures Xor(x, 0) == x && Xor(0, x) == x
  {
    if x > 0 {
      XorZero(x / 2);
    }
  }

  lemma {:induction false} XorCommutes(x: nat, y: nat)
    ensures Xor(x, y) == Xor(y, x)
    decreases x + y
  {
    if x + y > 0 {
      XorCommutes(x / 2, y / 2);
    }
  }

  lemma {:induction false} XorHalves(x: nat, y: nat)
    ensures Xor(x, y) / 2 == Xor(x / 2, y / 2)
    ensures Xor(x, y) % 2 == (if x % 2 == y % 2 then 0 else 1)
  {
  }

  lemma SameHalvesAndParity(x: nat, y: nat)
    requires x / 2 == y / 2 && x % 2 == y % 2
    ensures x == y
  {
  }

  lemma XorThreeHalves(x: nat, y: nat, z: nat)
    ensures Xor(Xor(x, y), z) / 2 == Xor(Xor(x / 2, y / 2), z / 2)
    ensures Xor(x, Xor(y, z)) / 2 == Xor(x / 2, Xor(y / 2, z / 2))
    ensures Xor(Xor(x, y), z) % 2 == Xor(x, Xor(y, z)) % 2
  {
    XorHalves(x, y);
    XorHalves(y, z);
    XorHalves(Xor(x, y), z);
    XorHalves(x, Xor(y, z));
  }

  lemma {:induction false} XorAssociates(x: nat, y: nat, z: nat)
    ensures Xor(Xor(x, y), z) == Xor(x, Xor(y, z))
    decreases x + y + z
  {
    if x + y + z > 0 {
      XorAssociates(x / 2, y / 2, z / 2);
      XorThreeHalves(x, y, z);
      SameHalvesAndParity(Xor(Xor(x, y), z), Xor(x, Xor(y, z)));
    }
  }

  lemma {:induction false} XorShr(x: nat, y: nat, s: nat)
    ensures Shr(Xor(x, y), s) == Xor(Shr(x, s), Shr(y, s))
    decreases s
  {
    if s > 0 {
      XorHalves(x, y);
      XorShr(x / 2, y / 2, s - 1);
    }
  }

  lemma {:induction false} XorBounded(x: nat, y: nat, w: nat)
    requires x < Pow2(w) && y < Pow2(w)
    ensures Xor(x, y) < Pow2(w)
    decreases w
  {
    if w > 0 {
      XorHalves(x, y);
      XorBounded(x / 2, y / 2, w - 1);
    }
  }

  lemma {:induction false} ShrShr(x: nat, s: nat, t: nat)
    ensures Shr(Shr(x, s), t) == Shr(x, s + t)
    decreases s
  {
    if s > 0 {
      ShrShr(x / 2, s - 1, t);
    }
  }

  lemma {:induction false} ShrBounded(x: nat, s: nat)
    ensures Shr(x, s) <= x
    decreases s
  {
    if s > 0 {
      ShrBounded(x / 2, s - 1);
    }
  }

  lemma {:induction false} ShrAll(x: nat, s: nat)
    requires x < Pow2(s)
    ensures Shr(x, s) == 0
    decreases s
  {
    if s > 0 {
      ShrAll(x / 2, s - 1);
    }
  }

  /** The greatest multiple of b that is not above x. */
  function RoundDown(x: nat, b: nat): nat
    requires b > 0
  {
    x - x % b
  }

  /** Masking with ~(2^k - 1) rounds a word down to a multiple of 2^k. */
  lemma {:induction false} AndHighMask(x: nat, w: nat, k: nat)
    requires k <= w && x < Pow2(w)
    ensures Pow2(k) <= Pow2(w) && And(x, Not(w, Pow2(k) - 1)) == RoundDown(x, Pow2(k))
    decreases w
  {
    hide And, RoundDown;
    Pow2Monotone(k, w);
    if k == 0 {
      AndAllOnes(x, w);
      RoundDownToOne(x);
    } else {
      var b := Pow2(k - 1);
      Pow2Monotone(k - 1, w - 1);
      AndHighMask(x / 2, w - 1, k - 1);
      AndDoubled(x, Not(w - 1, b - 1));
      HalveRemainder(x, b);
    }
  }

  lemma RoundDownToOne(x: nat)
    ensures RoundDown(x, 1) == x
  {
  }

  lemma AndStep(x: nat, y: nat)
    ensures And(x, y) == 2 * And(x / 2, y / 2) + (x % 2) * (y % 2)
  {
  }

  lemma AndDoubled(x: nat, m: nat)
    ensures And(x, 2 * m) == 2 * And(x / 2, m)
  {
    hide And;
    AndStep(x, 2 * m);
  }

  lemma HalveRemainder(x: nat, b: nat)
    requires b > 0
    ensures 2 * RoundDown(x / 2, b) == RoundDown(x, 2 * b)
  {
    var h := x / 2;
    var q, r := h / b, h % b;
    assert x == (2 * b) * q + (2 * r + x % 2);
    RemainderUnique(x, 2 * b, q, 2 * r + x % 2);
  }

  lemma RemainderUnique(x: int, d: int, q: int, r: int)
    requires 0 <= r < d && x == d * q + r
    ensures x % d == r && x / d == q
  {
    var q', r' := x / d, x % d;
    MultipleApart(d, q - q', r' - r);
  }

  lemma MultipleApart(d: int, k: int, gap: int)
    requires -d < gap < d && d * k == gap
    ensures k == 0
  {
  }

  lemma {:induction false} AndAllOnes(x: nat, w: nat)
    requires x < Pow2(w)
    ensures And(x, Pow2(w) - 1) == x
    decreases w
  {
    if x > 0 {
      var m := Pow2(w - 1) - 1;
      AndAllOnes(x / 2, w - 1);
      assert Pow2(w) - 1 == 2 * m + 1;
      AndOdd(x, m);
    }
  }

  lemma AndOdd(x: nat, m: nat)
    ensures And(x, 2 * m + 1) == 2 * And(x / 2, m) + x % 2
  {
    hide And;
    AndStep(x, 2 * m + 1);
  }
}
