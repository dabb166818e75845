/** Unsigned words as natural numbers, with the bitwise operators defined on their binary digits. */
module Bits {

  type Word = w: nat | w < 0x1_0000_0000

  type Byte = b: nat | b < 256

  type Bytes = seq<Byte>

  /** The shift `x << k` without truncation. */
  function Shl(x: nat, k: nat): nat {
    if k == 0 then x else 2 * Shl(x, k - 1)
  }

  function And(a: nat, b: nat): nat {
    if a == 0 || b == 0 then 0
    else 2 * And(a / 2, b / 2) + (if a % 2 == 1 && b % 2 == 1 then 1 else 0)
  }

  function Or(a: nat, b: nat): nat {
    if a == 0 then b else if b == 0 then a
    else 2 * Or(a / 2, b / 2) + (if a % 2 == 1 || b % 2 == 1 then 1 else 0)
  }

  lemma {:induction false} ShlMonotone(x: nat, y: nat, k: nat)
    ensures x <= Shl(x, k) && (x < y ==> Shl(x, k) < Shl(y, k))
  {
    if k > 0 { ShlMonotone(x, y, k - 1); }
  }

  lemma {:induction false} ShlIsProduct(x: nat, k: nat)
    ensures Shl(x, k) == x * Shl(1, k)
  {
    if k > 0 { ShlIsProduct(x, k - 1); }
  }

  lemma AndZero(a: nat)
    ensures And(a, 0) == 0 && And(0, a) == 0 && Or(a, 0) == a && Or(0, a) == a
  {
  }

  lemma AndStep(a: nat, b: nat)
    ensures And(a, b) == 2 * And(a / 2, b / 2) + (if a % 2 == 1 && b % 2 == 1 then 1 else 0)
  {
    if a == 0 || b == 0 {
      AndZero(a / 2);
      AndZero(b / 2);
    }
  }

  lemma OrStep(a: nat, b: nat)
    ensures Or(a, b) == 2 * Or(a / 2, b / 2) + (if a % 2 == 1 || b % 2 == 1 then 1 else 0)
  {
    if a == 0 || b == 0 {
      AndZero(a / 2);
      AndZero(b / 2);
    }
  }

  lemma HalfWord(k: nat, high: nat, low: nat)
    requires k > 0 && low < Shl(1, k)
    ensures low / 2 < Shl(1, k - 1)
    ensures (Shl(high, k) + low) / 2 == Shl(high, k - 1) + low / 2
    ensures (Shl(high, k) + low) % 2 == low % 2
  {
  }

  /** Both operators act on the parts above and below bit `k` separately. */
  lemma {:induction false} AndSplit(k: nat, high: nat, low: nat, high': nat, low': nat)
    requires low < Shl(1, k) && low' < Shl(1, k)
    ensures And(Shl(high, k) + low, Shl(high', k) + low') == Shl(And(high, high'), k) + And(low, low')
  {
    if k > 0 {
      HalfWord(k, high, low);
      HalfWord(k, high', low');
      AndSplit(k - 1, high, low / 2, high', low' / 2);
      AndStep(Shl(high, k) + low, Shl(high', k) + low');
      AndStep(low, low');
    }
  }

  lemma {:induction false} OrSplit(k: nat, high: nat, low: nat, high': nat, low': nat)
    requires low < Shl(1, k) && low' < Shl(1, k)
    ensures Or(Shl(high, k) + low, Shl(high', k) + low') == Shl(Or(high, high'), k) + Or(low, low')
  {
    if k > 0 {
      HalfWord(k, high, low);
      HalfWord(k, high', low');
      OrSplit(k - 1, high, low / 2, high', low' / 2);
      OrStep(Shl(high, k) + low, Shl(high', k) + low');
      OrStep(low, low');
    }
  }

  lemma {:induction false} AndOnes(k: nat, low: nat)
    requires low < Shl(1, k)
    ensures And(low, Shl(1, k) - 1) == low
  {
    if k > 0 {
      AndOnes(k - 1, low / 2);
      AndStep(low, Shl(1, k) - 1);
    }
  }

  lemma {:induction false} AndCommutes(a: nat, b: nat)
    ensures And(a, b) == And(b, a)
  {
    if a != 0 && b != 0 { AndCommutes(a / 2, b / 2); }
  }

  lemma {:induction false} ShlZero(k: nat)
    ensures Shl(0, k) == 0
  {
    if k > 0 { ShlZero(k - 1); }
  }

  /** Masking with `2^k - 1` keeps the low part, masking with a high mask masks the high part. */
  lemma AndLow(k: nat, high: nat, low: nat)
    requires low < Shl(1, k)
    ensures And(Shl(high, k) + low, Shl(1, k) - 1) == low
  {
    ShlZero(k);
    AndSplit(k, high, low, 0, Shl(1, k) - 1);
    AndOnes(k, low);
    AndZero(high);
  }

  lemma AndHigh(k: nat, high: nat, low: nat, mask: nat)
    requires low < Shl(1, k)
    ensures And(Shl(high, k) + low, Shl(mask, k)) == Shl(And(high, mask), k)
  {
    AndSplit(k, high, low, mask, 0);
    AndZero(low);
  }

  /** Or-ing in a high part leaves the low part, and or-ing in a low part is addition. */
  lemma OrHigh(k: nat, high: nat, low: nat, more: nat)
    requires low < Shl(1, k)
    ensures Or(Shl(high, k) + low, Shl(more, k)) == Shl(Or(high, more), k) + low
  {
    OrSplit(k, high, low, more, 0);
    AndZero(low);
  }

  lemma OrLow(k: nat, high: nat, low: nat)
    requires low < Shl(1, k)
    ensures Or(Shl(high, k), low) == Shl(high, k) + low
  {
    ShlZero(k);
    OrSplit(k, high, 0, 0, low);
    AndZero(high);
    AndZero(low);
  }

  /** Neither operator needs more bits than its operands. */
  lemma {:induction false} BitsBound(k: nat, a: nat, b: nat)
    requires a < Shl(1, k) && b < Shl(1, k)
    ensures And(a, b) < Shl(1, k) && Or(a, b) < Shl(1, k)
  {
    if k > 0 && a != 0 && b != 0 { BitsBound(k - 1, a / 2, b / 2); }
  }
}
