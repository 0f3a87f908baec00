/**
 * The 32-bit component bitfield `bitfield::Bitfield`. A word is modelled by
 * the set of the positions (0 to 31) of its one-bits, which determines it
 * exactly; `Value` gives the unsigned number it stands for. A flag is a word
 * with (normally) one bit set; an entity's mask is the union of the flags of
 * the component types it carries. The primitives are the ones `ECS` uses:
 * `Set` (bitwise or), `Clear` (and-not), `Has` (every bit of the second word
 * is present in the first), doubling (`*= 2` in unsigned 32-bit arithmetic)
 * and the unsigned comparison `<`.
 */
module Bitfield {

  /** The number of bits in a word. */
  const Width: nat := 32

  /**
   * A word, as the positions of its one-bits. The type admits any position;
   * the words built here (Zero, Pow2, and Set, Clear and Double of such words)
   * keep every position below Width, and Value counts only those.
   */
  type Bits = set<nat>

  /** The word 0. */
  const Zero: Bits := {}

  /** True when every bit of `flags` is present in `field`. */
  predicate Has(field: Bits, flags: Bits)
  {
    flags <= field
  }

  /** `field | flag`. */
  function Set(field: Bits, flag: Bits): Bits
  {
    field + flag
  }

  /** `field & ~flag`. */
  function Clear(field: Bits, flag: Bits): Bits
  {
    field - flag
  }

  /** `field * 2` modulo 2^32: every bit moves up one place and the top bit is lost. */
  function Double(field: Bits): Bits
  {
    set i | i in field && i + 1 < Width :: i + 1
  }

  /** The ordinary power of two, on unbounded integers. */
  function Power(n: nat): (r: nat)
    ensures r >= 1
  {
    if n == 0 then 1 else 2 * Power(n - 1)
  }

  /** The value of the bits of `field` below position `n`. */
  function ValueBelow(field: Bits, n: nat): nat
  {
    if n == 0 then 0
    else ValueBelow(field, n - 1) + if n - 1 in field then Power(n - 1) else 0
  }

  /** The unsigned value of a word. */
  function Value(field: Bits): nat
  {
    ValueBelow(field, Width)
  }

  /** The unsigned comparison `a < b`. */
  predicate Below(a: Bits, b: Bits)
  {
    Value(a) < Value(b)
  }

  /**
   * The word 2^n in 32 bits: bit n alone while n < 32, and 0 from n = 32 on.
   * This is the value of `bitIndex` after n fresh registrations (Pow2Doubles).
   */
  function Pow2(n: nat): Bits
  {
    if n < Width then {n} else Zero
  }

  /** Doubling in 32-bit arithmetic, as `bitIndex *= 2` does, steps from 2^n to 2^(n+1). */
  lemma Pow2Doubles(n: nat)
    ensures Double(Pow2(n)) == Pow2(n + 1)
  {
    if n + 1 < Width {
      assert n in Pow2(n);
      assert n + 1 in Double(Pow2(n));
    } else {
      assert Double(Pow2(n)) == Zero by {
        forall i | i in Double(Pow2(n)) ensures false {
        }
      }
    }
  }

  /** The value of a one-bit word, counted below position m. */
  lemma {:induction false} ValueBelowSingle(n: nat, m: nat)
    ensures ValueBelow({n}, m) == if n < m then Power(n) else 0
  {
    if m > 0 {
      ValueBelowSingle(n, m - 1);
    }
  }

  /** The zero word has value 0, counted below any position. */
  lemma {:induction false} ValueBelowZero(m: nat)
    ensures ValueBelow(Zero, m) == 0
  {
    if m > 0 {
      ValueBelowZero(m - 1);
    }
  }

  /** Before the wrap, the word Pow2(n) is the integer 2^n; from n = 32 on it is 0. */
  lemma Pow2Value(n: nat)
    ensures Value(Pow2(n)) == if n < Width then Power(n) else 0
  {
    if n < Width {
      ValueBelowSingle(n, Width);
    } else {
      ValueBelowZero(Width);
    }
  }

  /** The bits below position n are worth less than 2^n. */
  lemma {:induction false} ValueBelowBound(field: Bits, n: nat)
    ensures ValueBelow(field, n) < Power(n)
  {
    if n > 0 {
      ValueBelowBound(field, n - 1);
    }
  }

  /** Below position n + 1, the doubled word is worth twice the word below n. */
  lemma {:induction false} DoubleValueBelow(field: Bits, n: nat)
    requires n < Width
    ensures ValueBelow(Double(field), n + 1) == 2 * ValueBelow(field, n)
  {
    assert 0 !in Double(field);
    if n > 0 {
      DoubleValueBelow(field, n - 1);
      assert n in Double(field) <==> n - 1 in field by {
        if n - 1 in field {
          assert n - 1 + 1 in Double(field);
        }
      }
    }
  }

  /** Below position n + 1, doubling is `2 * field` modulo 2^(n+1). */
  lemma DoubleValueMod(field: Bits, n: nat)
    requires n < Width
    ensures ValueBelow(Double(field), n + 1) == (2 * ValueBelow(field, n + 1)) % Power(n + 1)
  {
    DoubleValueBelow(field, n);
    ValueBelowBound(field, n);
    var low := ValueBelow(field, n);
    ModWrap(2 * low, Power(n + 1));
    if n in field {
      assert 2 * ValueBelow(field, n + 1) == 2 * low + Power(n + 1);
    }
  }

  /** Below the modulus a number is its own remainder, and so is it plus the modulus. */
  lemma ModWrap(x: int, m: int)
    requires 0 <= x < m
    ensures x % m == x && (x + m) % m == x
  {
  }

  /** Doubling computes `2 * field` modulo 2^32, as unsigned 32-bit `*= 2` does. */
  lemma DoubleValue(field: Bits)
    ensures Value(Double(field)) == (2 * Value(field)) % Power(Width)
  {
    DoubleValueMod(field, Width - 1);
  }

  /** The first 32 words Pow2(n) are non-zero, single bits, and pairwise disjoint. */
  lemma Pow2Disjoint(i: nat, j: nat)
    requires i < Width && j < Width
    ensures Pow2(i) != Zero && |Pow2(i)| == 1
    ensures i != j ==> Pow2(i) * Pow2(j) == Zero
  {
  }

  /**
   * Doubling makes the word smaller (the overflow test of RegisterComponent)
   * exactly once: when it goes from 2^31 to 0.
   */
  lemma Pow2DropsOnlyAt31(n: nat)
    ensures Below(Double(Pow2(n)), Pow2(n)) <==> n == Width - 1
  {
    Pow2Doubles(n);
    Pow2Value(n);
    Pow2Value(n + 1);
  }

  /** A word has the union of two flags exactly when it has both. */
  lemma HasSet(field: Bits, a: Bits, b: Bits)
    ensures Has(field, Set(a, b)) <==> Has(field, a) && Has(field, b)
  {
  }
}
