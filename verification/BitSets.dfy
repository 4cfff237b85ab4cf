/** Bit sets in nonnegative C integers, and the two bit searches that the schedule
    engine takes from the C library. No value here is wider than an `int`. */
module BitSets {

  /** The binary digit at position k. */
  function Digit(x: nat, k: nat): nat {
    if k == 0 then x % 2 else Digit(x / 2, k - 1)
  }

  predicate Bit(x: nat, k: nat) {
    Digit(x, k) == 1
  }

  /** x & y */
  function And(x: nat, y: nat): nat {
    if x == 0 || y == 0 then 0
    else 2 * And(x / 2, y / 2) + if x % 2 == 1 && y % 2 == 1 then 1 else 0
  }

  /** x ^ y */
  function Xor(x: nat, y: nat): nat {
    if x == 0 then y
    else if y == 0 then x
    else 2 * Xor(x / 2, y / 2) + if x % 2 != y % 2 then 1 else 0
  }

  /** x << n */
  function Shl(x: nat, n: nat): nat {
    if n == 0 then x else 2 * Shl(x, n - 1)
  }

  /** ffs: one plus the lowest set position, zero when there is none. */
  function Ffs(x: nat): nat {
    if x == 0 then 0 else if x % 2 == 1 then 1 else 1 + Ffs(x / 2)
  }

  /** fls: one plus the highest set position, zero when there is none. */
  function Fls(x: nat): nat {
    if x == 0 then 0 else 1 + Fls(x / 2)
  }

  /** Nothing is cleared where nothing would be. */
  lemma {:induction false} AndKeeps(x: nat, y: nat)
    ensures And(x, y) == x <==> forall k: nat :: Bit(x, k) ==> Bit(y, k)
  {
    if forall k: nat :: Bit(x, k) ==> Bit(y, k) {
      if x > 0 {
        assert Bit(x, 0) ==> Bit(y, 0);
        forall k: nat | Bit(x / 2, k) ensures Bit(y / 2, k) {
          assert Bit(x, k + 1) ==> Bit(y, k + 1);
        }
        AndKeeps(x / 2, y / 2);
        if y == 0 {
          var k := SomeBit(x);
          ZeroBits();
        }
      }
    }
    if And(x, y) == x {
      forall k: nat | Bit(x, k) ensures Bit(y, k) {
        AndBit(x, y, k);
      }
    }
  }

  lemma ZeroBits()
    ensures forall k: nat :: !Bit(0, k)
  {
    forall k: nat ensures !Bit(0, k) {
      ZeroBit(k);
    }
  }

  lemma {:induction false} ZeroBit(k: nat)
    ensures !Bit(0, k)
  {
    if k > 0 {
      ZeroBit(k - 1);
    }
  }

  lemma {:induction false} AndBit(x: nat, y: nat, k: nat)
    ensures Bit(And(x, y), k) <==> Bit(x, k) && Bit(y, k)
  {
    if x == 0 || y == 0 {
      ZeroBit(k);
    } else if k > 0 {
      AndBit(x / 2, y / 2, k - 1);
    }
  }

  lemma {:induction false} XorBit(x: nat, y: nat, k: nat)
    ensures Bit(Xor(x, y), k) <==> (Bit(x, k) != Bit(y, k))
  {
    if x == 0 || y == 0 {
      ZeroBit(k);
    } else if k > 0 {
      XorBit(x / 2, y / 2, k - 1);
    }
  }

  lemma {:induction false} ShlBit(x: nat, n: nat, k: nat)
    ensures Bit(Shl(x, n), k) <==> n <= k && Bit(x, k - n)
  {
    if n > 0 && k > 0 {
      ShlBit(x, n - 1, k - 1);
      assert Shl(x, n) / 2 == Shl(x, n - 1);
    }
  }

  /** 1 << n */
  lemma SingleBit(n: nat, k: nat)
    ensures Bit(Shl(1, n), k) <==> k == n
  {
    ShlBit(1, n, k);
    if k > n {
      OneBit(k - n);
    }
  }

  lemma OneBit(k: nat)
    requires k > 0
    ensures !Bit(1, k)
  {
    ZeroBit(k - 1);
  }

  /** All the positions below n: 2 to the n, minus 1. */
  lemma {:induction false} OnesBit(n: nat, k: nat)
    ensures Shl(1, n) >= 1 && (Bit(Shl(1, n) - 1, k) <==> k < n)
  {
    if n == 0 {
      ZeroBit(k);
    } else {
      OnesBit(n - 1, if k == 0 then 0 else k - 1);
      assert (Shl(1, n) - 1) / 2 == Shl(1, n - 1) - 1;
    }
  }

  lemma ByteBit(k: nat)
    ensures Bit(0xFF, k) <==> k < 8
  {
    OnesBit(8, k);
    assert Shl(1, 3) == 8;
    assert Shl(1, 6) == 64;
    assert Shl(1, 8) == 256;
  }

  lemma WordBit(k: nat)
    ensures Bit(0xFFFF, k) <==> k < 16
  {
    OnesBit(16, k);
    assert Shl(1, 4) == 16;
    assert Shl(1, 8) == 256;
    assert Shl(1, 12) == 4096;
    assert Shl(1, 16) == 65536;
  }

  /** A number is below 1 << t exactly when it has no position from t on. */
  lemma {:induction false} BelowPower(x: nat, t: nat)
    ensures x < Shl(1, t) <==> forall k: nat :: k >= t ==> !Bit(x, k)
  {
    if t == 0 {
      if x == 0 {
        forall k: nat ensures !Bit(x, k) {
          ZeroBit(k);
        }
      } else {
        var k := SomeBit(x);
      }
    } else {
      BelowPower(x / 2, t - 1);
      if x >= Shl(1, t) {
        var k: nat :| k >= t - 1 && Bit(x / 2, k);
        assert Bit(x, k + 1);
      } else {
        forall k: nat | k >= t ensures !Bit(x, k) {
          assert !Bit(x / 2, k - 1);
        }
      }
    }
  }

  lemma {:induction false} SomeBit(x: nat) returns (k: nat)
    requires x > 0
    ensures Bit(x, k)
  {
    if x % 2 == 1 {
      k := 0;
    } else {
      k := SomeBit(x / 2);
      k := k + 1;
    }
  }

  lemma {:induction false} NotThePower(x: nat, t: nat)
    requires !Bit(x, t)
    ensures x != Shl(1, t)
  {
    SingleBit(t, t);
  }

  /** The comparison the engine uses for "is there a later one": with position t
      cleared, a mask exceeds 1 << t exactly when it has a higher position. */
  lemma LaterBit(x: nat, t: nat)
    requires !Bit(x, t)
    ensures x > Shl(1, t) <==> exists k: nat :: k > t && Bit(x, k)
  {
    BelowPower(x, t);
    NotThePower(x, t);
  }

  lemma {:induction false} FfsIsLeast(x: nat)
    ensures Ffs(x) == 0 <==> x == 0
    ensures x > 0 ==> Bit(x, Ffs(x) - 1)
    ensures forall k :: 0 <= k < Ffs(x) - 1 ==> !Bit(x, k)
  {
    if x > 0 && x % 2 == 0 {
      FfsIsLeast(x / 2);
      forall k | 0 <= k < Ffs(x) - 1 ensures !Bit(x, k) {
        if k > 0 {
          assert !Bit(x / 2, k - 1);
        }
      }
    }
  }

  lemma {:induction false} FlsIsGreatest(x: nat)
    ensures Fls(x) == 0 <==> x == 0
    ensures x > 0 ==> Bit(x, Fls(x) - 1)
    ensures forall k :: k >= Fls(x) ==> !Bit(x, k)
  {
    if x == 0 {
      forall k: nat ensures !Bit(x, k) {
        ZeroBit(k);
      }
    } else {
      FlsIsGreatest(x / 2);
      forall k | k >= Fls(x) ensures !Bit(x, k) {
        assert !Bit(x / 2, k - 1);
      }
    }
  }

  /** x & (1 << t) asks for one position. */
  lemma TestBit(x: nat, t: nat)
    ensures And(x, Shl(1, t)) != 0 <==> Bit(x, t)
    ensures And(Shl(1, t), x) != 0 <==> Bit(x, t)
  {
    forall k: nat
      ensures Bit(And(x, Shl(1, t)), k) <==> k == t && Bit(x, k)
      ensures Bit(And(Shl(1, t), x), k) <==> k == t && Bit(x, k)
    {
      AndBit(x, Shl(1, t), k);
      AndBit(Shl(1, t), x, k);
      SingleBit(t, k);
    }
    NonzeroHas(And(x, Shl(1, t)));
    NonzeroHas(And(Shl(1, t), x));
  }

  lemma NonzeroHas(x: nat)
    ensures x != 0 <==> exists k: nat :: Bit(x, k)
  {
    if x != 0 {
      var k := SomeBit(x);
      assert Bit(x, k);
    } else {
      forall k: nat ensures !Bit(x, k) {
        ZeroBit(k);
      }
    }
  }

  /** Clearing position t with x & ((1 << t) ^ ones), and asking for a later one. */
  lemma LaterTest(x: nat, t: nat, ones: nat, width: nat)
    requires t < width && x < Shl(1, width)
    requires forall k: nat :: Bit(ones, k) <==> k < width
    ensures And(x, Xor(Shl(1, t), ones)) > Shl(1, t) <==> exists k: nat :: k > t && Bit(x, k)
  {
    var others := And(x, Xor(Shl(1, t), ones));
    BelowPower(x, width);
    forall k: nat ensures Bit(others, k) <==> k != t && Bit(x, k) {
      AndBit(x, Xor(Shl(1, t), ones), k);
      XorBit(Shl(1, t), ones, k);
      SingleBit(t, k);
    }
    LaterBit(others, t);
  }

  /** The first position from n on, searched with x & (ones << n). */
  lemma FirstFrom(x: nat, n: nat, ones: nat, width: nat)
    requires x < Shl(1, width) && exists k: nat :: k >= n && Bit(x, k)
    requires forall k: nat :: Bit(ones, k) <==> k < width
    ensures var r := Ffs(And(x, Shl(ones, n))) - 1;
      r >= n && Bit(x, r) && forall k: nat :: n <= k < r ==> !Bit(x, k)
  {
    var later := And(x, Shl(ones, n));
    BelowPower(x, width);
    forall k: nat ensures Bit(later, k) <==> k >= n && Bit(x, k) {
      AndBit(x, Shl(ones, n), k);
      ShlBit(ones, n, k);
    }
    NonzeroHas(later);
    FfsIsLeast(later);
  }

  lemma {:induction false} AndAtMost(x: nat, y: nat)
    ensures And(x, y) <= x && And(x, y) <= y
  {
    if x != 0 && y != 0 {
      AndAtMost(x / 2, y / 2);
    }
  }

  lemma {:induction false} AndOnes(n: nat, x: nat)
    requires x < Shl(1, n)
    ensures Shl(1, n) >= 1 && And(Shl(1, n) - 1, x) == x
  {
    if n > 0 {
      AndOnes(n - 1, x / 2);
      assert (Shl(1, n) - 1) / 2 == Shl(1, n - 1) - 1;
    }
  }

  lemma AndByte(x: nat)
    requires x < 0x100
    ensures And(0xFF, x) == x
  {
    assert Shl(1, 3) == 8;
    assert Shl(1, 6) == 64;
    assert Shl(1, 8) == 256;
    AndOnes(8, x);
  }
}
