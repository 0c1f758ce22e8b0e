/** The bit operations of an unsigned integer, bit by bit, and the arithmetic they come to. */
module Bits {

  function And(a: nat, b: nat): nat {
    if a == 0 || b == 0 then 0
    else 2 * And(a / 2, b / 2) + if a % 2 == 1 && b % 2 == 1 then 1 else 0
  }

  function Or(a: nat, b: nat): nat {
    if a == 0 && b == 0 then 0
    else 2 * Or(a / 2, b / 2) + if a % 2 == 1 || b % 2 == 1 then 1 else 0
  }

  /** a << k, a >> k and the low k bits of a. */
  function Shl(a: nat, k: nat): nat { if k == 0 then a else 2 * Shl(a, k - 1) }

  function Shr(a: nat, k: nat): nat { if k == 0 then a else Shr(a / 2, k - 1) }

  function Low(a: nat, k: nat): nat { if k == 0 then 0 else 2 * Low(a / 2, k - 1) + a % 2 }

  function Ones(k: nat): nat { if k == 0 then 0 else 2 * Ones(k - 1) + 1 }

  lemma AndStep(a: nat, b: nat)
    ensures And(a, b) == 2 * And(a / 2, b / 2) + if a % 2 == 1 && b % 2 == 1 then 1 else 0
  {
  }

  lemma OrStep(a: nat, b: nat)
    ensures Or(a, b) == 2 * Or(a / 2, b / 2) + if a % 2 == 1 || b % 2 == 1 then 1 else 0
  {
  }

  /** The operations work on the high and the low bits apart. */
  lemma {:induction false} AndSplit(a: nat, b: nat, k: nat)
    ensures And(a, b) == Shl(And(Shr(a, k), Shr(b, k)), k) + And(Low(a, k), Low(b, k))
  {
    hide And;
    if k == 0 {
      AndStep(0, 0);
    } else {
      AndSplit(a / 2, b / 2, k - 1);
      AndStep(a, b);
      AndStep(Low(a, k), Low(b, k));
    }
  }

  lemma {:induction false} OrSplit(a: nat, b: nat, k: nat)
    ensures Or(a, b) == Shl(Or(Shr(a, k), Shr(b, k)), k) + Or(Low(a, k), Low(b, k))
  {
    hide Or;
    if k == 0 {
      OrStep(0, 0);
    } else {
      OrSplit(a / 2, b / 2, k - 1);
      OrStep(a, b);
      OrStep(Low(a, k), Low(b, k));
    }
  }

  lemma {:induction false} OrZero(a: nat)
    ensures Or(a, 0) == a && Or(0, a) == a
  {
    if a != 0 {
      OrZero(a / 2);
    }
  }

  /** A mask of k ones keeps the low k bits. */
  lemma {:induction false} Mask(a: nat, k: nat)
    ensures And(a, Ones(k)) == Low(a, k)
  {
    hide And;
    if k == 0 {
      AndStep(a, 0);
      AndZero(a / 2);
    } else {
      Mask(a / 2, k - 1);
      AndStep(a, Ones(k));
    }
  }

  lemma AndZero(a: nat)
    ensures And(a, 0) == 0 && And(0, a) == 0
  {
  }

  lemma OneMore(a: nat, k: nat)
    ensures Low(a, k + 1) == 2 * Low(a / 2, k) + a % 2
    ensures Shr(a, k + 1) == Shr(a / 2, k) && Shl(a, k + 1) == 2 * Shl(a, k)
  {
  }

  lemma TwoMore(a: nat, k: nat)
    ensures Low(a, k + 2) == 4 * Low(a / 4, k) + a % 4
    ensures Shr(a, k + 2) == Shr(a / 4, k) && Shl(a, k + 2) == 4 * Shl(a, k)
  {
    hide Low, Shr, Shl;
    OneMore(a, k + 1);
    OneMore(a / 2, k);
    OneMore(a, k);
  }

  lemma Half128(a: nat)
    ensures 2 * (a / 2 % 64) + a % 2 == a % 128 && a / 2 / 64 == a / 128
  {
  }

  lemma Quarter16(a: nat)
    ensures 4 * (a / 4 % 4) + a % 4 == a % 16 && a / 4 / 4 == a / 16
  {
  }

  lemma Quarter64(a: nat)
    ensures 4 * (a / 4 % 16) + a % 4 == a % 64 && a / 4 / 16 == a / 64
  {
  }

  lemma Quarter256(a: nat)
    ensures 4 * (a / 4 % 64) + a % 4 == a % 256 && a / 4 / 64 == a / 256
  {
  }

  lemma Quarter1024(a: nat)
    ensures 4 * (a / 4 % 256) + a % 4 == a % 1024 && a / 4 / 256 == a / 1024
  {
  }

  lemma Bits0(a: nat)
    ensures Low(a, 0) == 0 && Shr(a, 0) == a && Shl(a, 0) == a
  {
  }

  lemma Bits3(a: nat)
    ensures Low(a, 3) == a % 8 && Shr(a, 3) == a / 8 && Shl(a, 3) == a * 8
  {
    hide Low, Shr, Shl;
    TwoMore(a, 1);
    OneMore(a / 4, 0);
    OneMore(a, 0);
    Bits0(a);
    Bits0(a / 4 / 2);
  }

  lemma Bits4(a: nat)
    ensures Low(a, 4) == a % 16 && Shr(a, 4) == a / 16 && Shl(a, 4) == a * 16
  {
    hide Low, Shr, Shl;
    TwoMore(a, 2);
    TwoMore(a / 4, 0);
    TwoMore(a, 0);
    Bits0(a);
    Bits0(a / 4);
    Bits0(a / 4 / 4);
    Quarter16(a);
  }

  lemma Bits6(a: nat)
    ensures Low(a, 6) == a % 64 && Shr(a, 6) == a / 64 && Shl(a, 6) == a * 64
  {
    hide Low, Shr, Shl;
    TwoMore(a, 4);
    Bits4(a / 4);
    Bits4(a);
    Quarter64(a);
  }

  lemma Bits7(a: nat)
    ensures Low(a, 7) == a % 128 && Shr(a, 7) == a / 128 && Shl(a, 7) == a * 128
  {
    hide Low, Shr, Shl;
    OneMore(a, 6);
    Bits6(a / 2);
    Bits6(a);
    Half128(a);
  }

  lemma Bits8(a: nat)
    ensures Low(a, 8) == a % 256 && Shr(a, 8) == a / 256 && Shl(a, 8) == a * 256
  {
    hide Low, Shr, Shl;
    TwoMore(a, 6);
    Bits6(a / 4);
    Bits6(a);
    Quarter256(a);
  }

  lemma Bits10(a: nat)
    ensures Low(a, 10) == a % 1024 && Shr(a, 10) == a / 1024 && Shl(a, 10) == a * 1024
  {
    hide Low, Shr, Shl;
    TwoMore(a, 8);
    Bits8(a / 4);
    Bits8(a);
    Quarter1024(a);
  }

  /** `(n | 0x80) & 0xBF`. */
  lemma ContinuationBits(n: nat)
    ensures And(Or(n, 0x80), 0xBF) == 0x80 + n % 64
  {
    hide And, Or;
    SetsBitSeven(n);
    LowSix(Or(n / 128, 1), n);
    KeepsSix(Or(n, 0x80));
  }

  lemma LowSix(high: nat, n: nat)
    ensures (high * 128 + n % 128) / 128 == high && (high * 128 + n % 128) % 64 == n % 64
  {
    AboveSeven(high, n % 128);
    AboveSix(2 * high, n % 128);
    AboveSix(2 * (n / 128), n % 128);
  }

  lemma AboveSeven(high: nat, low: nat)
    requires low < 128
    ensures (high * 128 + low) / 128 == high
  {
  }

  lemma AboveSix(high: nat, low: nat)
    ensures (64 * high + low) % 64 == low % 64
  {
  }

  lemma SetsBitSeven(n: nat)
    ensures var high := Or(n / 128, 1); Or(n, 0x80) == high * 128 + n % 128 && high % 2 == 1
  {
    hide Or, Shl, Shr, Low;
    Bits7(n);
    Bits7(0x80);
    OrSplit(n, 0x80, 7);
    Bits7(Or(n / 128, 1));
    OrZero(n % 128);
    OrStep(n / 128, 1);
  }

  /** 0xBF clears bit 6 of a byte and keeps the others. */
  lemma KeepsSix(x: nat)
    requires x / 128 % 2 == 1
    ensures And(x, 0xBF) == 0x80 + x % 64
  {
    hide And, Or, Shl, Shr, Low;
    AndSplit(x, 0xBF, 6);
    Bits6(x);
    Bits6(0xBF);
    Bits6(And(x / 64, 2));
    assert And(x % 64, 63) == x % 64 by {
      assert Ones(6) == 63;
      Mask(x % 64, 6);
      Bits6(x % 64);
    }
    AndStep(x / 64, 2);
    AndStep(x / 64 / 2, 1);
    AndZero(x / 64 / 2 / 2);
  }

  lemma ByteMask(n: nat)
    requires n < 256
    ensures And(n, 0xFF) == n
  {
    hide And, Low;
    assert Ones(8) == 255;
    Mask(n, 8);
    Bits8(n);
  }

  /** `(n | mark) & 0xFF` for the marks of two, three and four bytes, over as many bits as each leaves. */
  lemma MarkBits(n: nat, mark: nat)
    requires (mark == 0xC0 && n < 32) || (mark == 0xE0 && n < 16) || (mark == 0xF0 && n < 8)
    ensures And(Or(n, mark), 0xFF) == mark + n
  {
    hide And, Or;
    ByteMask(mark + n);
    MarkSet(n, mark);
  }

  lemma MarkSet(n: nat, mark: nat)
    requires (mark == 0xC0 && n < 32) || (mark == 0xE0 && n < 16) || (mark == 0xF0 && n < 8)
    ensures Or(n, mark) == mark + n
  {
    hide Or, Shl, Shr, Low;
    var low, high := n % 8, n / 8;
    OrSplit(n, mark, 3);
    Bits3(n);
    Bits3(mark);
    Bits3(Or(high, mark / 8));
    OrZero(low);
    HighBits(high, mark / 8);
  }

  lemma HighBits(high: nat, mark: nat)
    requires (mark == 0x18 && high < 4) || (mark == 0x1C && high < 2) || (mark == 0x1E && high == 0)
    ensures Or(high, mark) == mark + high
  {
    hide Or;
    OrStep(high, mark);
    OrStep(high / 2, mark / 2);
    OrZero(mark / 4);
  }

  /** `n & 0x7F` for a code point of seven bits. */
  lemma SevenBits(n: nat)
    requires n < 128
    ensures And(n, 0x7F) == n
  {
    hide And, Low;
    assert Ones(7) == 127;
    Mask(n, 7);
    Bits7(n);
  }

  /** `((first & 0x3FF) << 10) | (second & 0x3FF)`. */
  lemma JoinBits(first: nat, second: nat)
    ensures Or(Shl(And(first, 0x3FF), 10), And(second, 0x3FF)) == first % 1024 * 1024 + second % 1024
  {
    hide And, Or, Shl, Shr, Low;
    assert Ones(10) == 1023;
    Mask(first, 10);
    Mask(second, 10);
    Bits10(first);
    Bits10(second);
    var a, b := first % 1024, second % 1024;
    Bits10(a);
    Bits10(a * 1024);
    Bits10(b);
    OrSplit(a * 1024, b, 10);
    OrZero(a);
    OrZero(b);
  }
}
