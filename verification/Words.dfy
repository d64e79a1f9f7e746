/** Machine words and bit strings as natural numbers.

    The driver computes on 8-, 32- and 64-bit words.  Here a word is a natural
    number, the C operators are defined on numbers bit by bit, and every place
    where the hardware drops high bits is written out.  Shr, Shl and Low are
    n / 2^k, n * 2^k and n mod 2^k (lemma ShiftsAreArithmetic); they recurse on
    k so that proofs about them stay linear. */
module Words {

  type byte = x: int | 0 <= x < 256

  const WORD: int := 0x1_0000_0000

  function Pow2(n: nat): (r: nat)
    ensures r > 0
  {
    if n == 0 then 1 else 2 * Pow2(n - 1)
  }

  function Shr(n: nat, k: nat): nat
    decreases n, k
  {
    if k == 0 then n else Shr(n / 2, k - 1)
  }

  function Shl(n: nat, k: nat): nat
    decreases n, k
  {
    if k == 0 then n else 2 * Shl(n, k - 1)
  }

  /** The k low bits of n. */
  function Low(n: nat, k: nat): nat
    decreases n, k
  {
    if k == 0 then 0 else n % 2 + 2 * Low(n / 2, k - 1)
  }

  /** Bits [start, start+len) of n, as a number. */
  function Bits(n: nat, start: nat, len: nat): nat
  {
    Low(Shr(n, start), len)
  }

  function Or(a: nat, b: nat): nat
    decreases a + b
  {
    if a == 0 && b == 0 then 0
    else (if a % 2 == 1 || b % 2 == 1 then 1 else 0) + 2 * Or(a / 2, b / 2)
  }

  function And(a: nat, b: nat): nat
    decreases a + b
  {
    if a == 0 && b == 0 then 0
    else (if a % 2 == 1 && b % 2 == 1 then 1 else 0) + 2 * And(a / 2, b / 2)
  }

  /** A 32-bit word read as a two's complement int. */
  function ToInt32(w: nat): int
    requires w < WORD
  {
    if w < 0x8000_0000 then w else w - WORD
  }

  /** The number a byte string stands for, least significant byte first. */
  function LeNat(b: seq<byte>): nat
  {
    if |b| == 0 then 0 else b[0] + 256 * LeNat(b[1..])
  }

  /** The number a byte string stands for, most significant byte first. */
  function BeNat(b: seq<byte>): nat
  {
    if |b| == 0 then 0 else 256 * BeNat(b[..|b| - 1]) + b[|b| - 1]
  }

  function Reverse(b: seq<byte>): (r: seq<byte>)
    ensures |r| == |b|
    ensures forall i :: 0 <= i < |b| ==> r[i] == b[|b| - 1 - i]
  {
    seq(|b|, i requires 0 <= i < |b| => b[|b| - 1 - i])
  }

  // ------------------------------------------------------------------------
  // Shifts

  lemma {:induction false} Pow2Mono(a: nat, b: nat)
    requires a <= b
    ensures Pow2(a) <= Pow2(b)
  {
    if a < b { Pow2Mono(a, b - 1); }
  }

  lemma Pow2Times256(k: nat)
    ensures Pow2(k + 8) == 256 * Pow2(k)
  {
    ShlAdd(1, k, 8);
    ShlIsMul(1, k);
    ShlIsMul(1, k + 8);
    ShlIsMul(Pow2(k), 8);
    assert Pow2(8) == 256;
  }

  lemma Pow2At32()
    ensures Pow2(8) == 256 && Pow2(16) == 0x1_0000 && Pow2(24) == 0x100_0000 && Pow2(32) == WORD
  {
    Pow2Times256(8);
    Pow2Times256(16);
    Pow2Times256(24);
  }

  lemma {:induction false} ShrAdd(n: nat, a: nat, b: nat)
    ensures Shr(Shr(n, a), b) == Shr(n, a + b)
    decreases a
  {
    if a > 0 { ShrAdd(n / 2, a - 1, b); }
  }

  lemma {:induction false} ShlAdd(n: nat, a: nat, b: nat)
    ensures Shl(Shl(n, a), b) == Shl(n, a + b)
    decreases b
  {
    if b > 0 { ShlAdd(n, a, b - 1); }
  }

  lemma {:induction false} ShlSum(m: nat, n: nat, k: nat)
    ensures Shl(m + n, k) == Shl(m, k) + Shl(n, k)
  {
    if k > 0 { ShlSum(m, n, k - 1); }
  }

  lemma {:induction false} LowBound(n: nat, k: nat)
    ensures Low(n, k) < Pow2(k)
    decreases k
  {
    if k > 0 { LowBound(n / 2, k - 1); }
  }

  /** A number is its k low bits and the rest. */
  lemma {:induction false} Split(n: nat, k: nat)
    ensures n == Low(n, k) + Shl(Shr(n, k), k)
    decreases k
  {
    if k > 0 { Split(n / 2, k - 1); }
  }

  /** The two parts can be read back from their sum. */
  lemma {:induction false} Join(lo: nat, hi: nat, k: nat)
    requires lo < Pow2(k)
    ensures Low(lo + Shl(hi, k), k) == lo
    ensures Shr(lo + Shl(hi, k), k) == hi
    decreases k
  {
    if k > 0 {
      Join(lo / 2, hi, k - 1);
      var s := lo + Shl(hi, k);
      assert s / 2 == lo / 2 + Shl(hi, k - 1) && s % 2 == lo % 2;
    }
  }

  lemma {:induction false} LowOfSmall(n: nat, k: nat)
    requires n < Pow2(k)
    ensures Low(n, k) == n && Shr(n, k) == 0
    decreases k
  {
    if k > 0 { LowOfSmall(n / 2, k - 1); }
  }

  lemma {:induction false} LowLow(n: nat, l: nat, len: nat)
    requires len <= l
    ensures Low(Low(n, l), len) == Low(n, len)
    decreases len
  {
    if len > 0 { LowLow(n / 2, l - 1, len - 1); }
  }

  lemma {:induction false} ShrLow(n: nat, s: nat, l: nat)
    ensures Shr(Low(n, s + l), s) == Low(Shr(n, s), l)
    decreases s
  {
    if s > 0 { ShrLow(n / 2, s - 1, l); }
  }

  lemma {:induction false} LowConcat(n: nat, a: nat, b: nat)
    ensures Low(n, a + b) == Low(n, a) + Shl(Low(Shr(n, a), b), a)
    decreases a
  {
    if a > 0 { LowConcat(n / 2, a - 1, b); }
  }

  lemma {:induction false} ShlIsMul(n: nat, k: nat)
    ensures Shl(n, k) == n * Pow2(k)
  {
    if k > 0 {
      ShlIsMul(n, k - 1);
      var p := Pow2(k - 1);
      assert 2 * (n * p) == n * (2 * p);
    }
  }

  lemma {:induction false} ShlBelow(n: nat, a: nat, k: nat)
    requires n < Pow2(a)
    ensures Shl(n, k) < Pow2(a + k)
  {
    if k > 0 { ShlBelow(n, a, k - 1); }
  }

  lemma MulGe(k: int, d: int)
    requires k >= 1 && d >= 0
    ensures k * d >= d
  {
    assert k * d == (k - 1) * d + d;
  }

  lemma Distribute(a: int, b: int, c: int)
    ensures (a - b) * c == a * c - b * c
  {
  }

  /** Quotient and remainder are the only solution of x = q*d + r. */
  lemma DivUnique(x: int, d: int, q: int, r: int)
    requires 0 <= r < d && x == q * d + r
    ensures x / d == q && x % d == r
  {
    var q', r' := x / d, x % d;
    Distribute(q', q, d);
    Distribute(q, q', d);
    if q' > q {
      MulGe(q' - q, d);
      assert false;
    } else if q' < q {
      MulGe(q - q', d);
      assert false;
    }
  }

  /** What the three functions mean. */
  lemma ShiftsAreArithmetic(n: nat, k: nat)
    ensures Shl(n, k) == n * Pow2(k)
    ensures Shr(n, k) == n / Pow2(k)
    ensures Low(n, k) == n % Pow2(k)
  {
    ShlIsMul(n, k);
    Split(n, k);
    ShlIsMul(Shr(n, k), k);
    LowBound(n, k);
    DivUnique(n, Pow2(k), Shr(n, k), Low(n, k));
  }

  // ------------------------------------------------------------------------
  // Bit strings

  /** Two adjacent bit strings concatenate. */
  lemma BitsConcat(n: nat, start: nat, a: nat, b: nat)
    ensures Bits(n, start, a + b) == Bits(n, start, a) + Shl(Bits(n, start + a, b), a)
  {
    LowConcat(Shr(n, start), a, b);
    ShrAdd(n, start, a);
  }

  /** A bit string of a bit string. */
  lemma BitsOfBits(n: nat, s: nat, l: nat, start: nat, len: nat)
    requires start + len <= l
    ensures Bits(Bits(n, s, l), start, len) == Bits(n, s + start, len)
  {
    ShrLow(Shr(n, s), start, l - start);
    ShrAdd(n, s, start);
    LowLow(Shr(n, s + start), l - start, len);
  }

  /** Shifting the number moves the bit string. */
  lemma BitsShift(n: nat, k: nat, start: nat, len: nat)
    ensures Bits(Shr(n, k), start, len) == Bits(n, k + start, len)
  {
    ShrAdd(n, k, start);
  }

  // ------------------------------------------------------------------------
  // Or and And

  lemma {:induction false} OrZero(b: nat)
    ensures Or(0, b) == b && Or(b, 0) == b
  {
    if b != 0 { OrZero(b / 2); }
  }

  lemma {:induction false} AndZero(b: nat)
    ensures And(0, b) == 0 && And(b, 0) == 0
  {
    if b != 0 { AndZero(b / 2); }
  }

  lemma {:induction false} OrComm(a: nat, b: nat)
    ensures Or(a, b) == Or(b, a)
    decreases a + b
  {
    if a != 0 || b != 0 { OrComm(a / 2, b / 2); }
  }

  /** A number below 2^k or-ed with a multiple of 2^k: no carries, a sum. */
  lemma {:induction false} OrDisjoint(a: nat, y: nat, k: nat)
    requires a < Pow2(k)
    ensures Or(a, Shl(y, k)) == a + Shl(y, k)
    decreases k
  {
    if k == 0 {
      OrZero(y);
    } else if a != 0 || Shl(y, k) != 0 {
      OrDisjoint(a / 2, y, k - 1);
    }
  }

  /** A mask of k ones keeps the k low bits. */
  lemma {:induction false} AndMask(a: nat, k: nat)
    ensures And(a, Pow2(k) - 1) == Low(a, k)
    decreases k
  {
    if k == 0 {
      AndZero(a);
    } else {
      AndMask(a / 2, k - 1);
      assert (Pow2(k) - 1) / 2 == Pow2(k - 1) - 1;
    }
  }

  // ------------------------------------------------------------------------
  // Byte strings

  lemma ShrBy8(lo: byte, hi: nat)
    ensures Shr(lo + 256 * hi, 8) == hi && Low(lo + 256 * hi, 8) == lo
  {
    Pow2At32();
    ShlIsMul(hi, 8);
    Join(lo, hi, 8);
  }

  lemma {:induction false} LeNatBound(b: seq<byte>)
    ensures LeNat(b) < Pow2(8 * |b|)
  {
    if |b| > 0 {
      LeNatBound(b[1..]);
      Pow2Times256(8 * (|b| - 1));
    }
  }

  /** Dropping i low bytes is a shift by 8i bits. */
  lemma {:induction false} LeNatDrop(b: seq<byte>, i: nat)
    requires i <= |b|
    ensures Shr(LeNat(b), 8 * i) == LeNat(b[i..])
  {
    if i == 0 {
      assert b[0..] == b;
    } else {
      LeNatDrop(b[1..], i - 1);
      assert b[1..][i - 1..] == b[i..];
      ShrBy8(b[0], LeNat(b[1..]));
      ShrAdd(LeNat(b), 8, 8 * (i - 1));
    }
  }

  lemma {:induction false} LeNatAppend(a: seq<byte>, b: seq<byte>)
    ensures LeNat(a + b) == LeNat(a) + Shl(LeNat(b), 8 * |a|)
  {
    if |a| == 0 {
      assert a + b == b;
    } else {
      assert (a + b)[1..] == a[1..] + b;
      LeNatAppend(a[1..], b);
      var y := Shl(LeNat(b), 8 * (|a| - 1));
      ShlAdd(LeNat(b), 8 * (|a| - 1), 8);
      ShlIsMul(y, 8);
      Pow2At32();
    }
  }

  /** Byte i sits at bits [8i, 8i+8). */
  lemma LeNatByte(b: seq<byte>, i: nat)
    requires i < |b|
    ensures Bits(LeNat(b), 8 * i, 8) == b[i]
  {
    LeNatDrop(b, i);
    ShrBy8(b[i], LeNat(b[i..][1..]));
  }

  /** Big-endian is little-endian read backwards. */
  lemma {:induction false} BeIsReversedLe(b: seq<byte>)
    ensures BeNat(b) == LeNat(Reverse(b))
  {
    if |b| > 0 {
      BeIsReversedLe(b[..|b| - 1]);
      assert Reverse(b)[1..] == Reverse(b[..|b| - 1]);
    }
  }
}
