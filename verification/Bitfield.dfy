/** The unaligned bit-field reader that every card register is decoded with. */
module Bitfield {
  import opened Words

  /** What a field read means: `len` bits of the little-endian number n, from
      bit `start`, as a C int; 0 when the arguments are out of range. */
  function Field(n: nat, start: int, len: int): int
  {
    if start < 0 || len < 0 || len > 32 then 0
    else
      FieldFits(n, start, len);
      ToInt32(Bits(n, start, len))
  }

  lemma FieldFits(n: nat, start: nat, len: nat)
    requires len <= 32
    ensures Bits(n, start, len) < WORD
  {
    LowBound(Shr(n, start), len);
    Pow2Mono(len, 32);
    Pow2At32();
  }

  /** A field of fewer than 32 bits is never negative. */
  lemma ShortFieldIsBits(n: nat, start: nat, len: nat)
    requires len < 32
    ensures Field(n, start, len) == Bits(n, start, len) < Pow2(len)
  {
    LowBound(Shr(n, start), len);
    Pow2Mono(len, 31);
    Pow2At32();
    FieldFits(n, start, len);
  }

  /** The loop of __bitfield: at most eight bits per round, taken from the byte
      that holds bit `st`, or-ed into dst in 32-bit arithmetic.  Every `src[...]`
      is in bounds as soon as the field itself is. */
  method ReadField(src: seq<byte>, start: int, len: int) returns (r: int)
    requires start >= 0 && 0 <= len <= 32 ==> start + len <= 8 * |src|
    ensures r == Field(LeNat(src), start, len)
  {
    if start < 0 || len < 0 || len > 32 {
      return 0;
    }
    ghost var n := LeNat(src);
    var mask := if len % 32 != 0 then Shr(WORD - 1, 32 - len % 32) else WORD - 1;
    var dst, shift, st, ln := 0, 0, start, len;
    while ln > 0
      invariant 0 <= ln <= len && shift == len - ln && st == start + shift
      invariant ln > 0 ==> dst == Bits(n, start, shift)
      invariant Low(dst, shift) == Bits(n, start, shift)
      invariant len == 0 ==> dst == 0
      decreases ln
    {
      var bs := st % 8;
      var bc := 8 - bs;
      if bc > ln {
        bc := ln;
      }
      Round(src, start, shift, bc, dst);
      dst := Or(dst, Shl32(Shr(src[st / 8], bs), shift));
      shift := shift + bc;
      st := st + bc;
      ln := ln - bc;
    }
    if len == 0 {
      AndZero(mask);
    } else {
      MaskIsOnes(len);
      AndMask(dst, len);
    }
    FieldFits(n, start, len);
    r := ToInt32(And(dst, mask));
  }

  /** Shift left in a 32-bit register. */
  function Shl32(a: nat, k: nat): nat { Low(Shl(a, k), 32) }

  lemma MaskIsOnes(len: nat)
    requires 0 < len <= 32
    ensures (if len % 32 != 0 then Shr(WORD - 1, 32 - len % 32) else WORD - 1) == Pow2(len) - 1
  {
    Pow2At32();
    if len < 32 { ShrOnes(len, 32 - len); }
  }

  lemma {:induction false} ShrOnes(a: nat, b: nat)
    ensures Shr(Pow2(a + b) - 1, b) == Pow2(a) - 1
    decreases b
  {
    if b > 0 {
      ShrOnes(a, b - 1);
      assert (Pow2(a + b) - 1) / 2 == Pow2(a + (b - 1)) - 1;
    }
  }

  lemma {:induction false} LowShl(x: nat, k: nat, l: nat)
    ensures Low(Shl(x, k), k + l) == Shl(Low(x, l), k)
    decreases k
  {
    if k > 0 { LowShl(x, k - 1, l); }
  }

  /** The upper part of a byte is a bit string of the whole number. */
  lemma ByteTail(src: seq<byte>, st: nat)
    requires st / 8 < |src|
    ensures Shr(src[st / 8], st % 8) == Bits(LeNat(src), st, 8 - st % 8)
  {
    var i, bs := st / 8, st % 8;
    LeNatByte(src, i);
    ShrLow(Shr(LeNat(src), 8 * i), bs, 8 - bs);
    ShrAdd(LeNat(src), 8 * i, bs);
  }

  /** Or-ing in shifted bits adds what the 32-bit register keeps of them. */
  lemma OrShifted(dst: nat, x: nat, shift: nat)
    requires dst < Pow2(shift) && shift <= 32
    ensures Or(dst, Shl32(x, shift)) == dst + Shl(Low(x, 32 - shift), shift)
  {
    LowShl(x, shift, 32 - shift);
    OrDisjoint(dst, Low(x, 32 - shift), shift);
  }

  /** The low bits of the sum are the two bit strings side by side. */
  lemma JoinLow(dst: nat, y: nat, shift: nat, bc: nat)
    requires dst < Pow2(shift)
    ensures Low(dst + Shl(y, shift), shift + bc) == dst + Shl(Low(y, bc), shift)
  {
    Join(dst, y, shift);
    LowConcat(dst + Shl(y, shift), shift, bc);
  }

  /** One round extends the collected bits by bc; stray bits above them appear
      only in the last round, when the field ends inside the byte (bc < w). */
  lemma Extend(n: nat, start: nat, shift: nat, w: nat, bc: nat)
    requires bc <= w && shift + bc <= 32
    ensures
      var dst' := Or(Bits(n, start, shift), Shl32(Bits(n, start + shift, w), shift));
      && Low(dst', shift + bc) == Bits(n, start, shift + bc)
      && (bc == w ==> dst' == Bits(n, start, shift + bc))
  {
    hide Or, Low, Shl, Shr;
    var dst, x, m := Bits(n, start, shift), Bits(n, start + shift, w), Shr(n, start + shift);
    var y := Low(x, 32 - shift);
    LowBound(Shr(n, start), shift);
    OrShifted(dst, x, shift);
    JoinLow(dst, y, shift, bc);
    BitsConcat(n, start, shift, bc);
    LowLow(x, 32 - shift, bc);
    LowLow(m, w, bc);
    if bc == w {
      LowBound(m, bc);
      Pow2Mono(bc, 32 - shift);
      LowOfSmall(x, 32 - shift);
    }
  }

  lemma Round(src: seq<byte>, start: nat, shift: nat, bc: nat, dst: nat)
    requires (start + shift) / 8 < |src|
    requires bc <= 8 - (start + shift) % 8 && shift + bc <= 32
    requires dst == Bits(LeNat(src), start, shift)
    ensures
      var st := start + shift;
      var dst' := Or(dst, Shl32(Shr(src[st / 8], st % 8), shift));
      && Low(dst', shift + bc) == Bits(LeNat(src), start, shift + bc)
      && (bc == 8 - st % 8 ==> dst' == Bits(LeNat(src), start, shift + bc))
  {
    ByteTail(src, start + shift);
    Extend(LeNat(src), start, shift, 8 - (start + shift) % 8, bc);
  }

  // ------------------------------------------------------------------------
  // Card registers

  /** A long response holds bits 127..8 of a 128-bit card register, least
      significant byte first; the sixteenth byte is not part of it. */
  ghost predicate Holds(resp: seq<byte>, reg: nat)
  {
    |resp| == 16 && reg < Pow2(128) && Low(LeNat(resp), 120) == Shr(reg, 8)
  }

  /** MMC_RSP_BITS: the field is addressed by its place in the register. */
  method RspBits(resp: seq<byte>, start: int, len: int) returns (r: int)
    requires start >= 8 && 0 <= len <= 32 ==> start - 8 + len <= 8 * |resp|
    ensures r == Field(LeNat(resp), start - 8, len)
  {
    r := ReadField(resp, start - 8, len);
  }

  /** Every field of the register above the checksum byte is read exactly. */
  lemma RspBitsAreRegisterBits(resp: seq<byte>, reg: nat, start: nat, len: nat)
    requires Holds(resp, reg) && 8 <= start && start + len <= 128 && len <= 32
    ensures Field(LeNat(resp), start - 8, len) == Field(reg, start, len)
  {
    var n := LeNat(resp);
    BitsOfBits(n, 0, 120, start - 8, len);
    BitsShift(reg, 8, start - 8, len);
  }

  /** A field below bit 8 is not in the response at all: it reads as zero,
      whatever the card sent. */
  lemma FieldBelowByteOneIsZero(resp: seq<byte>, start: int, len: int)
    requires start < 8
    ensures Field(LeNat(resp), start - 8, len) == 0
  {
  }
}
