/** Decoding of the card registers: CSD (capacity), SCR and the switch-function
    status. */
module CardRegisters {
  import opened Prelude
  import opened Words
  import opened Bitfield

  // ------------------------------------------------------------------------
  // CSD

  const MAX_BLOCK_LEN: int := 512
  const SD_CSD_V1: int := 0
  const SD_CSD_V2: int := 1
  const V2_BLOCK_LEN: int := 9

  datatype Csd = Csd(capacity: int, sectorSize: int, readBlLen: int)

  /** The card size in bytes that the specification derives from the register. */
  function CardBytes(sdMode: bool, reg: nat): nat
  {
    if sdMode && Bits(reg, 126, 2) == SD_CSD_V2 then (Bits(reg, 48, 22) + 1) * 512 * 1024
    else (Bits(reg, 62, 12) + 1) * Pow2(Bits(reg, 47, 3) + 2) * Pow2(Bits(reg, 80, 4))
  }

  predicate KnownVersion(sdMode: bool, reg: nat)
  {
    var ver := Bits(reg, 126, 2);
    if sdMode then ver == SD_CSD_V1 || ver == SD_CSD_V2 else 1 <= ver <= 3
  }

  /** sdmmc_decode_csd: int arithmetic, so every product is cut to 32 bits. */
  method DecodeCsd(sdMode: bool, resp: seq<byte>, ghost reg: nat)
    returns (csd: Option<Csd>, sdhc: bool)
    requires Holds(resp, reg)
    ensures csd.Some? <==> KnownVersion(sdMode, reg)
    ensures sdhc <==> sdMode && Bits(reg, 126, 2) == SD_CSD_V2
    ensures csd.Some? ==>
      var c := csd.value;
      && 0 < c.sectorSize <= MAX_BLOCK_LEN
      && c.readBlLen == (if sdhc then V2_BLOCK_LEN else Bits(reg, 80, 4))
      && c.sectorSize == (if c.readBlLen <= 9 then Pow2(c.readBlLen) else MAX_BLOCK_LEN)
      && (c.capacity * c.sectorSize == CardBytes(sdMode, reg)
          <==> sdhc ==> Bits(reg, 48, 22) + 1 < 0x20_0000)
      && (c.capacity * c.sectorSize != CardBytes(sdMode, reg) ==> c.capacity <= 0)
      && (c.capacity % WORD * c.sectorSize == CardBytes(sdMode, reg)
          <==> sdhc ==> Bits(reg, 48, 22) + 1 != 0x40_0000)
      && (c.capacity % WORD * c.sectorSize != CardBytes(sdMode, reg) ==> c.capacity == 0)
  {
    hide Int32, Holds, Bits, Field, LeNat, Pow2;
    RegisterFields(resp, reg);
    var capacity, readBlLen;
    var ver := RspBits(resp, 126, 2);
    sdhc := false;
    if sdMode && ver == SD_CSD_V2 {
      sdhc := true;
      var cSize := RspBits(resp, 48, 22);
      V2Capacity(cSize);
      capacity := Int32((cSize + 1) * Pow2(10));
      readBlLen := V2_BLOCK_LEN;
    } else if (sdMode && ver == SD_CSD_V1) || (!sdMode && 1 <= ver) {
      var cSize := RspBits(resp, 62, 12);
      var cMult := RspBits(resp, 47, 3);
      readBlLen := RspBits(resp, 80, 4);
      V1Capacity(cSize, cMult, readBlLen);
      capacity := Int32((cSize + 1) * Pow2(cMult + 2));
    } else {
      return None, false;
    }
    var blockLen := Pow2(readBlLen);
    var sectorSize := if blockLen < MAX_BLOCK_LEN then blockLen else MAX_BLOCK_LEN;
    Pow2Around9(readBlLen);
    if sectorSize < blockLen {
      capacity := Int32(capacity * (blockLen / sectorSize));
    }
    csd := Some(Csd(capacity, sectorSize, readBlLen));
  }

  /** A value stored in a 32-bit int. */
  function Int32(x: int): int { ToInt32(x % WORD) }

  lemma RegisterFields(resp: seq<byte>, reg: nat)
    requires Holds(resp, reg)
    ensures |resp| == 16
    ensures Field(LeNat(resp), 126 - 8, 2) == Bits(reg, 126, 2) < 4
    ensures Field(LeNat(resp), 48 - 8, 22) == Bits(reg, 48, 22) < 0x40_0000
    ensures Field(LeNat(resp), 62 - 8, 12) == Bits(reg, 62, 12) < 4096
    ensures Field(LeNat(resp), 47 - 8, 3) == Bits(reg, 47, 3) < 8
    ensures Field(LeNat(resp), 80 - 8, 4) == Bits(reg, 80, 4) < 16
  {
    assert |resp| == 16;
    hide Holds, Field, Bits, LeNat;
    RegisterField(resp, reg, 126, 2);
    RegisterField(resp, reg, 48, 22);
    RegisterField(resp, reg, 62, 12);
    RegisterField(resp, reg, 47, 3);
    RegisterField(resp, reg, 80, 4);
  }

  lemma RegisterField(resp: seq<byte>, reg: nat, start: nat, len: nat)
    requires Holds(resp, reg) && 8 <= start && start + len <= 128 && len < 32
    ensures Field(LeNat(resp), start - 8, len) == Bits(reg, start, len) < Pow2(len)
  {
    RspBitsAreRegisterBits(resp, reg, start, len);
    ShortFieldIsBits(reg, start, len);
  }

  lemma Pow2Around9(k: nat)
    ensures k <= 9 ==> Pow2(k) <= 512
    ensures k >= 9 ==> Pow2(k) == 512 * Pow2(k - 9) && Pow2(k) / 512 == Pow2(k - 9)
    ensures k > 9 ==> Pow2(k) > 512
  {
    assert Pow2(9) == 512;
    if k <= 9 {
      Pow2Mono(k, 9);
    } else {
      Pow2Mono(10, k);
      ShlAdd(1, 9, k - 9);
      ShlIsMul(1, 9);
      ShlIsMul(512, k - 9);
      ShlIsMul(1, k);
    }
  }

  /** Version 2.0: the shift by ten leaves the int range exactly at 2^21; taken as
      unsigned the result is right up to 2^22, the largest size of all. */
  lemma V2Capacity(cSize: nat)
    requires cSize < 0x40_0000
    ensures Pow2(10) == 1024
    ensures
      var capacity, bytes := Int32((cSize + 1) * 1024), (cSize + 1) * 512 * 1024;
      && (if cSize + 1 < 0x20_0000 then capacity * 512 == bytes else capacity <= 0 && capacity * 512 != bytes)
      && (if cSize + 1 < 0x40_0000 then capacity % WORD * 512 == bytes
          else capacity == 0 && capacity % WORD * 512 != bytes)
  {
  }

  /** Version 1.0 and MMC: no overflow, whatever the field values. */
  lemma V1Capacity(cSize: nat, cMult: nat, readBlLen: nat)
    requires cSize < 4096 && cMult < 8 && readBlLen < 16
    ensures
      var blocks := (cSize + 1) * Pow2(cMult + 2);
      && Int32(blocks) == blocks && blocks % WORD == blocks
      && (readBlLen > 9 ==>
            && Int32(blocks * Pow2(readBlLen - 9)) == blocks * Pow2(readBlLen - 9)
            && blocks * Pow2(readBlLen - 9) % WORD == blocks * Pow2(readBlLen - 9)
            && blocks * Pow2(readBlLen - 9) * 512 == blocks * Pow2(readBlLen))
  {
    Pow2Mono(cMult + 2, 9);
    assert Pow2(9) == 512;
    var blocks := (cSize + 1) * Pow2(cMult + 2);
    MulBound(cSize + 1, 4096, Pow2(cMult + 2), 512);
    if readBlLen > 9 { ScaledCapacity(blocks, readBlLen); }
  }

  lemma ScaledCapacity(blocks: nat, readBlLen: nat)
    requires blocks <= 0x20_0000 && 9 < readBlLen < 16
    ensures
      && Int32(blocks * Pow2(readBlLen - 9)) == blocks * Pow2(readBlLen - 9)
      && blocks * Pow2(readBlLen - 9) % WORD == blocks * Pow2(readBlLen - 9)
      && blocks * Pow2(readBlLen - 9) * 512 == blocks * Pow2(readBlLen)
  {
    Pow2Mono(readBlLen - 9, 6);
    assert Pow2(6) == 64;
    var p := Pow2(readBlLen - 9);
    MulBound(blocks, 0x20_0000, p, 64);
    Pow2Around9(readBlLen);
    assert blocks * p * 512 == blocks * (512 * p);
  }

  lemma MulBound(a: nat, aMax: nat, b: nat, bMax: nat)
    requires a <= aMax && b <= bMax
    ensures a * b <= aMax * bMax
  {
    Distribute(aMax, a, b);
    Distribute(bMax, b, aMax);
  }

  /** The first 120 bits of a register whose response has a zero last byte. */
  lemma RegisterOf(resp: seq<byte>, n: nat)
    requires |resp| == 16 && resp[15] == 0 && n == LeNat(resp[..15])
    ensures Holds(resp, Shl(n, 8)) && Shr(Shl(n, 8), 8) == n
  {
    hide Low, LeNat, Shl, Shr;
    assert resp == resp[..15] + [resp[15]];
    LeNatAppend(resp[..15], [0]);
    LeNatBound(resp[..15]);
    LeNatOfZero();
    ShlIsMul(0, 120);
    LowOfSmall(n, 120);
    Join(0, n, 8);
    ShlBelow(n, 120, 8);
  }

  lemma LeNatOfZero()
    ensures LeNat([0]) == 0
  {
  }

  /** Three bytes and six bits of a fourth, as one field. */
  lemma LargeSize(b: seq<byte>, top: byte)
    requires |b| == 15 && b[5] == 0xff && b[6] == 0xff && b[7] == top && b[14] == 0x40 && top < 64
    ensures Bits(LeNat(b), 40, 22) == top * 0x1_0000 + 0xffff && Bits(LeNat(b), 118, 2) == 1
  {
    hide Shr, LeNat;
    var n := LeNat(b);
    LeNatByte(b, 5);
    LeNatByte(b, 6);
    LeNatByte(b, 7);
    LeNatByte(b, 14);
    BitsOfBits(n, 56, 8, 0, 6);
    BitsOfBits(n, 112, 8, 6, 2);
    BitsConcat(n, 48, 8, 6);
    BitsConcat(n, 40, 8, 14);
    SmallFields(top);
  }

  lemma SmallFields(top: byte)
    requires top < 64
    ensures Bits(top, 0, 6) == top && Bits(0x40, 6, 2) == 1
    ensures 0xff + Shl(top, 8) == top * 256 + 0xff && 0xff + Shl(top * 256 + 0xff, 8) == top * 0x1_0000 + 0xffff
  {
    ShlIsMul(top, 8);
    ShlIsMul(top * 256 + 0xff, 8);
    assert Pow2(8) == 256 && Pow2(6) == 64;
    LowOfSmall(top, 6);
  }

  /** A version 2.0 card with C_SIZE = top * 2^16 + 0xffff, decoded. */
  method DecodeLarge(top: byte) returns (csd: Option<Csd>, sdhc: bool, ghost reg: nat)
    requires top < 64
    ensures Bits(reg, 126, 2) == SD_CSD_V2 && Bits(reg, 48, 22) + 1 == (top + 1) * 0x1_0000
    ensures csd.Some? && csd.value.sectorSize == 512
    ensures csd.value.capacity * 512 == CardBytes(true, reg) <==> top < 0x1f
    ensures csd.value.capacity % WORD * 512 == CardBytes(true, reg) <==> top != 0x3f
    ensures (top >= 0x1f ==> csd.value.capacity <= 0) && (top == 0x3f ==> csd.value.capacity == 0)
  {
    hide LeNat, Shr, Shl, Bits, Holds;
    var resp: seq<byte> := [0, 0, 0, 0, 0, 0xff, 0xff, top, 0, 0, 0, 0, 0, 0, 0x40, 0];
    ghost var n := LeNat(resp[..15]);
    reg := Shl(n, 8);
    RegisterOf(resp, n);
    LargeSize(resp[..15], top);
    BitsShift(reg, 8, 40, 22);
    BitsShift(reg, 8, 118, 2);
    csd, sdhc := DecodeCsd(true, resp, reg);
    assert Pow2(9) == 512;
  }

  /** A card of 1 TiB: the decoded capacity is not positive, though still right
      when taken as unsigned. */
  method OversizedCard() returns (csd: Option<Csd>, ghost reg: nat)
    ensures Bits(reg, 126, 2) == SD_CSD_V2 && Bits(reg, 48, 22) + 1 == 0x20_0000
    ensures csd.Some? && csd.value.capacity <= 0
    ensures csd.value.capacity * csd.value.sectorSize != CardBytes(true, reg)
    ensures csd.value.capacity % WORD * csd.value.sectorSize == CardBytes(true, reg)
  {
    var sdhc;
    csd, sdhc, reg := DecodeLarge(0x1f);
  }

  /** A card of 2 TiB, the largest there is: it has no blocks at all. */
  method LargestCard() returns (csd: Option<Csd>, ghost reg: nat)
    ensures Bits(reg, 126, 2) == SD_CSD_V2 && Bits(reg, 48, 22) + 1 == 0x40_0000
    ensures csd.Some? && csd.value.capacity == 0
  {
    var sdhc;
    csd, sdhc, reg := DecodeLarge(0x3f);
  }

  // ------------------------------------------------------------------------
  // Words in memory

  type word = x: int | 0 <= x < WORD

  /** The bytes of a 32-bit word on a little-endian host. */
  function LeBytes(w: word): (b: seq<byte>)
    ensures |b| == 4
  {
    var q1: int := w / 256;
    var q2: int := q1 / 256;
    var q3: int := q2 / 256;
    assert q1 < 0x100_0000 && q2 < 0x1_0000 && q3 < 0x100;
    [w % 256, q1 % 256, q2 % 256, q3]
  }

  lemma LeNat4(b: seq<byte>)
    requires |b| == 4
    ensures LeNat(b) == b[0] + 256 * (b[1] + 256 * (b[2] + 256 * b[3])) < WORD
  {
    assert b[1..][1..][1..][1..] == [];
    assert LeNat(b[1..][1..][1..]) == b[3];
    var b2: int, b3: int := b[2], b[3];
    assert LeNat(b[1..][1..]) == b2 + 256 * b3;
  }

  lemma BeNat4(b: seq<byte>)
    requires |b| == 4
    ensures BeNat(b) == b[3] + 256 * (b[2] + 256 * (b[1] + 256 * b[0])) < WORD
  {
    BeIsReversedLe(b);
    LeNat4(Reverse(b));
  }

  lemma LeNatOfLeBytes(w: word)
    ensures LeNat(LeBytes(w)) == w
  {
    LeNat4(LeBytes(w));
  }

  lemma LeBytesOfLeNat(b: seq<byte>)
    requires |b| == 4
    ensures LeNat(b) < WORD && LeBytes(LeNat(b)) == b
  {
    LeNat4(b);
    var q3: int := b[3];
    var q2: int := b[2] + 256 * q3;
    var q1: int := b[1] + 256 * q2;
    assert LeNat(b) / 256 == q1 && q1 / 256 == q2 && q2 / 256 == q3;
  }

  /** be32toh: the word whose bytes are those of w in the other order. */
  function Swap32(w: word): word
  {
    BeNat4(LeBytes(w));
    BeNat(LeBytes(w))
  }

  lemma SwapReverses(w: word)
    ensures LeBytes(Swap32(w)) == Reverse(LeBytes(w))
    ensures Swap32(Swap32(w)) == w
  {
    var b := LeBytes(w);
    BeIsReversedLe(b);
    LeBytesOfLeNat(Reverse(b));
    BeIsReversedLe(Reverse(b));
    assert Reverse(Reverse(b)) == b;
    LeNatOfLeBytes(w);
  }

  // ------------------------------------------------------------------------
  // SCR

  datatype Scr = Scr(sdSpec: int, busWidth: int)

  /** The two response words sdmmc_mem_decode_scr makes from the raw register. */
  function ScrWords(raw: seq<byte>): (word, word)
    requires |raw| == 8
  {
    BeNat4(raw[..4]);
    BeNat4(raw[4..]);
    var hi, lo := BeNat(raw[..4]), BeNat(raw[4..]);
    ScrRepack(hi, lo);
    (Or(Shr(lo, 8), Shl32(And(hi, 0xff), 24)), Shr(hi, 8))
  }

  /** The repacking is one 64-bit shift. */
  lemma ScrRepack(hi: nat, lo: nat)
    requires hi < WORD && lo < WORD
    ensures Or(Shr(lo, 8), Shl32(And(hi, 0xff), 24)) == lo / 256 + 0x100_0000 * (hi % 256)
    ensures Shr(hi, 8) == hi / 256
  {
    Pow2At32();
    ShiftsAreArithmetic(hi, 8);
    ShiftsAreArithmetic(lo, 8);
    AndMask(hi, 8);
    OrShifted(Shr(lo, 8), Low(hi, 8), 24);
    LowLow(hi, 8, 8);
    ShlIsMul(Low(hi, 8), 24);
  }

  function ScrResponse(raw: seq<byte>): (resp: seq<byte>)
    requires |raw| == 8
    ensures |resp| == 16
  {
    var (r0, r1) := ScrWords(raw);
    LeBytes(r0) + LeBytes(r1) + LeBytes(0) + LeBytes(0)
  }

  lemma BeNatSplit(raw: seq<byte>)
    requires |raw| == 8
    ensures BeNat(raw) == WORD * BeNat(raw[..4]) + BeNat(raw[4..])
  {
    BeIsReversedLe(raw);
    BeIsReversedLe(raw[..4]);
    BeIsReversedLe(raw[4..]);
    assert Reverse(raw) == Reverse(raw[4..]) + Reverse(raw[..4]);
    LeNatAppend(Reverse(raw[4..]), Reverse(raw[..4]));
    ShlIsMul(LeNat(Reverse(raw[..4])), 32);
    Pow2At32();
  }

  lemma ScrShiftArithmetic(hi: nat, lo: nat)
    requires hi < WORD && lo < WORD
    ensures lo / 256 + 0x100_0000 * (hi % 256) + WORD * (hi / 256) == (WORD * hi + lo) / 256
  {
    assert WORD * hi + lo == (0x100_0000 * hi + lo / 256) * 256 + lo % 256;
  }

  lemma LeNatOfTwoWords(r0: word, r1: word)
    ensures LeNat(LeBytes(r0) + LeBytes(r1) + LeBytes(0) + LeBytes(0)) == r0 + WORD * r1
  {
    var zeros := LeBytes(0) + LeBytes(0);
    assert LeBytes(r0) + LeBytes(r1) + LeBytes(0) + LeBytes(0) == LeBytes(r0) + (LeBytes(r1) + zeros);
    LeNatAppend(LeBytes(0), LeBytes(0));
    LeNatAppend(LeBytes(r1), zeros);
    LeNatAppend(LeBytes(r0), LeBytes(r1) + zeros);
    LeNatOfLeBytes(0);
    LeNatOfLeBytes(r0);
    LeNatOfLeBytes(r1);
    ShlIsMul(0, 32);
    ShlIsMul(r1, 32);
    Pow2At32();
  }

  /** As a number the response is the 64-bit SCR shifted right by one byte. */
  lemma ScrResponseIsShifted(raw: seq<byte>)
    requires |raw| == 8
    ensures LeNat(ScrResponse(raw)) == Shr(BeNat(raw), 8)
  {
    hide LeBytes, LeNat, BeNat, Or, And, Shr, Shl32, Low;
    var (r0, r1) := ScrWords(raw);
    var hi, lo := BeNat(raw[..4]), BeNat(raw[4..]);
    BeNat4(raw[..4]);
    BeNat4(raw[4..]);
    LeNatOfTwoWords(r0, r1);
    ScrRepack(hi, lo);
    ScrShiftArithmetic(hi, lo);
    BeNatSplit(raw);
    ShiftsAreArithmetic(BeNat(raw), 8);
    Pow2At32();
  }

  /** Every SCR field from bit 8 up is read exactly. */
  lemma ScrFieldsAreExact(raw: seq<byte>, start: nat, len: nat)
    requires |raw| == 8 && 8 <= start && len <= 32
    ensures Field(LeNat(ScrResponse(raw)), start - 8, len) == Field(BeNat(raw), start, len)
  {
    ScrResponseIsShifted(raw);
    BitsShift(BeNat(raw), 8, start - 8, len);
  }

  /** sdmmc_mem_decode_scr: the fields are stored even if the structure version
      is then refused. */
  method DecodeScr(raw: seq<byte>) returns (err: int, scr: Scr)
    requires |raw| == 8
    ensures scr == Scr(Bits(BeNat(raw), 56, 4), Bits(BeNat(raw), 48, 4))
    ensures err == if Bits(BeNat(raw), 60, 4) != 0 then EINVAL else 0
  {
    var resp := ScrResponse(raw);
    var ver := RspBits(resp, 60, 4);
    var spec := RspBits(resp, 56, 4);
    var width := RspBits(resp, 48, 4);
    forall s | s == 60 || s == 56 || s == 48
      ensures Field(LeNat(resp), s - 8, 4) == Bits(BeNat(raw), s, 4)
    {
      ScrFieldsAreExact(raw, s, 4);
      ShortFieldIsBits(BeNat(raw), s, 4);
    }
    scr := Scr(spec, width);
    err := if ver != 0 then EINVAL else 0;
  }

  // ------------------------------------------------------------------------
  // Switch-function status

  /** Memory image of a word buffer. */
  function BytesOf(w: seq<word>): (b: seq<byte>)
    ensures |b| == 4 * |w|
  {
    if |w| == 0 then [] else LeBytes(w[0]) + BytesOf(w[1..])
  }

  function SwapEnds(w: seq<word>): (r: seq<word>)
    ensures |r| == |w|
  {
    seq(|w|, i requires 0 <= i < |w| => Swap32(w[|w| - 1 - i]))
  }

  /** sdmmc_be512_to_bitfield512: words change places end for end in one pass. */
  method Be512ToBitfield512(buf: array<word>)
    requires buf.Length == 16
    modifies buf
    ensures buf[..] == SwapEnds(old(buf[..]))
  {
    for i := 0 to 8
      invariant forall k :: 0 <= k < i ==>
        buf[k] == Swap32(old(buf[15 - k])) && buf[15 - k] == Swap32(old(buf[k]))
      invariant forall k :: i <= k < 16 - i ==> buf[k] == old(buf[k])
    {
      var tmp0 := buf[i];
      var tmp1 := buf[15 - i];
      buf[i] := Swap32(tmp1);
      buf[15 - i] := Swap32(tmp0);
    }
    ghost var was := old(buf[..]);
    assert forall k :: 0 <= k < 8 ==> buf[..][k] == SwapEnds(was)[k];
    assert forall k :: 8 <= k < 16 ==> buf[..][k] == Swap32(old(buf[15 - k])) by {
      forall k | 8 <= k < 16 ensures buf[k] == Swap32(old(buf[15 - k])) {
        assert buf[15 - (15 - k)] == Swap32(old(buf[15 - k]));
      }
    }
  }

  lemma {:induction false} BytesOfAppend(a: seq<word>, w: word)
    ensures BytesOf(a + [w]) == BytesOf(a) + LeBytes(w)
  {
    if |a| == 0 {
      assert a + [w] == [w] && BytesOf([w][1..]) == [];
    } else {
      assert (a + [w])[1..] == a[1..] + [w];
      BytesOfAppend(a[1..], w);
    }
  }

  /** On bytes it is plain reversal: byte i goes to the mirrored place. */
  lemma {:induction false} SwapEndsReversesBytes(w: seq<word>)
    ensures BytesOf(SwapEnds(w)) == Reverse(BytesOf(w))
  {
    if |w| > 0 {
      assert SwapEnds(w) == SwapEnds(w[1..]) + [Swap32(w[0])];
      BytesOfAppend(SwapEnds(w[1..]), Swap32(w[0]));
      SwapReverses(w[0]);
      SwapEndsReversesBytes(w[1..]);
      assert Reverse(BytesOf(w)) == Reverse(BytesOf(w[1..])) + Reverse(LeBytes(w[0]));
    }
  }

  lemma SwapEndsIsInvolution(w: seq<word>)
    ensures SwapEnds(SwapEnds(w)) == w
  {
    forall i | 0 <= i < |w| ensures SwapEnds(SwapEnds(w))[i] == w[i] {
      SwapReverses(w[i]);
    }
  }

  /** SFUNC_STATUS_GROUP then reads the big-endian 512-bit status at the bit
      positions the specification gives: group g at [400 + 16(g-1), +16). */
  lemma StatusGroupBits(w: seq<word>, group: nat)
    requires |w| == 16 && 1 <= group <= 6
    ensures Field(LeNat(BytesOf(SwapEnds(w))), 400 + (group - 1) * 16, 16)
            == Bits(BeNat(BytesOf(w)), 400 + (group - 1) * 16, 16)
  {
    SwapEndsReversesBytes(w);
    BeIsReversedLe(BytesOf(w));
    ShortFieldIsBits(BeNat(BytesOf(w)), 400 + (group - 1) * 16, 16);
  }

  /** The argument of CMD6 as sdmmc_mem_sd_switch assembles it. */
  function SwitchBits(mode: bv32, func: bv32, gsft: bv6): bv32
    requires gsft <= 20
  {
    (mode << 31) | (func << gsft) | (0x00ff_ffff & !(0xf << gsft))
  }

  /** The shift of a function group, (group - 1) << 2. */
  function GroupShift(group: nat): (gsft: bv6)
    requires 1 <= group <= 6
    ensures gsft <= 20
  {
    match group
    case 1 => 0
    case 2 => 4
    case 3 => 8
    case 4 => 12
    case 5 => 16
    case _ => 20
  }

  /** None stands for EINVAL. */
  function SwitchArg(mode: bool, group: int, func: int): Option<bv32>
  {
    if group <= 0 || group > 6 || func < 0 || func > 15 then None
    else Some(SwitchBits(if mode then 1 else 0, func as bv32, GroupShift(group)))
  }

  /** Groups 1 to 6 and functions 0 to 15 are accepted.  The argument selects the
      function for the group, in the nibble 4 * (group - 1) bits up, leaves the five
      other groups at 0xf (no change), and has nothing but the mode bit above. */
  lemma SwitchArgSelectsOneGroup(mode: bool, group: int, other: nat, func: int)
    requires 1 <= other <= 6
    ensures SwitchArg(mode, group, func).Some? <==> 1 <= group <= 6 && 0 <= func < 16
    ensures SwitchArg(mode, group, func).Some? ==>
      var arg := SwitchArg(mode, group, func).value;
      && (arg >> (4 * (other - 1)) as bv6) & 0xf == (if other == group then func as bv32 else 0xf)
      && arg >> 24 == (if mode then 0x80 else 0)
  {
    if 1 <= group <= 6 && 0 <= func < 16 {
      var f := func as bv32;
      assert f <= 15;
      ShiftOfGroup(group);
      ShiftOfGroup(other);
      SwitchNibbles(if mode then 1 else 0, f, GroupShift(group), GroupShift(other));
    }
  }

  lemma ShiftOfGroup(group: nat)
    requires 1 <= group <= 6
    ensures GroupShift(group) == (4 * (group - 1)) as bv6
  {
  }

  lemma SwitchNibbles(m: bv32, f: bv32, g: bv6, j: bv6)
    requires m <= 1 && f <= 15
    requires g == 0 || g == 4 || g == 8 || g == 12 || g == 16 || g == 20
    requires j == 0 || j == 4 || j == 8 || j == 12 || j == 16 || j == 20
    ensures g <= 20 && j <= 20
    ensures (SwitchBits(m, f, g) >> j) & 0xf == if j == g then f else 0xf
    ensures SwitchBits(m, f, g) >> 24 == m << 7
  {
  }
}
