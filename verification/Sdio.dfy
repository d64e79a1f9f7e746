/** SDIO data transfers: packing of the CMD53 argument, and the loops that cut a
    transfer into commands. */
module Sdio {
  import opened Prelude
  import opened Words
  import opened FlatDisk

  const LENGTH_MAX: nat := 511
  const REGISTERS: nat := 0x2_0000

  /** One extended command, as the card understands it. */
  datatype Cmd53 = Cmd53(write: bool, func: nat, blockMode: bool, increment: bool, reg: nat, length: nat)

  function Bit(b: bool): nat { if b then 1 else 0 }

  /** The flags a caller passes in: direction, block mode, increment. */
  function Flags(write: bool, blockMode: bool, increment: bool): nat
  {
    Or(Or(Shl(Bit(write), 31), Shl(Bit(increment), 26)), Shl(Bit(blockMode), 27))
  }

  /** sdmmc_io_rw_extended_subr: function number, register and length are masked
      and or-ed into the flags. */
  function PackArg(c: Cmd53): nat
  {
    Or(Or(Or(Flags(c.write, c.blockMode, c.increment), Shl(And(c.func, 0x7), 28)),
          Shl(And(c.reg, 0x1_ffff), 9)), And(c.length, 0x1ff))
  }

  /** Section 5.3 of the SDIO Simplified Specification. */
  function UnpackArg(arg: nat): Cmd53
  {
    Cmd53(Bits(arg, 31, 1) == 1, Bits(arg, 28, 3), Bits(arg, 27, 1) == 1, Bits(arg, 26, 1) == 1,
          Bits(arg, 9, 17), Bits(arg, 0, 9))
  }

  lemma {:induction false} ShrOr(a: nat, b: nat, k: nat)
    ensures Shr(Or(a, b), k) == Or(Shr(a, k), Shr(b, k))
    decreases k
  {
    if k > 0 {
      assert Or(a, b) / 2 == Or(a / 2, b / 2);
      ShrOr(a / 2, b / 2, k - 1);
    }
  }

  lemma {:induction false} LowOr(a: nat, b: nat, k: nat)
    ensures Low(Or(a, b), k) == Or(Low(a, k), Low(b, k))
    decreases k
  {
    if k > 0 {
      LowOr(a / 2, b / 2, k - 1);
      OrHalves(a, b);
      var la, lb := Low(a / 2, k - 1), Low(b / 2, k - 1);
      OrHalves(a % 2 + 2 * la, b % 2 + 2 * lb);
    }
  }

  /** The or of two numbers, from the lowest bit up. */
  lemma OrHalves(a: nat, b: nat)
    ensures Or(a, b) / 2 == Or(a / 2, b / 2)
    ensures Or(a, b) % 2 == if a % 2 == 1 || b % 2 == 1 then 1 else 0
  {
  }

  /** Bit strings of an or are ors of bit strings. */
  lemma BitsOr(a: nat, b: nat, s: nat, l: nat)
    ensures Bits(Or(a, b), s, l) == Or(Bits(a, s, l), Bits(b, s, l))
  {
    ShrOr(a, b, s);
    LowOr(Shr(a, s), Shr(b, s), l);
  }

  /** A w-bit field placed at bit k, read at [s, s + l). */
  lemma PlacedField(x: nat, w: nat, k: nat, s: nat, l: nat)
    requires x < Pow2(w)
    requires (s == k && l == w) || s + l <= k || k + w <= s
    ensures Bits(Shl(x, k), s, l) == if s == k && l == w then x else 0
  {
    if s == k && l == w {
      ShrAfterShl(x, k, k);
      LowOfSmall(x, w);
    } else if s + l <= k {
      ShrAfterShl(x, k, s);
      Pow2Mono(0, l);
      ShlAdd(x, k - s - l, l);
      Join(0, Shl(x, k - s - l), l);
    } else {
      ShrAfterShl(x, k, k);
      Pow2Mono(w, s - k);
      LowOfSmall(x, s - k);
      ShrAdd(Shl(x, k), k, s - k);
      LowOfSmall(0, l);
    }
  }

  lemma {:induction false} ShrAfterShl(x: nat, k: nat, s: nat)
    requires s <= k
    ensures Shr(Shl(x, k), s) == Shl(x, k - s)
    decreases s
  {
    if s > 0 { ShrAfterShl(x, k - 1, s - 1); }
  }

  predicate FieldBounds(s: nat, l: nat)
  {
    (s, l) == (31, 1) || (s, l) == (28, 3) || (s, l) == (27, 1) || (s, l) == (26, 1) || (s, l) == (9, 17)
    || (s, l) == (0, 9)
  }

  /** The fields do not overlap: each one is read back on its own. */
  lemma ArgField(c: Cmd53, s: nat, l: nat)
    requires c.func < 8 && c.reg < REGISTERS && c.length <= LENGTH_MAX && FieldBounds(s, l)
    ensures Bits(PackArg(c), s, l) ==
      if s == 31 then Bit(c.write) else if s == 28 then c.func else if s == 27 then Bit(c.blockMode)
      else if s == 26 then Bit(c.increment) else if s == 9 then c.reg else c.length
  {
    hide Or, And, Shl, Shr, Low, Bits;
    MaskedFields(c);
    var w, i, b := Shl(Bit(c.write), 31), Shl(Bit(c.increment), 26), Shl(Bit(c.blockMode), 27);
    var f, r, n := Shl(c.func, 28), Shl(c.reg, 9), Shl(c.length, 0);
    BitsOr(Or(Or(Or(Or(w, i), b), f), r), n, s, l);
    BitsOr(Or(Or(Or(w, i), b), f), r, s, l);
    BitsOr(Or(Or(w, i), b), f, s, l);
    BitsOr(Or(w, i), b, s, l);
    BitsOr(w, i, s, l);
    FieldSizes();
    PlacedField(Bit(c.write), 1, 31, s, l);
    PlacedField(Bit(c.increment), 1, 26, s, l);
    PlacedField(Bit(c.blockMode), 1, 27, s, l);
    PlacedField(c.func, 3, 28, s, l);
    PlacedField(c.reg, 17, 9, s, l);
    PlacedField(c.length, 9, 0, s, l);
    OrZero(Bits(w, s, l));
    OrZero(Bits(i, s, l));
    OrZero(Bits(b, s, l));
    OrZero(Bits(f, s, l));
    OrZero(Bits(r, s, l));
    OrZero(Bits(n, s, l));
    OrZero(0);
  }

  lemma FieldSizes()
    ensures Pow2(1) == 2 && Pow2(3) == 8 && Pow2(9) == 512 && Pow2(17) == REGISTERS
  {
    Pow2Times256(9);
    assert Pow2(9) == 512;
  }

  lemma MaskedFields(c: Cmd53)
    requires c.func < 8 && c.reg < REGISTERS && c.length <= LENGTH_MAX
    ensures And(c.func, 0x7) == c.func && And(c.reg, 0x1_ffff) == c.reg && And(c.length, 0x1ff) == c.length
    ensures Shl(c.length, 0) == c.length
  {
    hide And, Low;
    FieldSizes();
    AndMask(c.func, 3);
    AndMask(c.reg, 17);
    AndMask(c.length, 9);
    LowOfSmall(c.func, 3);
    LowOfSmall(c.reg, 17);
    LowOfSmall(c.length, 9);
  }

  /** Packing loses nothing that fits its field. */
  lemma UnpackPack(c: Cmd53)
    requires c.func < 8 && c.reg < REGISTERS && c.length <= LENGTH_MAX
    ensures UnpackArg(PackArg(c)) == c
  {
    hide PackArg, Bits;
    ArgField(c, 31, 1);
    ArgField(c, 28, 3);
    ArgField(c, 27, 1);
    ArgField(c, 26, 1);
    ArgField(c, 9, 17);
    ArgField(c, 0, 9);
  }

  // ------------------------------------------------------------------------
  // The card

  /** Registers from..from+n-1 of an incrementing command, or n times the same
      register. */
  function Touched(c: Cmd53, n: nat): (t: seq<nat>)
    ensures |t| == n
  {
    seq(n, i => if c.increment then c.reg + i else c.reg)
  }

  function StreamBytes(stream: nat -> byte, from: nat, n: nat): (d: seq<byte>)
    ensures |d| == n
  {
    seq(n, i requires 0 <= i => stream(from + i))
  }

  /** An I/O function: its register space, and a port at any fixed address that
      delivers a stream when read and records what is written.  `accesses` is the
      register of every byte moved, `log` every command. */
  class IoCard {
    const blkLen: nat
    const stream: nat -> byte
    const fate: nat -> int
    var space: seq<byte>
    var taken: nat
    var written: seq<byte>
    var log: seq<Cmd53>
    var accesses: seq<nat>

    constructor (blkLen: nat, space: seq<byte>, stream: nat -> byte, fate: nat -> int)
      requires |space| == REGISTERS
      ensures this.blkLen == blkLen && this.space == space && this.stream == stream && this.fate == fate
      ensures taken == 0 && written == [] && log == [] && accesses == []
    {
      this.blkLen, this.space, this.stream, this.fate := blkLen, space, stream, fate;
      taken, written, log, accesses := 0, [], [], [];
    }

    /** Bytes a command asks for: a byte count of 0 stands for 512. */
    function Count(c: Cmd53): nat
    {
      if c.blockMode then c.length * blkLen else if c.length == 0 then 512 else c.length
    }

    /** Execute a command on `len` bytes of host memory. */
    method Extended(arg: nat, data: array<byte>, off: nat, len: nat) returns (err: int)
      requires |space| == REGISTERS && off + len <= data.Length
      modifies this, data
      ensures |space| == REGISTERS
      ensures err == 0 ==>
        var c := UnpackArg(arg);
        && len == Count(c) && (c.increment ==> c.reg + len <= REGISTERS)
        && log == old(log) + [c]
        && accesses == old(accesses) + Touched(c, len)
        && data[..] == (if c.write then old(data[..])
                        else Spliced(old(data[..]), off,
                                     if c.increment then old(space)[c.reg..c.reg + len]
                                     else StreamBytes(stream, old(taken), len)))
        && taken == old(taken) + (if c.write || c.increment then 0 else len)
        && space == (if c.write && c.increment then Spliced(old(space), c.reg, old(data[off..off + len]))
                     else old(space))
        && written == old(written) + (if c.write && !c.increment then old(data[off..off + len]) else [])
      ensures fate(|old(log)|) != 0 ==> err == fate(|old(log)|)
      ensures err != 0 ==>
        fate(|old(log)|) != 0
        || len != Count(UnpackArg(arg)) || (UnpackArg(arg).increment && UnpackArg(arg).reg + len > REGISTERS)
    {
      hide UnpackArg, Touched, StreamBytes, Spliced;
      var c := UnpackArg(arg);
      err := fate(|log|);
      if err != 0 {
        return;
      }
      if len != Count(c) || (c.increment && c.reg + len > REGISTERS) {
        return EIO;
      }
      log := log + [c];
      accesses := accesses + Touched(c, len);
      if c.write {
        if c.increment {
          space := Spliced(space, c.reg, data[off..off + len]);
        } else {
          written := written + data[off..off + len];
        }
      } else {
        var d := if c.increment then space[c.reg..c.reg + len] else StreamBytes(stream, taken, len);
        if !c.increment {
          taken := taken + len;
        }
        Deliver(data, off, d);
      }
    }
  }

  // ------------------------------------------------------------------------
  // The driver's loops

  /** No command fails. */
  ghost predicate Healthy(card: IoCard)
  {
    forall t :: card.fate(t) == 0
  }

  /** A count the nine-bit field can hold and that does not mean something
      else. */
  predicate GoodLength(c: Cmd53) { 0 < c.length <= LENGTH_MAX }

  /** The new commands have such a count, and all name this function, direction and
      kind of addressing. */
  ghost predicate LogGrew(log: seq<Cmd53>, was: seq<Cmd53>, func: nat, write: bool, increment: bool)
  {
    && was <= log
    && forall k :: |was| <= k < |log| ==>
         GoodLength(log[k]) && log[k].func == func && log[k].write == write && log[k].increment == increment
  }

  /** sdmmc_io_rw_extended for a transfer of n blocks or n bytes. */
  method RwExtended(card: IoCard, func: nat, write: bool, blockMode: bool, increment: bool, reg: nat,
                    data: array<byte>, off: nat, n: nat) returns (err: int, len: nat)
    requires |card.space| == REGISTERS && func < 8 && reg < REGISTERS && 0 < n <= LENGTH_MAX
    requires off + (if blockMode then n * card.blkLen else n) <= data.Length
    modifies card, data
    ensures |card.space| == REGISTERS
    ensures len == if blockMode then n * card.blkLen else n
    ensures err == 0 ==>
      && (increment ==> reg + len <= REGISTERS)
      && card.log == old(card.log) + [Cmd53(write, func, blockMode, increment, reg, n)]
      && card.accesses == old(card.accesses) + Touched(Cmd53(write, func, blockMode, increment, reg, n), len)
      && data[..] == (if write then old(data[..])
                      else Spliced(old(data[..]), off,
                                   if increment then old(card.space)[reg..reg + len]
                                   else StreamBytes(card.stream, old(card.taken), len)))
      && card.taken == old(card.taken) + (if write || increment then 0 else len)
      && card.space == (if write && increment then Spliced(old(card.space), reg, old(data[off..off + len]))
                        else old(card.space))
      && card.written == old(card.written) + (if write && !increment then old(data[off..off + len]) else [])
    ensures Healthy(card) && (increment ==> reg + len <= REGISTERS) ==> err == 0
  {
    hide PackArg, UnpackArg, Spliced, Touched;
    var c := Cmd53(write, func, blockMode, increment, reg, n);
    UnpackPack(c);
    len := if blockMode then n * card.blkLen else n;
    err := card.Extended(PackArg(c), data, off, len);
  }

  /** Registers from reg on, in order. */
  function Registers(reg: nat, n: nat): (t: seq<nat>)
    ensures |t| == n
  {
    seq(n, i => reg + i)
  }

  lemma RegistersAppend(reg: nat, a: nat, b: nat)
    ensures Registers(reg, a) + Registers(reg + a, b) == Registers(reg, a + b)
  {
  }

  /** How many blocks the next command takes, and what that leaves. */
  lemma NextBlocks(rest: nat, blkLen: nat)
    requires 0 < blkLen <= rest
    ensures
      var blocks := Min(rest / blkLen, LENGTH_MAX);
      0 < blocks <= LENGTH_MAX && 0 < blocks * blkLen <= rest
  {
    var q := rest / blkLen;
    assert rest == q * blkLen + rest % blkLen;
    assert q != 0;
    var blocks := Min(q, LENGTH_MAX);
    MulGe(blocks, blkLen);
    Distribute(q, blocks, blkLen);
    if q > blocks { MulGe(q - blocks, blkLen); }
  }

  /** What one command of a region transfer has done. */
  ghost predicate RegionDone(write: bool, reg: nat, n: nat, space: seq<byte>, space0: seq<byte>,
                             data: seq<byte>, data0: seq<byte>, accesses: seq<nat>, accesses0: seq<nat>)
  {
    && |space| == |space0| == REGISTERS && |data| == |data0| >= n && reg + n <= REGISTERS
    && accesses == accesses0 + Registers(reg, n)
    && data == (if write then data0 else Spliced(data0, 0, space0[reg..reg + n]))
    && space == (if write then Spliced(space0, reg, data0[..n]) else space0)
  }

  lemma RegionMore(write: bool, reg: nat, n: nat, len: nat, space: seq<byte>, space1: seq<byte>, space0: seq<byte>,
                   data: seq<byte>, data1: seq<byte>, data0: seq<byte>,
                   accesses: seq<nat>, accesses1: seq<nat>, accesses0: seq<nat>)
    requires RegionDone(write, reg, n, space1, space0, data1, data0, accesses1, accesses0)
    requires n + len <= |data0| && reg + n + len <= REGISTERS
    requires accesses == accesses1 + Registers(reg + n, len)
    requires data == if write then data1 else Spliced(data1, n, space1[reg + n..reg + n + len])
    requires space == if write then Spliced(space1, reg + n, data1[n..n + len]) else space1
    ensures RegionDone(write, reg, n + len, space, space0, data, data0, accesses, accesses0)
  {
    hide Spliced;
    RegistersAppend(reg, n, len);
    if write {
      SpliceAppend(space0, reg, data0[..n], data0[n..n + len]);
      assert data0[..n] + data0[n..n + len] == data0[..n + len];
    } else {
      SpliceAppend(data0, 0, space0[reg..reg + n], space0[reg + n..reg + n + len]);
      assert space0[reg..reg + n] + space0[reg + n..reg + n + len] == space0[reg..reg + n + len];
    }
  }

  /** sdmmc_io_read_region_1 and sdmmc_io_write_region_1: registers
      reg..reg+datalen-1, once each and in order. */
  method RegionTransfer(card: IoCard, func: nat, write: bool, reg: nat, data: array<byte>, datalen: nat)
    returns (err: int)
    requires |card.space| == REGISTERS && func < 8 && 0 < card.blkLen <= 512
    requires datalen <= data.Length && reg + datalen <= REGISTERS
    modifies card, data
    ensures err == 0 ==>
      && RegionDone(write, reg, datalen, card.space, old(card.space), data[..], old(data[..]),
                    card.accesses, old(card.accesses))
      && LogGrew(card.log, old(card.log), func, write, true)
      && card.written == old(card.written) && card.taken == old(card.taken)
    ensures Healthy(card) ==> err == 0
  {
    hide RegionDone, Spliced;
    var done, rest := 0, datalen;
    err := 0;
    var len;
    RegionStart(write, reg, card.space, data[..], card.accesses);
    while rest >= card.blkLen
      invariant 0 <= rest && done + rest == datalen && |card.space| == REGISTERS && err == 0
      invariant RegionDone(write, reg, done, card.space, old(card.space), data[..], old(data[..]),
                           card.accesses, old(card.accesses))
      invariant LogGrew(card.log, old(card.log), func, write, true)
      invariant card.written == old(card.written) && card.taken == old(card.taken)
    {
      NextBlocks(rest, card.blkLen);
      var blocks := Min(rest / card.blkLen, LENGTH_MAX);
      ghost var space1, data1, accesses1 := card.space, data[..], card.accesses;
      err, len := RwExtended(card, func, write, true, true, reg + done, data, done, blocks);
      if err != 0 {
        return;
      }
      RegionMore(write, reg, done, len, card.space, space1, old(card.space), data[..], data1, old(data[..]),
                 card.accesses, accesses1, old(card.accesses));
      done, rest := done + len, rest - len;
    }
    if rest != 0 {
      ghost var space1, data1, accesses1 := card.space, data[..], card.accesses;
      err, len := RwExtended(card, func, write, false, true, reg + done, data, done, rest);
      if err == 0 {
        RegionMore(write, reg, done, len, card.space, space1, old(card.space), data[..], data1, old(data[..]),
                   card.accesses, accesses1, old(card.accesses));
      }
    }
  }

  lemma RegionStart(write: bool, reg: nat, space: seq<byte>, data: seq<byte>, accesses: seq<nat>)
    requires |space| == REGISTERS && reg <= REGISTERS
    ensures RegionDone(write, reg, 0, space, space, data, data, accesses, accesses)
  {
  }

  /** What a transfer through one register has done. */
  ghost predicate PortDone(write: bool, reg: nat, n: nat, stream: nat -> byte, taken: nat, taken0: nat,
                           written: seq<byte>, written0: seq<byte>, data: seq<byte>, data0: seq<byte>,
                           accesses: seq<nat>, accesses0: seq<nat>)
  {
    && |data| == |data0| >= n
    && accesses == accesses0 + seq(n, i => reg)
    && data == (if write then data0 else Spliced(data0, 0, StreamBytes(stream, taken0, n)))
    && taken == taken0 + (if write then 0 else n)
    && written == written0 + (if write then data0[..n] else [])
  }

  lemma StreamAppend(stream: nat -> byte, from: nat, n: nat, len: nat)
    ensures StreamBytes(stream, from, n) + StreamBytes(stream, from + n, len) == StreamBytes(stream, from, n + len)
  {
  }

  lemma {:induction false} PortMore(write: bool, c: Cmd53, n: nat, len: nat, stream: nat -> byte,
                                    taken: nat, taken1: nat, taken0: nat,
                                    written: seq<byte>, written1: seq<byte>, written0: seq<byte>,
                                    data: seq<byte>, data1: seq<byte>, data0: seq<byte>,
                                    accesses: seq<nat>, accesses1: seq<nat>, accesses0: seq<nat>)
    requires PortDone(write, c.reg, n, stream, taken1, taken0, written1, written0, data1, data0, accesses1, accesses0)
    requires n + len <= |data0| && !c.increment
    requires accesses == accesses1 + Touched(c, len)
    requires data == if write then data1 else Spliced(data1, n, StreamBytes(stream, taken1, len))
    requires taken == taken1 + (if write then 0 else len)
    requires written == written1 + (if write then data1[n..n + len] else [])
    ensures PortDone(write, c.reg, n + len, stream, taken, taken0, written, written0, data, data0, accesses, accesses0)
  {
    hide Spliced, StreamBytes;
    assert seq(n, i => c.reg) + Touched(c, len) == seq(n + len, i => c.reg);
    if write {
      assert data0[..n] + data0[n..n + len] == data0[..n + len];
    } else {
      SpliceAppend(data0, 0, StreamBytes(stream, taken0, n), StreamBytes(stream, taken0 + n, len));
      StreamAppend(stream, taken0, n, len);
    }
  }

  lemma PortStart(write: bool, reg: nat, stream: nat -> byte, taken: nat, written: seq<byte>, data: seq<byte>,
                  accesses: seq<nat>)
    ensures PortDone(write, reg, 0, stream, taken, taken, written, written, data, data, accesses, accesses)
  {
  }

  /** sdmmc_io_read_multi_1 and sdmmc_io_write_multi_1: exactly datalen bytes, all
      at the same register, in stream order. */
  method MultiTransfer(card: IoCard, func: nat, write: bool, reg: nat, data: array<byte>, datalen: nat)
    returns (err: int)
    requires |card.space| == REGISTERS && func < 8 && 0 < card.blkLen <= 512
    requires datalen <= data.Length && reg < REGISTERS
    modifies card, data
    ensures err == 0 ==>
      && PortDone(write, reg, datalen, card.stream, card.taken, old(card.taken), card.written, old(card.written),
                  data[..], old(data[..]), card.accesses, old(card.accesses))
      && LogGrew(card.log, old(card.log), func, write, false)
      && card.space == old(card.space)
    ensures Healthy(card) ==> err == 0
  {
    hide Spliced, Touched, PortDone, StreamBytes;
    var done, rest := 0, datalen;
    err := 0;
    var len;
    PortStart(write, reg, card.stream, card.taken, card.written, data[..], card.accesses);
    while rest >= card.blkLen
      invariant 0 <= rest && done + rest == datalen && |card.space| == REGISTERS && err == 0
      invariant PortDone(write, reg, done, card.stream, card.taken, old(card.taken), card.written, old(card.written),
                         data[..], old(data[..]), card.accesses, old(card.accesses))
      invariant LogGrew(card.log, old(card.log), func, write, false)
      invariant card.space == old(card.space)
    {
      NextBlocks(rest, card.blkLen);
      var blocks := Min(rest / card.blkLen, LENGTH_MAX);
      ghost var t1, w1, d1, a1 := card.taken, card.written, data[..], card.accesses;
      err, len := RwExtended(card, func, write, true, false, reg, data, done, blocks);
      if err != 0 {
        return;
      }
      PortMore(write, Cmd53(write, func, true, false, reg, blocks), done, len, card.stream,
               card.taken, t1, old(card.taken), card.written, w1, old(card.written),
               data[..], d1, old(data[..]), card.accesses, a1, old(card.accesses));
      done, rest := done + len, rest - len;
    }
    if rest != 0 {
      ghost var t1, w1, d1, a1 := card.taken, card.written, data[..], card.accesses;
      err, len := RwExtended(card, func, write, false, false, reg, data, done, rest);
      if err == 0 {
        PortMore(write, Cmd53(write, func, false, false, reg, rest), done, len, card.stream,
                 card.taken, t1, old(card.taken), card.written, w1, old(card.written),
                 data[..], d1, old(data[..]), card.accesses, a1, old(card.accesses));
      }
    }
  }
}
