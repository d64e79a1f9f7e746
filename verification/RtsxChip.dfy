/** The card-reader chip as the driver sees it: the encoding of queued host
    commands, and an interpreter for programs of them. */
module RtsxChip {
  import opened Words
  import opened CardRegisters

  // Host command codes and chip registers (14-bit addresses on the wire).
  const READ_REG: byte := 0
  const WRITE_REG: byte := 1
  const CHECK_REG: byte := 2
  const HOSTCMD_MAX: nat := 256

  const PPBUF_BASE2: nat := 0xFA00
  const CARD_DATA_SOURCE: nat := 0xFD5B
  const SD_CFG2: nat := 0xFDA1
  const SD_CMD0: nat := 0xFDA9
  const SD_CMD1: nat := 0xFDAA
  const SD_CMD2: nat := 0xFDAB
  const SD_CMD3: nat := 0xFDAC
  const SD_CMD4: nat := 0xFDAD
  const SD_CMD5: nat := 0xFDAE
  const SD_BYTE_CNT_L: nat := 0xFDAF
  const SD_BYTE_CNT_H: nat := 0xFDB0
  const SD_BLOCK_CNT_L: nat := 0xFDB1
  const SD_BLOCK_CNT_H: nat := 0xFDB2
  const SD_TRANSFER: nat := 0xFDB3
  const IRQSTAT0: nat := 0xFE21
  const DMATC0: nat := 0xFE28
  const DMATC1: nat := 0xFE29
  const DMATC2: nat := 0xFE2A
  const DMATC3: nat := 0xFE2B
  const DMACTL: nat := 0xFE2C

  const TM_AUTO_WRITE3: byte := 0x01
  const TM_AUTO_READ3: byte := 0x05
  const TM_CMD_RSP: byte := 0x08
  const TRANSFER_START: byte := 0x80
  const TRANSFER_END_IDLE: byte := 0x60
  const TRANSFER_END: byte := 0x40
  const TRANSFER_ERR: byte := 0x10
  const COMMAND_DONE: byte := 0x68    // TM_CMD_RSP with END and IDLE
  const COMMAND_FAILED: byte := 0x18  // TM_CMD_RSP with ERR

  const RSP_R0: byte := 0x04
  const RSP_R1: byte := 0x01
  const RSP_R1B: byte := 0x09
  const RSP_R2: byte := 0x02
  const RSP_R3: byte := 0x05

  datatype HostCmd = HostCmd(op: byte, reg: nat, mask: byte, data: byte)

  // ------------------------------------------------------------------------
  // Encoding

  /** rtsx_hostcmd: the 32-bit word of one queued command. */
  function Encode(c: HostCmd): nat
  {
    Or(Or(Or(Shl(And(c.op, 0x3), 30), Shl(And(c.reg, 0x3fff), 16)), Shl(c.mask, 8)), c.data)
  }

  /** How the chip takes the word apart. */
  function Decode(w: nat): HostCmd
  {
    var q1: int := w / 0x100;
    var q2: int := w / 0x1_0000;
    var q3: int := w / 0x4000_0000;
    HostCmd(q3 % 4, q2 % 0x4000, q1 % 0x100, w % 0x100)
  }

  /** Or-ing a number below 2^k into a multiple of 2^k. */
  lemma OrLow(a: nat, y: nat, k: nat)
    requires a < Pow2(k)
    ensures Or(Shl(y, k), a) == Shl(y, k) + a
  {
    OrDisjoint(a, y, k);
    OrComm(Shl(y, k), a);
  }

  /** Two fields of the word, the low one a bits wide, placed at bit k. */
  lemma OrFields(hi: nat, lo: nat, a: nat, k: nat)
    requires lo < Pow2(a)
    ensures Or(Shl(hi, a + k), Shl(lo, k)) == Shl(hi * Pow2(a) + lo, k)
  {
    ShlAdd(hi, a, k);
    ShlIsMul(hi, a);
    ShlSum(Shl(hi, a), lo, k);
    ShlBelow(lo, a, k);
    OrLow(Shl(lo, k), hi, a + k);
  }

  lemma EncodeIsSum(c: HostCmd)
    ensures Encode(c) == (((c.op % 4) * 0x4000 + c.reg % 0x4000) * 0x100 + c.mask) * 0x100 + c.data
    ensures Encode(c) < WORD
  {
    hide Or, And, Shr, Low;
    var op: int, reg: int := c.op % 4, c.reg % 0x4000;
    assert Pow2(2) == 4 && Pow2(14) == 0x4000 && Pow2(8) == 0x100;
    AndMask(c.op, 2);
    AndMask(c.reg, 14);
    ShiftsAreArithmetic(c.op, 2);
    ShiftsAreArithmetic(c.reg, 14);
    var hi := op * 0x4000 + reg;
    OrFields(op, reg, 14, 16);
    OrFields(hi, c.mask, 8, 8);
    OrLow(c.data, hi * 0x100 + c.mask, 8);
    ShlIsMul(hi * 0x100 + c.mask, 8);
  }

  /** Decoding undoes encoding, up to the 14 address bits the word can hold. */
  lemma DecodeEncode(c: HostCmd)
    requires c.op < 4
    ensures Decode(Encode(c)) == c.(reg := c.reg % 0x4000)
  {
    EncodeIsSum(c);
    DecodeSum(Encode(c), c.op, c.reg % 0x4000, c.mask, c.data);
  }

  lemma DecodeSum(w: nat, op: nat, reg: nat, mask: nat, data: nat)
    requires op < 4 && reg < 0x4000 && mask < 0x100 && data < 0x100
    requires w == ((op * 0x4000 + reg) * 0x100 + mask) * 0x100 + data
    ensures Decode(w) == HostCmd(op, reg, mask, data)
  {
    var q2 := op * 0x4000 + reg;
    var q1 := q2 * 0x100 + mask;
    assert w / 0x100 == q1 && w % 0x100 == data;
    assert q1 / 0x100 == q2 && q1 % 0x100 == mask;
    assert q2 / 0x4000 == op && q2 % 0x4000 == reg;
    assert w / 0x1_0000 == q2;
    assert w / 0x4000_0000 == op;
  }

  // ------------------------------------------------------------------------
  // The chip

  /** What the card drives on the command line; payload and contents are
      arbitrary.  `tail` is what a long response leaves in SD_CMD5. */
  datatype Reply =
    | Silent
    | Short(header: byte, payload: word)
    | Long(header: byte, contents: seq<byte>, tail: byte)

  /** A command on the bus, and the response that SD_CFG2 makes the chip await. */
  datatype SdCommand = SdCommand(header: byte, arg: nat, awaited: byte)

  /** A started data transfer: direction, block geometry, DMA byte count, direction
      and packet size of the DMA, and the checks selected in SD_CFG2. */
  datatype Transfer = Transfer(fromCard: bool, blkLen: nat, blkCnt: nat, dmaCnt: nat, dmaFromCard: bool,
                               packSize: nat, checks: byte)

  /** Bit k of a register. */
  predicate Bit(n: nat, k: nat)
    decreases k
  {
    if k == 0 then n % 2 == 1 else Bit(n / 2, k - 1)
  }

  datatype Chip = Chip(
    regs: map<nat, byte>,
    sent: seq<SdCommand>,       // commands put on the bus, oldest first
    transfers: seq<Transfer>,   // data transfers started
    out: seq<byte>,             // bytes returned into the command buffer
    failed: bool)
  {
    predicate Valid()
    {
      forall r :: 0 <= r < 0x4000 ==> r in regs
    }

    /** The register at a 16-bit address, of which the chip sees 14 bits. */
    function Reg(r: nat): byte
      requires Valid()
    {
      regs[r % 0x4000]
    }

    function Set(r: nat, v: byte): (c: Chip)
      ensures Valid() ==> c.Valid()
    {
      this.(regs := regs[r % 0x4000 := v])
    }
  }

  /** A masked register write keeps the bits outside the mask. */
  function Masked(was: byte, mask: byte, data: byte): nat
  {
    Or(And(was, 255 - mask), And(data, mask))
  }

  lemma MaskedFull(was: byte, data: byte)
    ensures Masked(was, 255, data) == data
  {
    AndZero(was);
    assert Pow2(8) == 256;
    AndMask(data, 8);
    LowOfSmall(data, 8);
    OrZero(data);
  }

  /** And and Or of bytes are bytes. */
  lemma {:induction false} BitwiseBound(a: nat, b: nat, k: nat)
    requires a < Pow2(k) && b < Pow2(k)
    ensures And(a, b) < Pow2(k) && Or(a, b) < Pow2(k)
    decreases k
  {
    if k > 0 { BitwiseBound(a / 2, b / 2, k - 1); }
  }

  function MaskedByte(was: byte, mask: byte, data: byte): byte
  {
    assert Pow2(8) == 256;
    BitwiseBound(was, 255 - mask, 8);
    BitwiseBound(data, mask, 8);
    BitwiseBound(And(was, 255 - mask), And(data, mask), 8);
    Masked(was, mask, data)
  }

  lemma {:induction false} AndOrBits(a: nat, b: nat, k: nat)
    ensures Bit(And(a, b), k) <==> Bit(a, k) && Bit(b, k)
    ensures Bit(Or(a, b), k) <==> Bit(a, k) || Bit(b, k)
    decreases k
  {
    if k > 0 {
      assert And(a, b) / 2 == And(a / 2, b / 2) && Or(a, b) / 2 == Or(a / 2, b / 2);
      AndOrBits(a / 2, b / 2, k - 1);
    }
  }

  /** A masked write decides the bits under the mask. */
  lemma MaskedBit(was: byte, mask: byte, data: byte, k: nat)
    requires Bit(mask, k) && !Bit(255 - mask, k)
    ensures Bit(MaskedByte(was, mask, data), k) <==> Bit(data, k)
  {
    hide And, Or, Bit;
    var x, y := And(was, 255 - mask), And(data, mask);
    AndOrBits(was, 255 - mask, k);
    AndOrBits(data, mask, k);
    AndOrBits(x, y, k);
  }

  /** Response length selected by SD_CFG2: none, 6 bytes, 17 bytes. */
  function RspLength(cfg2: byte): nat
  {
    match cfg2 % 4
    case 1 => 6
    case 2 => 17
    case _ => 0
  }

  function CommandInRegs(c: Chip): SdCommand
    requires c.Valid()
  {
    SdCommand(c.Reg(SD_CMD0), BeNat([c.Reg(SD_CMD1), c.Reg(SD_CMD2), c.Reg(SD_CMD3), c.Reg(SD_CMD4)]), c.Reg(SD_CFG2))
  }

  /** The data source selected: the ring buffer of the DMA, or the ping-pong
      buffer. */
  predicate PingPong(c: Chip)
    requires c.Valid()
  {
    Bit(c.Reg(CARD_DATA_SOURCE), 0)
  }

  /** The DMA is enabled, and its last interrupt has been acknowledged. */
  predicate DmaReady(c: Chip)
    requires c.Valid()
  {
    Bit(c.Reg(DMACTL), 0) && Bit(c.Reg(IRQSTAT0), 7)
  }

  /** Bits 4 and 5 of DMACTL: packets of 128, 256, 512 or 1024 bytes. */
  function PackSize(ctl: byte): nat
  {
    128 * (if Bit(ctl, 4) then 2 else 1) * (if Bit(ctl, 5) then 4 else 1)
  }

  /** Transfer mode CMD_RSP: send SD_CMD0..4, store the response in SD_CMD0..4
      (short) or in ping-pong buffer 2 (long), and set END and IDLE; a card that
      does not answer as expected leaves the error bit instead, and so does a chip
      whose ping-pong buffer is not selected. */
  function SendCommand(c: Chip, reply: Reply): (c': Chip)
    requires c.Valid()
    ensures c'.Valid()
  {
    var s := c.(sent := c.sent + [CommandInRegs(c)]);
    if !PingPong(c) then s.Set(SD_TRANSFER, COMMAND_FAILED)
    else match (RspLength(c.Reg(SD_CFG2)), reply)
    case (0, _) => s.Set(SD_TRANSFER, COMMAND_DONE)
    case (6, Short(h, p)) =>
      var b := Reverse(LeBytes(p));
      s.Set(SD_CMD0, h).Set(SD_CMD1, b[0]).Set(SD_CMD2, b[1]).Set(SD_CMD3, b[2]).Set(SD_CMD4, b[3])
       .Set(SD_TRANSFER, COMMAND_DONE)
    case (17, Long(h, d, t)) =>
      StorePingPong(s.Set(SD_CMD5, t), [h] + d, 0).Set(SD_TRANSFER, COMMAND_DONE)
    case _ => s.Set(SD_TRANSFER, COMMAND_FAILED)
  }

  /** The first 16 bytes of a long response go to ping-pong buffer 2. */
  function StorePingPong(c: Chip, d: seq<byte>, i: nat): (c': Chip)
    requires c.Valid()
    ensures c'.Valid()
    decreases 16 - i
  {
    if i < 16 && i < |d| then StorePingPong(c.Set(PPBUF_BASE2 + i, d[i]), d, i + 1) else c
  }

  function TransferInRegs(c: Chip, fromCard: bool): Transfer
    requires c.Valid()
  {
    Transfer(fromCard,
             LeNat([c.Reg(SD_BYTE_CNT_L), c.Reg(SD_BYTE_CNT_H)]),
             LeNat([c.Reg(SD_BLOCK_CNT_L), c.Reg(SD_BLOCK_CNT_H)]),
             LeNat([c.Reg(DMATC0), c.Reg(DMATC1), c.Reg(DMATC2), c.Reg(DMATC3)]),
             Bit(c.Reg(DMACTL), 1), PackSize(c.Reg(DMACTL)), c.Reg(SD_CFG2))
  }

  /** Writing SD_TRANSFER with the start bit set triggers the selected mode.  Data
      go through the ring buffer, by a DMA that is ready. */
  function StartTransfer(c: Chip, mode: byte, reply: Reply): (c': Chip)
    requires c.Valid()
    ensures c'.Valid()
  {
    if mode == TM_CMD_RSP then SendCommand(c, reply)
    else if (mode == TM_AUTO_READ3 || mode == TM_AUTO_WRITE3) && DmaReady(c) && !PingPong(c) then
      c.(transfers := c.transfers + [TransferInRegs(c, mode == TM_AUTO_READ3)])
       .Set(SD_TRANSFER, TRANSFER_END_IDLE)
    else c.Set(SD_TRANSFER, TRANSFER_ERR)
  }

  function Step(c: Chip, cmd: HostCmd, reply: Reply): (c': Chip)
    requires c.Valid()
    ensures c'.Valid()
  {
    if c.failed then c
    else if cmd.op == READ_REG then c.(out := c.out + [c.Reg(cmd.reg)])
    else if cmd.op == WRITE_REG then
      var v := MaskedByte(c.Reg(cmd.reg), cmd.mask, cmd.data);
      if cmd.reg % 0x4000 == SD_TRANSFER % 0x4000 && v >= TRANSFER_START
      then StartTransfer(c, v % 16, reply)
      else c.Set(cmd.reg, v)
    else if cmd.op == CHECK_REG && And(c.Reg(cmd.reg), cmd.mask) == cmd.data
    then c.(out := c.out + [c.Reg(cmd.reg)])
    else c.(failed := true)
  }

  /** The chip executes queued commands in order. */
  function Run(c: Chip, cmds: seq<HostCmd>, reply: Reply): (c': Chip)
    requires c.Valid()
    ensures c'.Valid()
    decreases |cmds|
  {
    if |cmds| == 0 then c else Run(Step(c, cmds[0], reply), cmds[1..], reply)
  }

  /** What it reads from a command buffer. */
  function DecodeAll(words: seq<nat>): (cmds: seq<HostCmd>)
    ensures |cmds| == |words|
  {
    seq(|words|, i requires 0 <= i < |words| => Decode(words[i]))
  }

  function EncodeAll(cmds: seq<HostCmd>): (words: seq<nat>)
    ensures |words| == |cmds|
  {
    seq(|cmds|, i requires 0 <= i < |cmds| => Encode(cmds[i]))
  }

  /** Registers are addressed modulo 2^14, so the chip runs the program that was
      queued: encoding and decoding lose nothing it can see. */
  lemma {:induction false} RunDecoded(c: Chip, cmds: seq<HostCmd>, reply: Reply)
    requires c.Valid() && forall i :: 0 <= i < |cmds| ==> cmds[i].op < 4
    ensures Run(c, DecodeAll(EncodeAll(cmds)), reply) == Run(c, cmds, reply)
    decreases |cmds|
  {
    if |cmds| > 0 {
      DecodeEncode(cmds[0]);
      assert DecodeAll(EncodeAll(cmds))[1..] == DecodeAll(EncodeAll(cmds[1..]));
      StepSeesLowAddress(c, cmds[0], reply);
      RunDecoded(Step(c, cmds[0], reply), cmds[1..], reply);
    }
  }

  lemma StepSeesLowAddress(c: Chip, cmd: HostCmd, reply: Reply)
    requires c.Valid()
    ensures Step(c, cmd.(reg := cmd.reg % 0x4000), reply) == Step(c, cmd, reply)
  {
    hide StartTransfer, MaskedByte;
  }
}
