/** The host-command queue: how the driver compiles an SD command into a program
    of register commands, what the chip does when it runs that program, and how
    the response bytes are put together again. */
module HostCommand {
  import opened Words
  import opened Bitfield
  import opened CardRegisters
  import opened RtsxChip

  // ------------------------------------------------------------------------
  // Programs, as the driver queues them

  function Write(reg: nat, mask: byte, data: byte): HostCmd { HostCmd(WRITE_REG, reg, mask, data) }

  function Read(reg: nat): HostCmd { HostCmd(READ_REG, reg, 0, 0) }

  function Check(reg: nat, mask: byte, data: byte): HostCmd { HostCmd(CHECK_REG, reg, mask, data) }

  function Reads(rs: seq<nat>): (p: seq<HostCmd>)
    ensures |p| == |rs|
  {
    seq(|rs|, i requires 0 <= i < |rs| => Read(rs[i]))
  }

  /** Registers that hold the response, in the order they are read back. */
  function ResponseRegs(rsp: byte): seq<nat>
  {
    if rsp == RSP_R2 then seq(15, i => PPBUF_BASE2 + 15 - i) + [SD_CMD5]
    else if rsp != RSP_R0 then seq(5, i => SD_CMD0 + i)
    else []
  }

  function Header(opcode: nat): byte { Or(0x40, opcode) % 256 }

  function ExecHead(opcode: nat, arg: word, rsp: byte): seq<HostCmd>
  {
    var a := LeBytes(arg);
    [ Write(SD_CMD0, 0xff, Header(opcode)),
      Write(SD_CMD1, 0xff, a[3]),
      Write(SD_CMD2, 0xff, a[2]),
      Write(SD_CMD3, 0xff, a[1]),
      Write(SD_CMD4, 0xff, a[0]),
      Write(SD_CFG2, 0xff, rsp),
      Write(CARD_DATA_SOURCE, 0x01, 0x01),
      Write(SD_TRANSFER, 0xff, TM_CMD_RSP + TRANSFER_START),
      Check(SD_TRANSFER, TRANSFER_END_IDLE, TRANSFER_END_IDLE) ]
  }

  /** The program rtsx_exec_command queues for one SD command. */
  function ExecProgram(opcode: nat, arg: word, rsp: byte): seq<HostCmd>
  {
    ExecHead(opcode, arg, rsp) + Reads(ResponseRegs(rsp))
  }

  /** rtsx_hostcmd: append one word to the buffer. */
  method Append(cmdbuf: array<nat>, n: nat, cmd: HostCmd, ghost queued: seq<HostCmd>) returns (n': nat)
    requires n < cmdbuf.Length && cmdbuf[..n] == EncodeAll(queued)
    modifies cmdbuf
    ensures n' == n + 1
    ensures cmdbuf[..n'] == EncodeAll(queued + [cmd])
  {
    cmdbuf[n] := Encode(cmd);
    n' := n + 1;
    assert EncodeAll(queued + [cmd]) == EncodeAll(queued) + [Encode(cmd)];
  }

  /** The queueing part of rtsx_exec_command: command, argument, response type,
      start and check. */
  method BuildExecHead(cmdbuf: array<nat>, opcode: nat, arg: word, rsp: byte) returns (n: nat)
    requires cmdbuf.Length == HOSTCMD_MAX
    modifies cmdbuf
    ensures n == 9 && cmdbuf[..n] == EncodeAll(ExecHead(opcode, arg, rsp))
  {
    hide Encode, LeBytes, Header;
    ghost var q := ExecHead(opcode, arg, rsp);
    var a := LeBytes(arg);
    assert q[..0] == [];
    n := Append(cmdbuf, 0, HostCmd(WRITE_REG, SD_CMD0, 0xff, Header(opcode)), q[..0]);
    n := Append(cmdbuf, n, HostCmd(WRITE_REG, SD_CMD1, 0xff, a[3]), q[..1]);
    n := Append(cmdbuf, n, HostCmd(WRITE_REG, SD_CMD2, 0xff, a[2]), q[..2]);
    n := Append(cmdbuf, n, HostCmd(WRITE_REG, SD_CMD3, 0xff, a[1]), q[..3]);
    n := Append(cmdbuf, n, HostCmd(WRITE_REG, SD_CMD4, 0xff, a[0]), q[..4]);
    n := Append(cmdbuf, n, HostCmd(WRITE_REG, SD_CFG2, 0xff, rsp), q[..5]);
    n := Append(cmdbuf, n, HostCmd(WRITE_REG, CARD_DATA_SOURCE, 0x01, 0x01), q[..6]);
    n := Append(cmdbuf, n, HostCmd(WRITE_REG, SD_TRANSFER, 0xff, TM_CMD_RSP + TRANSFER_START), q[..7]);
    n := Append(cmdbuf, n, HostCmd(CHECK_REG, SD_TRANSFER, TRANSFER_END_IDLE, TRANSFER_END_IDLE), q[..8]);
    assert q[..8] + [q[8]] == q;
  }

  /** The whole program: the head, then the response registers one by one. */
  method BuildExec(cmdbuf: array<nat>, opcode: nat, arg: word, rsp: byte) returns (n: nat)
    requires cmdbuf.Length == HOSTCMD_MAX
    modifies cmdbuf
    ensures n == |ExecProgram(opcode, arg, rsp)| <= 25
    ensures cmdbuf[..n] == EncodeAll(ExecProgram(opcode, arg, rsp))
  {
    hide Encode, ExecHead;
    n := BuildExecHead(cmdbuf, opcode, arg, rsp);
    ghost var q := ExecProgram(opcode, arg, rsp);
    ghost var regs := ResponseRegs(rsp);
    assert q[..9] == ExecHead(opcode, arg, rsp);
    if rsp == RSP_R2 {
      var r := PPBUF_BASE2 + 15;
      while r > PPBUF_BASE2
        invariant PPBUF_BASE2 <= r <= PPBUF_BASE2 + 15 && n == 9 + (PPBUF_BASE2 + 15 - r)
        invariant cmdbuf[..n] == EncodeAll(q[..n])
      {
        assert q[..n + 1] == q[..n] + [Read(r)];
        n := Append(cmdbuf, n, HostCmd(READ_REG, r, 0, 0), q[..n]);
        r := r - 1;
      }
      assert q == q[..n] + [Read(SD_CMD5)];
      n := Append(cmdbuf, n, HostCmd(READ_REG, SD_CMD5, 0, 0), q[..n]);
    } else if rsp != RSP_R0 {
      var r := SD_CMD0;
      while r <= SD_CMD4
        invariant SD_CMD0 <= r <= SD_CMD4 + 1 && n == 9 + (r - SD_CMD0)
        invariant cmdbuf[..n] == EncodeAll(q[..n])
      {
        assert q[..n + 1] == q[..n] + [Read(r)];
        n := Append(cmdbuf, n, HostCmd(READ_REG, r, 0, 0), q[..n]);
        r := r + 1;
      }
      assert q[..n] == q;
    } else {
      assert q[..n] == q;
    }
  }

  // ------------------------------------------------------------------------
  // Running a program

  lemma RunCons(c: Chip, w: HostCmd, rest: seq<HostCmd>, reply: Reply)
    requires c.Valid()
    ensures Run(c, [w] + rest, reply) == Run(Step(c, w, reply), rest, reply)
  {
    assert ([w] + rest)[1..] == rest;
  }

  /** A full write to an ordinary register. */
  lemma RunWrite(c: Chip, reg: nat, data: byte, rest: seq<HostCmd>, reply: Reply)
    requires c.Valid() && !c.failed && reg % 0x4000 != SD_TRANSFER % 0x4000
    ensures Run(c, [Write(reg, 0xff, data)] + rest, reply) == Run(c.Set(reg, data), rest, reply)
  {
    hide StartTransfer, Masked;
    MaskedFull(c.Reg(reg), data);
    RunCons(c, Write(reg, 0xff, data), rest, reply);
  }

  /** A masked write to an ordinary register. */
  lemma RunMasked(c: Chip, reg: nat, mask: byte, data: byte, rest: seq<HostCmd>, reply: Reply)
    requires c.Valid() && !c.failed && reg % 0x4000 != SD_TRANSFER % 0x4000
    ensures Run(c, [Write(reg, mask, data)] + rest, reply)
         == Run(c.Set(reg, MaskedByte(c.Reg(reg), mask, data)), rest, reply)
  {
    hide StartTransfer, Masked;
    RunCons(c, Write(reg, mask, data), rest, reply);
  }

  lemma RunStart(c: Chip, mode: byte, rest: seq<HostCmd>, reply: Reply)
    requires c.Valid() && !c.failed && mode < 16
    ensures Run(c, [Write(SD_TRANSFER, 0xff, mode + TRANSFER_START)] + rest, reply)
         == Run(StartTransfer(c, mode, reply), rest, reply)
  {
    hide StartTransfer, Masked;
    MaskedFull(c.Reg(SD_TRANSFER), mode + TRANSFER_START);
    assert (mode + TRANSFER_START) % 16 == mode;
    RunCons(c, Write(SD_TRANSFER, 0xff, mode + TRANSFER_START), rest, reply);
  }

  lemma RunCheck(c: Chip, mask: byte, rest: seq<HostCmd>, reply: Reply)
    requires c.Valid() && !c.failed
    ensures
      var v := c.Reg(SD_TRANSFER);
      Run(c, [Check(SD_TRANSFER, mask, mask)] + rest, reply)
      == Run(if And(v, mask) == mask then c.(out := c.out + [v]) else c.(failed := true), rest, reply)
  {
    hide StartTransfer, And;
    RunCons(c, Check(SD_TRANSFER, mask, mask), rest, reply);
  }

  lemma {:induction false} RunFailed(c: Chip, cmds: seq<HostCmd>, reply: Reply)
    requires c.Valid() && c.failed
    ensures Run(c, cmds, reply) == c
    decreases |cmds|
  {
    if |cmds| > 0 { RunFailed(c, cmds[1..], reply); }
  }

  function Values(c: Chip, rs: seq<nat>): (v: seq<byte>)
    requires c.Valid()
    ensures |v| == |rs|
  {
    seq(|rs|, i requires 0 <= i < |rs| => c.Reg(rs[i]))
  }

  lemma {:induction false} RunReads(c: Chip, rs: seq<nat>, reply: Reply)
    requires c.Valid() && !c.failed
    ensures Run(c, Reads(rs), reply) == c.(out := c.out + Values(c, rs))
    decreases |rs|
  {
    hide StartTransfer, MaskedByte;
    if |rs| == 0 {
      assert c.out + Values(c, rs) == c.out;
    } else {
      assert Reads(rs) == [Read(rs[0])] + Reads(rs[1..]);
      RunCons(c, Read(rs[0]), Reads(rs[1..]), reply);
      var c1 := c.(out := c.out + [c.Reg(rs[0])]);
      RunReads(c1, rs[1..], reply);
      assert c.out + Values(c, rs) == c1.out + Values(c1, rs[1..]);
    }
  }

  // ------------------------------------------------------------------------
  // What the command program does

  /** Does the card answer with a response of the requested length? */
  predicate Answers(rsp: byte, reply: Reply)
  {
    match RspLength(rsp)
    case 0 => true
    case 6 => reply.Short?
    case _ => reply.Long?
  }

  predicate KnownResponse(rsp: byte)
  {
    rsp == RSP_R0 || rsp == RSP_R1 || rsp == RSP_R1B || rsp == RSP_R2 || rsp == RSP_R3
  }

  predicate WellFormed(reply: Reply)
  {
    reply.Long? ==> |reply.contents| == 16
  }

  /** Bytes read back for a response. */
  function ResponseBytes(rsp: byte, reply: Reply): seq<byte>
    requires Answers(rsp, reply) && WellFormed(reply)
  {
    match RspLength(rsp)
    case 0 => []
    case 6 => [reply.header] + Reverse(LeBytes(reply.payload))
    case _ => Reverse(reply.contents[..15]) + [reply.tail]
  }

  lemma HeaderByte(opcode: nat)
    requires opcode < 64
    ensures Header(opcode) == 0x40 + opcode
  {
    hide And, Or;
    assert Pow2(6) == 64 && Shl(1, 6) == 64;
    OrDisjoint(opcode, 1, 6);
    OrComm(0x40, opcode);
  }

  /** The chip with the command and the upper half of its argument in SD_CMD0..2. */
  function HalfLoaded(c: Chip, opcode: nat, arg: word): (c': Chip)
    requires c.Valid()
    ensures c'.Valid()
  {
    c.Set(SD_CMD0, Header(opcode)).Set(SD_CMD1, LeBytes(arg)[3]).Set(SD_CMD2, LeBytes(arg)[2])
  }

  /** The chip with the command and its argument in SD_CMD0..4. */
  function Loaded(c: Chip, opcode: nat, arg: word): (c': Chip)
    requires c.Valid()
    ensures c'.Valid()
  {
    HalfLoaded(c, opcode, arg).Set(SD_CMD3, LeBytes(arg)[1]).Set(SD_CMD4, LeBytes(arg)[0])
  }

  lemma CommandIsHalfLoaded(c: Chip, opcode: nat, arg: word)
    requires c.Valid()
    ensures
      var a, p := LeBytes(arg), HalfLoaded(c, opcode, arg);
      && p.Reg(SD_CMD0) == Header(opcode) && p.Reg(SD_CMD1) == a[3] && p.Reg(SD_CMD2) == a[2]
      && p == c.(regs := p.regs)
  {
    hide LeBytes, Header;
  }

  /** Registers set up by the first seven commands. */
  function Prepared(c: Chip, opcode: nat, arg: word, rsp: byte): (c': Chip)
    requires c.Valid()
    ensures c'.Valid()
  {
    var s := Loaded(c, opcode, arg).Set(SD_CFG2, rsp);
    s.Set(CARD_DATA_SOURCE, MaskedByte(s.Reg(CARD_DATA_SOURCE), 0x01, 0x01))
  }

  lemma RunSetup(c: Chip, opcode: nat, arg: word, rsp: byte, rest: seq<HostCmd>, reply: Reply)
    requires c.Valid() && !c.failed
    ensures Run(c, ExecHead(opcode, arg, rsp)[..7] + rest, reply)
         == Run(Prepared(c, opcode, arg, rsp), rest, reply)
  {
    hide Step, Run, MaskedByte, Header, LeBytes;
    var a := LeBytes(arg);
    var h := ExecHead(opcode, arg, rsp);
    var r6 := [h[6]] + rest;
    var r5 := [h[5]] + r6;
    var r4 := [h[4]] + r5;
    var r3 := [h[3]] + r4;
    var r2 := [h[2]] + r3;
    var r1 := [h[1]] + r2;
    assert h[..7] + rest == [h[0]] + r1;
    RunWrite(c, SD_CMD0, Header(opcode), r1, reply);
    var c1 := c.Set(SD_CMD0, Header(opcode));
    RunWrite(c1, SD_CMD1, a[3], r2, reply);
    var c2 := c1.Set(SD_CMD1, a[3]);
    RunWrite(c2, SD_CMD2, a[2], r3, reply);
    var c3 := c2.Set(SD_CMD2, a[2]);
    RunWrite(c3, SD_CMD3, a[1], r4, reply);
    var c4 := c3.Set(SD_CMD3, a[1]);
    RunWrite(c4, SD_CMD4, a[0], r5, reply);
    var c5 := c4.Set(SD_CMD4, a[0]);
    RunWrite(c5, SD_CFG2, rsp, r6, reply);
    RunMasked(c5.Set(SD_CFG2, rsp), CARD_DATA_SOURCE, 0x01, 0x01, rest, reply);
  }

  lemma ArgumentBytes(arg: word)
    ensures var a := LeBytes(arg); BeNat([a[3], a[2], a[1], a[0]]) == arg
  {
    hide LeBytes, BeNat, LeNat;
    var a := LeBytes(arg);
    BeIsReversedLe([a[3], a[2], a[1], a[0]]);
    assert Reverse([a[3], a[2], a[1], a[0]]) == a;
    LeNatOfLeBytes(arg);
  }

  lemma CommandIsLoaded(c: Chip, opcode: nat, arg: word)
    requires c.Valid()
    ensures
      var a, p := LeBytes(arg), Loaded(c, opcode, arg);
      && p.Reg(SD_CMD0) == Header(opcode) && p.Reg(SD_CMD1) == a[3] && p.Reg(SD_CMD2) == a[2]
      && p.Reg(SD_CMD3) == a[1] && p.Reg(SD_CMD4) == a[0]
      && p == c.(regs := p.regs)
  {
    hide LeBytes, Header, HalfLoaded;
    CommandIsHalfLoaded(c, opcode, arg);
  }

  /** The write that selects the data source. */
  lemma SourceBit(was: byte, pingPong: bool)
    ensures Bit(MaskedByte(was, 0x01, if pingPong then 0x01 else 0x00), 0) <==> pingPong
  {
    MaskedBit(was, 0x01, if pingPong then 0x01 else 0x00, 0);
  }

  lemma CommandIsPrepared(c: Chip, opcode: nat, arg: word, rsp: byte)
    requires c.Valid() && opcode < 64
    ensures CommandInRegs(Prepared(c, opcode, arg, rsp)) == SdCommand(0x40 + opcode, arg, rsp)
    ensures PingPong(Prepared(c, opcode, arg, rsp))
    ensures Prepared(c, opcode, arg, rsp).Reg(SD_CFG2) == rsp
    ensures Prepared(c, opcode, arg, rsp) == c.(regs := Prepared(c, opcode, arg, rsp).regs)
  {
    hide MaskedByte, LeBytes, Header, BeNat, Loaded, Bit;
    HeaderByte(opcode);
    ArgumentBytes(arg);
    CommandIsLoaded(c, opcode, arg);
    SourceBit(Loaded(c, opcode, arg).Set(SD_CFG2, rsp).Reg(CARD_DATA_SOURCE), true);
  }

  /** The ping-pong buffer holds the first 16 bytes; nothing else moves. */
  lemma {:induction false} PingPongContents(c: Chip, d: seq<byte>, i: nat)
    requires c.Valid() && |d| >= 16 && i <= 16
    ensures
      var c' := StorePingPong(c, d, i);
      && c' == c.(regs := c'.regs)
      && (forall k :: i <= k < 16 ==> c'.Reg(PPBUF_BASE2 + k) == d[k])
      && (forall r :: 0 <= r < 0x4000 && !(PPBUF_BASE2 % 0x4000 + i <= r < PPBUF_BASE2 % 0x4000 + 16)
            ==> c'.regs[r] == c.regs[r])
    decreases 16 - i
  {
    if i < 16 {
      hide RtsxChip.Step, RtsxChip.Run;
      var c1 := c.Set(PPBUF_BASE2 + i, d[i]);
      PingPongContents(c1, d, i + 1);
      assert c1.regs[PPBUF_BASE2 % 0x4000 + i] == d[i];
    }
  }

  /** Where a long response lies. */
  lemma LongIsStored(c: Chip, d: seq<byte>, tail: byte)
    requires c.Valid() && |d| == 17
    ensures
      var c' := StorePingPong(c.Set(SD_CMD5, tail), d, 0).Set(SD_TRANSFER, 0x68);
      && c' == c.(regs := c'.regs)
      && c'.Reg(SD_CMD5) == tail
      && (forall k :: 0 <= k < 16 ==> c'.Reg(PPBUF_BASE2 + k) == d[k])
  {
    hide StorePingPong;
    PingPongContents(c.Set(SD_CMD5, tail), d, 0);
  }

  /** A long response, read back in the order of the program. */
  lemma LongIsReadBack(c: Chip, h: byte, contents: seq<byte>, tail: byte)
    requires c.Valid() && |contents| == 16
    ensures
      var c' := StorePingPong(c.Set(SD_CMD5, tail), [h] + contents, 0).Set(SD_TRANSFER, 0x68);
      && c' == c.(regs := c'.regs)
      && Values(c', ResponseRegs(RSP_R2)) == Reverse(contents[..15]) + [tail]
  {
    hide StorePingPong, Values, ResponseRegs, Reverse;
    var d := [h] + contents;
    assert d[1..16] == contents[..15];
    LongIsStored(c, d, tail);
    LongValues(StorePingPong(c.Set(SD_CMD5, tail), d, 0).Set(SD_TRANSFER, 0x68), d, tail);
  }

  lemma LongValues(c: Chip, d: seq<byte>, tail: byte)
    requires c.Valid() && |d| == 17 && c.Reg(SD_CMD5) == tail
    requires forall k :: 0 <= k < 16 ==> c.Reg(PPBUF_BASE2 + k) == d[k]
    ensures Values(c, ResponseRegs(RSP_R2)) == Reverse(d[1..16]) + [tail]
  {
    var rs := ResponseRegs(RSP_R2);
    forall i | 0 <= i < 15 ensures c.Reg(rs[i]) == d[15 - i] {
      assert rs[i] == PPBUF_BASE2 + (15 - i);
    }
  }

  /** After the transfer: one command sent, the response where the program will
      read it, and the status bits that the check looks for exactly when the
      card answered. */
  lemma SentAndStored(c: Chip, rsp: byte, reply: Reply)
    requires c.Valid() && KnownResponse(rsp) && c.Reg(SD_CFG2) == rsp && WellFormed(reply) && PingPong(c)
    ensures
      var c' := SendCommand(c, reply);
      && c' == c.(regs := c'.regs, sent := c.sent + [CommandInRegs(c)])
      && c'.Reg(SD_TRANSFER) == (if Answers(rsp, reply) then 0x68 else 0x18)
      && (Answers(rsp, reply) ==> Values(c', ResponseRegs(rsp)) == ResponseBytes(rsp, reply))
  {
    hide StorePingPong, LeBytes, CommandInRegs, PingPong;
    var c' := SendCommand(c, reply);
    if RspLength(rsp) == 17 && reply.Long? {
      LongIsReadBack(c.(sent := c.sent + [CommandInRegs(c)]), reply.header, reply.contents, reply.tail);
    } else if RspLength(rsp) == 6 && reply.Short? {
      ShortIsReadBack(c.(sent := c.sent + [CommandInRegs(c)]), reply.header, Reverse(LeBytes(reply.payload)));
      assert rsp != RSP_R2 && rsp != RSP_R0;
    }
  }

  lemma ShortIsReadBack(c: Chip, h: byte, b: seq<byte>)
    requires c.Valid() && |b| == 4
    ensures
      var c' := c.Set(SD_CMD0, h).Set(SD_CMD1, b[0]).Set(SD_CMD2, b[1]).Set(SD_CMD3, b[2]).Set(SD_CMD4, b[3])
                 .Set(SD_TRANSFER, 0x68);
      Values(c', seq(5, i => SD_CMD0 + i)) == [h] + b
  {
    hide Values;
    var c' := c.Set(SD_CMD0, h).Set(SD_CMD1, b[0]).Set(SD_CMD2, b[1]).Set(SD_CMD3, b[2]).Set(SD_CMD4, b[3])
               .Set(SD_TRANSFER, 0x68);
    ShortValues(c', [h] + b);
  }

  lemma ShortValues(c: Chip, v: seq<byte>)
    requires c.Valid() && |v| == 5
    requires c.Reg(SD_CMD0) == v[0] && c.Reg(SD_CMD1) == v[1] && c.Reg(SD_CMD2) == v[2]
    requires c.Reg(SD_CMD3) == v[3] && c.Reg(SD_CMD4) == v[4]
    ensures Values(c, seq(5, i => SD_CMD0 + i)) == v
  {
    assert SD_CMD1 == SD_CMD0 + 1 && SD_CMD4 == SD_CMD0 + 4;
  }

  /** The program of rtsx_exec_command sends exactly (opcode, arg); it succeeds
      exactly when the card answers as requested, and then returns the status
      byte followed by the response. */
  lemma ExecProgramIsTheCommand(c: Chip, opcode: nat, arg: word, rsp: byte, reply: Reply)
    requires c.Valid() && !c.failed && opcode < 64 && KnownResponse(rsp) && WellFormed(reply)
    ensures
      var c' := Run(c, ExecProgram(opcode, arg, rsp), reply);
      && c'.sent == c.sent + [SdCommand(0x40 + opcode, arg, rsp)]
      && c'.transfers == c.transfers
      && (c'.failed <==> !Answers(rsp, reply))
      && c'.out == (if c'.failed then c.out else c.out + [0x68] + ResponseBytes(rsp, reply))
  {
    hide Step, SendCommand, Prepared, And, Answers, ResponseBytes, PingPong;
    var h := ExecHead(opcode, arg, rsp);
    var back := Reads(ResponseRegs(rsp));
    var c0 := Prepared(c, opcode, arg, rsp);
    assert ExecProgram(opcode, arg, rsp) == h[..7] + ([h[7]] + ([h[8]] + back));
    RunSetup(c, opcode, arg, rsp, [h[7]] + ([h[8]] + back), reply);
    CommandIsPrepared(c, opcode, arg, rsp);
    RunStart(c0, TM_CMD_RSP, [h[8]] + back, reply);
    SentAndStored(c0, rsp, reply);
    var c1 := SendCommand(c0, reply);
    RunCheck(c1, TRANSFER_END_IDLE, back, reply);
    CheckBits();
    if Answers(rsp, reply) {
      RunReads(c1.(out := c1.out + [0x68]), ResponseRegs(rsp), reply);
    } else {
      RunFailed(c1.(failed := true), back, reply);
    }
  }

  lemma CheckBits()
    ensures And(0x68, 0x60) == 0x60 && And(0x18, 0x60) != 0x60 && And(0x60, 0x40) == 0x40
  {
    assert And(0x1a, 0x18) == 0x18;
    assert And(0x06, 0x18) == 0;
  }

  // ------------------------------------------------------------------------
  // Response assembly

  // Response flags of a command (the SCF_RSP bits of c_flags).
  const SCF_RSP_136: nat := 0x0200
  const SCF_RSP_PRESENT: nat := 0x1000

  /** rtsx_response_type: 0 for a flag combination the chip has no type for. */
  function ResponseType(flags: nat): byte
  {
    match flags
    case 0x0000 => RSP_R0
    case 0x1c00 => RSP_R1
    case 0x1d00 => RSP_R1B
    case 0x1600 => RSP_R2
    case 0x1000 => RSP_R3
    case _ => 0
  }

  predicate Has(flags: nat, bit: nat)
    requires bit > 0
  {
    flags / bit % 2 == 1
  }

  /** The flags used when copying the response agree with the type the chip was
      programmed for. */
  lemma FlagsAgreeWithType(flags: nat)
    requires ResponseType(flags) != 0
    ensures KnownResponse(ResponseType(flags))
    ensures Has(flags, SCF_RSP_PRESENT) <==> RspLength(ResponseType(flags)) != 0
    ensures Has(flags, SCF_RSP_136) <==> RspLength(ResponseType(flags)) == 17
  {
  }

  /** The command buffer after the run: returned bytes overwrite its start. */
  function BufferAfter(before: seq<byte>, out: seq<byte>): (b: seq<byte>)
    requires |out| <= |before|
    ensures |b| == |before|
  {
    out + before[|out|..]
  }

  /** Word k of the buffer. */
  function BufWord(b: seq<byte>, k: nat): word
    requires 4 * k + 4 <= |b|
  {
    LeNat4(b[4 * k..4 * k + 4]);
    LeNat(b[4 * k..4 * k + 4])
  }

  /** c_resp as rtsx_exec_command fills it from the buffer. */
  function CopyResponse(b: seq<byte>, flags: nat, resp: seq<byte>): (r: seq<byte>)
    requires |b| >= 20 && |resp| == 16
    ensures |r| == 16
  {
    if !Has(flags, SCF_RSP_PRESENT) then resp
    else if Has(flags, SCF_RSP_136) then b[1..17]
    else
      var w := Or(Shl32(And(Swap32(BufWord(b, 0)), 0xffff), 16), Shr(And(Swap32(BufWord(b, 1)), 0xffff_0000), 16));
      assert w < WORD by { ShortResponseWord(b); }
      LeBytes(w) + resp[4..]
  }

  lemma {:induction false} ShrAnd(a: nat, b: nat, k: nat)
    ensures Shr(And(a, b), k) == And(Shr(a, k), Shr(b, k))
    decreases k
  {
    if k > 0 {
      assert And(a, b) / 2 == And(a / 2, b / 2);
      ShrAnd(a / 2, b / 2, k - 1);
    }
  }

  /** Upper halfword of a word, through the mask the driver uses. */
  lemma UpperHalf(w: word)
    ensures Shr(And(w, 0xffff_0000), 16) == w / 0x1_0000
  {
    hide And, Shr, Low, Shl;
    Pow2At32();
    ShrAnd(w, 0xffff_0000, 16);
    ShiftsAreArithmetic(w, 16);
    ShiftsAreArithmetic(0xffff_0000, 16);
    AndMask(w / 0x1_0000, 16);
    LowOfSmall(w / 0x1_0000, 16);
  }

  lemma LowerHalf(w: word)
    ensures And(w, 0xffff) == w % 0x1_0000
    ensures Shl32(w % 0x1_0000, 16) == Shl(w % 0x1_0000, 16)
  {
    hide And, Shr, Low, Shl;
    Pow2At32();
    AndMask(w, 16);
    ShiftsAreArithmetic(w, 16);
    LowShl(w % 0x1_0000, 16, 16);
    LowOfSmall(w % 0x1_0000, 16);
  }

  lemma SwapOfBufWord(b: seq<byte>, k: nat)
    requires 4 * k + 4 <= |b|
    ensures Swap32(BufWord(b, k)) == BeNat(b[4 * k..4 * k + 4])
  {
    LeBytesOfLeNat(b[4 * k..4 * k + 4]);
  }

  lemma MiddleBytes(b: seq<byte>)
    requires |b| >= 8
    ensures BeNat(b[0..4]) % 0x1_0000 * 0x1_0000 + BeNat(b[4..8]) / 0x1_0000 == BeNat(b[2..6]) < WORD
  {
    hide BeNat;
    BeNat4(b[0..4]);
    BeNat4(b[4..8]);
    BeNat4(b[2..6]);
    var b2: int, b3: int, b4: int, b5: int := b[2], b[3], b[4], b[5];
    assert BeNat(b[0..4]) % 0x1_0000 == b3 + 256 * b2;
    assert BeNat(b[4..8]) / 0x1_0000 == b5 + 256 * b4;
  }

  /** Bytes 2..5 of the buffer, most significant first. */
  lemma ShortResponseWord(b: seq<byte>)
    requires |b| >= 20
    ensures Or(Shl32(And(Swap32(BufWord(b, 0)), 0xffff), 16), Shr(And(Swap32(BufWord(b, 1)), 0xffff_0000), 16))
            == BeNat(b[2..6]) < WORD
  {
    hide And, Or, Shr, Shl, Shl32, Swap32, BufWord, BeNat;
    var w0, w1 := Swap32(BufWord(b, 0)), Swap32(BufWord(b, 1));
    LowerHalf(w0);
    UpperHalf(w1);
    Pow2At32();
    OrLow(w1 / 0x1_0000, w0 % 0x1_0000, 16);
    ShlIsMul(w0 % 0x1_0000, 16);
    SwapOfBufWord(b, 0);
    SwapOfBufWord(b, 1);
    MiddleBytes(b);
  }

  /** A short response reassembles to the 32 bits the card sent. */
  lemma ShortResponseIsPayload(before: seq<byte>, flags: nat, h: byte, payload: word, resp: seq<byte>)
    requires |before| >= 20 && |resp| == 16
    requires Has(flags, SCF_RSP_PRESENT) && !Has(flags, SCF_RSP_136)
    ensures
      var b := BufferAfter(before, [0x68] + ([h] + Reverse(LeBytes(payload))));
      LeNat(CopyResponse(b, flags, resp)[..4]) == payload
  {
    hide And, Or, Shl32, Swap32, BufWord, LeBytes, BeNat;
    var p := Reverse(LeBytes(payload));
    var b := BufferAfter(before, [0x68] + ([h] + p));
    assert b[2..6] == p;
    ShortResponseWord(b);
    BeIsReversedLe(p);
    assert Reverse(p) == LeBytes(payload);
    LeNatOfLeBytes(payload);
    assert CopyResponse(b, flags, resp)[..4] == LeBytes(payload);
  }

  /** The register without its last byte, read backwards. */
  lemma RegisterAbove(contents: seq<byte>, tail: byte)
    requires |contents| == 16
    ensures Holds(Reverse(contents[..15]) + [tail], BeNat(contents))
  {
    hide Low, Shr, Shl, Pow2, BeNat, LeNat, Reverse;
    var r := Reverse(contents[..15]);
    LeNatAppend(r, [tail]);
    LeNatBound(r);
    Join(LeNat(r), LeNat([tail]), 120);
    BeIsReversedLe(contents[..15]);
    BeIsReversedLe(contents);
    LeNatBound(Reverse(contents));
    BeNatSnoc(contents);
    ShrBy8(contents[15], BeNat(contents[..15]));
  }

  lemma BeNatSnoc(b: seq<byte>)
    requires |b| > 0
    ensures BeNat(b) == b[|b| - 1] + 256 * BeNat(b[..|b| - 1])
  {
  }

  /** A long response is the card register without its last byte, so
      MMC_RSP_BITS reads it (Bitfield.RspBitsAreRegisterBits). */
  lemma LongResponseHoldsRegister(before: seq<byte>, flags: nat, contents: seq<byte>, tail: byte, resp: seq<byte>)
    requires |before| >= 20 && |resp| == 16 && |contents| == 16
    requires Has(flags, SCF_RSP_PRESENT) && Has(flags, SCF_RSP_136)
    ensures
      var b := BufferAfter(before, [0x68] + (Reverse(contents[..15]) + [tail]));
      Holds(CopyResponse(b, flags, resp), BeNat(contents))
  {
    hide Holds, Or, And, Shl32, Swap32, BufWord;
    var r := Reverse(contents[..15]);
    var b := BufferAfter(before, [0x68] + (r + [tail]));
    assert b[1..17] == r + [tail];
    RegisterAbove(contents, tail);
  }

  /** From the queued words to the response the caller sees: the card is sent
      exactly (opcode, arg), and every field of the 128-bit register that
      MMC_RSP_BITS can address is what the card holds there. */
  lemma LongCommandRoundTrip(c: Chip, opcode: nat, arg: word, flags: nat, h: byte, contents: seq<byte>, tail: byte,
                             mem: seq<byte>, resp: seq<byte>, start: nat, len: nat)
    requires c.Valid() && !c.failed && c.out == [] && opcode < 64
    requires ResponseType(flags) == RSP_R2 && |contents| == 16 && |mem| >= 20 && |resp| == 16
    requires 8 <= start && start + len <= 128 && len <= 32
    ensures
      var c' := Run(c, DecodeAll(EncodeAll(ExecProgram(opcode, arg, RSP_R2))), Long(h, contents, tail));
      && !c'.failed && |c'.out| <= |mem|
      && c'.sent == c.sent + [SdCommand(0x40 + opcode, arg, 0x02)]
      && Field(LeNat(CopyResponse(BufferAfter(mem, c'.out), flags, resp)), start - 8, len)
         == Field(BeNat(contents), start, len)
  {
    hide Run, ExecProgram, CopyResponse, BufferAfter, Holds, Bits, LeNat, BeNat, Reverse, DecodeAll, EncodeAll;
    FlagsAgreeWithType(flags);
    ProgramOps(opcode, arg, RSP_R2);
    RunDecoded(c, ExecProgram(opcode, arg, RSP_R2), Long(h, contents, tail));
    ExecProgramIsTheCommand(c, opcode, arg, RSP_R2, Long(h, contents, tail));
    var c' := Run(c, ExecProgram(opcode, arg, RSP_R2), Long(h, contents, tail));
    assert c'.out == [0x68] + (Reverse(contents[..15]) + [tail]);
    LongResponseHoldsRegister(mem, flags, contents, tail, resp);
    RspBitsAreRegisterBits(CopyResponse(BufferAfter(mem, c'.out), flags, resp), BeNat(contents), start, len);
  }

  /** The same for a 48-bit response. */
  lemma ShortCommandRoundTrip(c: Chip, opcode: nat, arg: word, flags: nat, h: byte, payload: word,
                              mem: seq<byte>, resp: seq<byte>)
    requires c.Valid() && !c.failed && c.out == [] && opcode < 64
    requires ResponseType(flags) != 0 && RspLength(ResponseType(flags)) == 6
    requires |mem| >= 20 && |resp| == 16
    ensures
      var rsp := ResponseType(flags);
      var c' := Run(c, DecodeAll(EncodeAll(ExecProgram(opcode, arg, rsp))), Short(h, payload));
      && !c'.failed && |c'.out| <= |mem|
      && c'.sent == c.sent + [SdCommand(0x40 + opcode, arg, rsp)]
      && LeNat(CopyResponse(BufferAfter(mem, c'.out), flags, resp)[..4]) == payload
  {
    hide Run, ExecProgram, CopyResponse, BufferAfter, LeNat, Reverse, LeBytes, DecodeAll, EncodeAll;
    var rsp := ResponseType(flags);
    FlagsAgreeWithType(flags);
    ProgramOps(opcode, arg, rsp);
    RunDecoded(c, ExecProgram(opcode, arg, rsp), Short(h, payload));
    ExecProgramIsTheCommand(c, opcode, arg, rsp, Short(h, payload));
    var c' := Run(c, ExecProgram(opcode, arg, rsp), Short(h, payload));
    assert c'.out == [0x68] + ([h] + Reverse(LeBytes(payload)));
    ShortResponseIsPayload(mem, flags, h, payload, resp);
  }

  lemma ProgramOps(opcode: nat, arg: word, rsp: byte)
    ensures forall i :: 0 <= i < |ExecProgram(opcode, arg, rsp)| ==> ExecProgram(opcode, arg, rsp)[i].op < 4
  {
    hide LeBytes, Header;
  }

  // ------------------------------------------------------------------------
  // Data transfers

  const DMA_DONE_INT: byte := 0x80
  const DMACTL_MASK: byte := 0x33
  const DMA_EN_512: byte := 0x21
  const CFG2_READ: byte := 0x20
  const CFG2_WRITE: byte := 0xa4

  /** The second byte of a number. */
  function Second(x: nat): byte { x / 256 % 256 }

  /** The program rtsx_xfer queues to move dataLen bytes as `blocks`
      blocks of blkLen. */
  function XferProgram(read: bool, blkLen: nat, blocks: nat, dataLen: word): seq<HostCmd>
  {
    var d := LeBytes(dataLen);
    [ Write(SD_CFG2, 0xff, if read then CFG2_READ else CFG2_WRITE),
      Write(SD_BYTE_CNT_L, 0xff, blkLen % 256),
      Write(SD_BYTE_CNT_H, 0xff, Second(blkLen)),
      Write(SD_BLOCK_CNT_L, 0xff, blocks % 256),
      Write(SD_BLOCK_CNT_H, 0xff, Second(blocks)),
      Write(CARD_DATA_SOURCE, 0x01, 0x00),
      Write(IRQSTAT0, DMA_DONE_INT, DMA_DONE_INT),
      Write(DMATC3, 0xff, d[3]),
      Write(DMATC2, 0xff, d[2]),
      Write(DMATC1, 0xff, d[1]),
      Write(DMATC0, 0xff, d[0]),
      Write(DMACTL, DMACTL_MASK, DMA_EN_512 + (if read then 2 else 0)),
      Write(SD_TRANSFER, 0xff, (if read then TM_AUTO_READ3 else TM_AUTO_WRITE3) + TRANSFER_START),
      Check(SD_TRANSFER, TRANSFER_END, TRANSFER_END) ]
  }

  /** The registers that describe a transfer. */
  predicate Describes(c: Chip, read: bool, blkLen: nat, blocks: nat, dataLen: word)
  {
    && c.Valid()
    && c.Reg(SD_BYTE_CNT_L) == blkLen % 256 && c.Reg(SD_BYTE_CNT_H) == Second(blkLen)
    && c.Reg(SD_BLOCK_CNT_L) == blocks % 256 && c.Reg(SD_BLOCK_CNT_H) == Second(blocks)
    && [c.Reg(DMATC0), c.Reg(DMATC1), c.Reg(DMATC2), c.Reg(DMATC3)] == LeBytes(dataLen)
    && c.Reg(SD_CFG2) == (if read then CFG2_READ else CFG2_WRITE)
    && (Bit(c.Reg(DMACTL), 1) <==> read) && PackSize(c.Reg(DMACTL)) == 512
    && DmaReady(c) && !PingPong(c)
  }

  /** What the write to DMACTL selects, whatever the register held before. */
  lemma DmactlBits(was: byte, read: bool)
    ensures
      var ctl := MaskedByte(was, DMACTL_MASK, DMA_EN_512 + (if read then 2 else 0));
      Bit(ctl, 0) && (Bit(ctl, 1) <==> read) && PackSize(ctl) == 512
  {
    hide MaskedByte;
    var data := DMA_EN_512 + (if read then 2 else 0);
    assert DMACTL_MASK == 0x33 && 255 - DMACTL_MASK == 0xcc;
    MaskedBit(was, DMACTL_MASK, data, 0);
    MaskedBit(was, DMACTL_MASK, data, 1);
    MaskedBit(was, DMACTL_MASK, data, 4);
    MaskedBit(was, DMACTL_MASK, data, 5);
  }

  lemma AcknowledgeBit(was: byte)
    ensures Bit(MaskedByte(was, DMA_DONE_INT, DMA_DONE_INT), 7)
  {
    hide MaskedByte;
    MaskedBit(was, DMA_DONE_INT, DMA_DONE_INT, 7);
  }

  /** Block geometry: length, then count, as the program sets them. */
  function BlockLength(c: Chip, read: bool, blkLen: nat): (c': Chip)
    requires c.Valid()
    ensures c'.Valid()
  {
    c.Set(SD_CFG2, if read then CFG2_READ else CFG2_WRITE)
     .Set(SD_BYTE_CNT_L, blkLen % 256).Set(SD_BYTE_CNT_H, Second(blkLen))
  }

  function BlockCount(c: Chip, blocks: nat): (c': Chip)
    requires c.Valid()
    ensures c'.Valid()
  {
    var s := c.Set(SD_BLOCK_CNT_L, blocks % 256).Set(SD_BLOCK_CNT_H, Second(blocks));
    s.Set(CARD_DATA_SOURCE, MaskedByte(s.Reg(CARD_DATA_SOURCE), 0x01, 0x00))
  }

  function Geometry(c: Chip, read: bool, blkLen: nat, blocks: nat): (c': Chip)
    requires c.Valid()
    ensures c'.Valid()
  {
    BlockCount(BlockLength(c, read, blkLen), blocks)
  }

  function DmaSetup(c: Chip, read: bool, dataLen: word): (c': Chip)
    requires c.Valid()
    ensures c'.Valid()
  {
    var d := LeBytes(dataLen);
    var s := c.Set(IRQSTAT0, MaskedByte(c.Reg(IRQSTAT0), DMA_DONE_INT, DMA_DONE_INT))
              .Set(DMATC3, d[3]).Set(DMATC2, d[2]).Set(DMATC1, d[1]).Set(DMATC0, d[0]);
    s.Set(DMACTL, MaskedByte(s.Reg(DMACTL), DMACTL_MASK, DMA_EN_512 + (if read then 2 else 0)))
  }

  lemma RunGeometry(c: Chip, read: bool, blkLen: nat, blocks: nat, dataLen: word, rest: seq<HostCmd>, reply: Reply)
    requires c.Valid() && !c.failed
    ensures Run(c, XferProgram(read, blkLen, blocks, dataLen)[..6] + rest, reply)
         == Run(Geometry(c, read, blkLen, blocks), rest, reply)
  {
    hide Step, Run, MaskedByte, LeBytes, Second;
    var h := XferProgram(read, blkLen, blocks, dataLen);
    var r5 := [h[5]] + rest;
    var r4 := [h[4]] + r5;
    var r3 := [h[3]] + r4;
    var r2 := [h[2]] + r3;
    var r1 := [h[1]] + r2;
    assert h[..6] + rest == [h[0]] + r1;
    RunWrite(c, SD_CFG2, h[0].data, r1, reply);
    var c1 := c.Set(SD_CFG2, h[0].data);
    RunWrite(c1, SD_BYTE_CNT_L, h[1].data, r2, reply);
    var c2 := c1.Set(SD_BYTE_CNT_L, h[1].data);
    RunWrite(c2, SD_BYTE_CNT_H, h[2].data, r3, reply);
    var c3 := c2.Set(SD_BYTE_CNT_H, h[2].data);
    RunWrite(c3, SD_BLOCK_CNT_L, h[3].data, r4, reply);
    var c4 := c3.Set(SD_BLOCK_CNT_L, h[3].data);
    RunWrite(c4, SD_BLOCK_CNT_H, h[4].data, r5, reply);
    RunMasked(c4.Set(SD_BLOCK_CNT_H, h[4].data), CARD_DATA_SOURCE, 0x01, 0x00, rest, reply);
  }

  lemma RunDmaSetup(c: Chip, read: bool, blkLen: nat, blocks: nat, dataLen: word, rest: seq<HostCmd>, reply: Reply)
    requires c.Valid() && !c.failed
    ensures Run(c, XferProgram(read, blkLen, blocks, dataLen)[6..12] + rest, reply)
         == Run(DmaSetup(c, read, dataLen), rest, reply)
  {
    hide Step, Run, MaskedByte, LeBytes, Second;
    var h := XferProgram(read, blkLen, blocks, dataLen);
    var r5 := [h[11]] + rest;
    var r4 := [h[10]] + r5;
    var r3 := [h[9]] + r4;
    var r2 := [h[8]] + r3;
    var r1 := [h[7]] + r2;
    assert h[6..12] + rest == [h[6]] + r1;
    RunMasked(c, IRQSTAT0, DMA_DONE_INT, DMA_DONE_INT, r1, reply);
    var c1 := c.Set(IRQSTAT0, MaskedByte(c.Reg(IRQSTAT0), DMA_DONE_INT, DMA_DONE_INT));
    RunWrite(c1, DMATC3, h[7].data, r2, reply);
    var c2 := c1.Set(DMATC3, h[7].data);
    RunWrite(c2, DMATC2, h[8].data, r3, reply);
    var c3 := c2.Set(DMATC2, h[8].data);
    RunWrite(c3, DMATC1, h[9].data, r4, reply);
    var c4 := c3.Set(DMATC1, h[9].data);
    RunWrite(c4, DMATC0, h[10].data, r5, reply);
    RunMasked(c4.Set(DMATC0, h[10].data), DMACTL, DMACTL_MASK, h[11].data, rest, reply);
  }

  lemma BlockLengthRegs(c: Chip, read: bool, blkLen: nat)
    requires c.Valid()
    ensures
      var g := BlockLength(c, read, blkLen);
      && g == c.(regs := g.regs)
      && g.Reg(SD_CFG2) == (if read then CFG2_READ else CFG2_WRITE)
      && g.Reg(SD_BYTE_CNT_L) == blkLen % 256 && g.Reg(SD_BYTE_CNT_H) == Second(blkLen)
  {
    hide Second;
  }

  lemma BlockCountRegs(c: Chip, blocks: nat)
    requires c.Valid()
    ensures
      var g := BlockCount(c, blocks);
      && g == c.(regs := g.regs) && !PingPong(g)
      && g.Reg(SD_CFG2) == c.Reg(SD_CFG2)
      && g.Reg(SD_BYTE_CNT_L) == c.Reg(SD_BYTE_CNT_L) && g.Reg(SD_BYTE_CNT_H) == c.Reg(SD_BYTE_CNT_H)
      && g.Reg(SD_BLOCK_CNT_L) == blocks % 256 && g.Reg(SD_BLOCK_CNT_H) == Second(blocks)
  {
    hide MaskedByte, Second, Bit;
    SourceBit(c.Set(SD_BLOCK_CNT_L, blocks % 256).Set(SD_BLOCK_CNT_H, Second(blocks)).Reg(CARD_DATA_SOURCE), false);
  }

  lemma GeometryRegs(c: Chip, read: bool, blkLen: nat, blocks: nat)
    requires c.Valid()
    ensures
      var g := Geometry(c, read, blkLen, blocks);
      && g == c.(regs := g.regs) && !PingPong(g)
      && g.Reg(SD_CFG2) == (if read then CFG2_READ else CFG2_WRITE)
      && g.Reg(SD_BYTE_CNT_L) == blkLen % 256 && g.Reg(SD_BYTE_CNT_H) == Second(blkLen)
      && g.Reg(SD_BLOCK_CNT_L) == blocks % 256 && g.Reg(SD_BLOCK_CNT_H) == Second(blocks)
  {
    hide BlockLength, BlockCount, Second, PingPong;
    BlockLengthRegs(c, read, blkLen);
    BlockCountRegs(BlockLength(c, read, blkLen), blocks);
  }

  /** The registers of the block geometry, which the DMA set-up leaves alone. */
  predicate SameGeometry(g: Chip, c: Chip)
    requires g.Valid() && c.Valid()
  {
    && g.Reg(SD_CFG2) == c.Reg(SD_CFG2) && g.Reg(CARD_DATA_SOURCE) == c.Reg(CARD_DATA_SOURCE)
    && g.Reg(SD_BYTE_CNT_L) == c.Reg(SD_BYTE_CNT_L) && g.Reg(SD_BYTE_CNT_H) == c.Reg(SD_BYTE_CNT_H)
    && g.Reg(SD_BLOCK_CNT_L) == c.Reg(SD_BLOCK_CNT_L) && g.Reg(SD_BLOCK_CNT_H) == c.Reg(SD_BLOCK_CNT_H)
  }

  lemma SetKeeps(c: Chip, r: nat, v: byte)
    requires c.Valid() && r in {IRQSTAT0, DMATC3, DMATC2, DMATC1, DMATC0, DMACTL}
    ensures SameGeometry(c.Set(r, v), c)
  {
  }

  lemma DmaSetupKeeps(c: Chip, read: bool, dataLen: word)
    requires c.Valid()
    ensures SameGeometry(DmaSetup(c, read, dataLen), c)
  {
    hide MaskedByte, LeBytes, Chip.Set;
    var d := LeBytes(dataLen);
    var ack := MaskedByte(c.Reg(IRQSTAT0), DMA_DONE_INT, DMA_DONE_INT);
    var c0 := c.Set(IRQSTAT0, ack);
    var c1 := c0.Set(DMATC3, d[3]);
    var c2 := c1.Set(DMATC2, d[2]);
    var c3 := c2.Set(DMATC1, d[1]);
    var c4 := c3.Set(DMATC0, d[0]);
    SetKeeps(c, IRQSTAT0, ack);
    SetKeeps(c0, DMATC3, d[3]);
    SetKeeps(c1, DMATC2, d[2]);
    SetKeeps(c2, DMATC1, d[1]);
    SetKeeps(c3, DMATC0, d[0]);
    SetKeeps(c4, DMACTL, MaskedByte(c4.Reg(DMACTL), DMACTL_MASK, DMA_EN_512 + (if read then 2 else 0)));
  }

  lemma DmaSetupRegs(c: Chip, read: bool, dataLen: word)
    requires c.Valid()
    ensures
      var g := DmaSetup(c, read, dataLen);
      && g == c.(regs := g.regs)
      && [g.Reg(DMATC0), g.Reg(DMATC1), g.Reg(DMATC2), g.Reg(DMATC3)] == LeBytes(dataLen)
  {
    hide MaskedByte, LeBytes, Chip.Valid;
    var g := DmaSetup(c, read, dataLen);
    var d := LeBytes(dataLen);
    assert g.Reg(DMATC0) == d[0] && g.Reg(DMATC1) == d[1];
    assert g.Reg(DMATC2) == d[2] && g.Reg(DMATC3) == d[3];
  }

  lemma DmaSetupEnables(c: Chip, read: bool, dataLen: word)
    requires c.Valid()
    ensures
      var g := DmaSetup(c, read, dataLen);
      DmaReady(g) && (Bit(g.Reg(DMACTL), 1) <==> read) && PackSize(g.Reg(DMACTL)) == 512
  {
    hide MaskedByte, LeBytes, Bit, PackSize;
    var ack := MaskedByte(c.Reg(IRQSTAT0), DMA_DONE_INT, DMA_DONE_INT);
    AcknowledgeBit(c.Reg(IRQSTAT0));
    DmactlBits(c.Reg(DMACTL), read);
    var g := DmaSetup(c, read, dataLen);
    assert g.Reg(IRQSTAT0) == ack;
  }

  lemma SetupDescribes(c: Chip, read: bool, blkLen: nat, blocks: nat, dataLen: word)
    requires c.Valid()
    ensures
      var g := DmaSetup(Geometry(c, read, blkLen, blocks), read, dataLen);
      g == c.(regs := g.regs) && Describes(g, read, blkLen, blocks, dataLen)
  {
    hide LeBytes, Geometry, DmaSetup, Second, Bit, PackSize;
    GeometryRegs(c, read, blkLen, blocks);
    DmaSetupKeeps(Geometry(c, read, blkLen, blocks), read, dataLen);
    DmaSetupRegs(Geometry(c, read, blkLen, blocks), read, dataLen);
    DmaSetupEnables(Geometry(c, read, blkLen, blocks), read, dataLen);
  }

  lemma DescribedTransfer(c: Chip, read: bool, blkLen: nat, blocks: nat, dataLen: word)
    requires Describes(c, read, blkLen, blocks, dataLen) && blkLen < 0x1_0000 && blocks < 0x1_0000
    ensures TransferInRegs(c, read)
            == Transfer(read, blkLen, blocks, dataLen, read, 512, if read then CFG2_READ else CFG2_WRITE)
    ensures DmaReady(c) && !PingPong(c)
  {
    hide LeBytes, Bit, PackSize;
    LeNatOfLeBytes(dataLen);
    TwoBytes(blkLen);
    TwoBytes(blocks);
  }

  lemma TwoBytes(x: nat)
    requires x < 0x1_0000
    ensures LeNat([x % 256, Second(x)]) == x
  {
    var b: seq<byte> := [x % 256, Second(x)];
    assert b[1..][1..] == [];
    assert LeNat(b[1..]) == x / 256;
  }

  /** The data program starts exactly one transfer, of the requested direction,
      geometry and byte count, and sends no command. */
  lemma XferProgramIsTheTransfer(c: Chip, read: bool, blkLen: nat, blocks: nat, dataLen: word, reply: Reply)
    requires c.Valid() && !c.failed && blkLen < 0x1_0000 && blocks < 0x1_0000
    ensures
      var c' := Run(c, XferProgram(read, blkLen, blocks, dataLen), reply);
      && !c'.failed && c'.sent == c.sent
      && c'.transfers
         == c.transfers + [Transfer(read, blkLen, blocks, dataLen, read, 512, if read then 0x20 else 0xa4)]
  {
    hide Step, MaskedByte, LeBytes, And, Geometry, DmaSetup, Describes, TransferInRegs, DmaReady, PingPong;
    var h := XferProgram(read, blkLen, blocks, dataLen);
    var tail := [h[12]] + ([h[13]] + []);
    assert h == h[..6] + (h[6..12] + tail);
    RunGeometry(c, read, blkLen, blocks, dataLen, h[6..12] + tail, reply);
    GeometryRegs(c, read, blkLen, blocks);
    var c1 := Geometry(c, read, blkLen, blocks);
    RunDmaSetup(c1, read, blkLen, blocks, dataLen, tail, reply);
    SetupDescribes(c, read, blkLen, blocks, dataLen);
    var c2 := DmaSetup(c1, read, dataLen);
    DescribedTransfer(c2, read, blkLen, blocks, dataLen);
    RunStart(c2, if read then TM_AUTO_READ3 else TM_AUTO_WRITE3, [h[13]] + [], reply);
    RunCheck(StartTransfer(c2, if read then TM_AUTO_READ3 else TM_AUTO_WRITE3, reply), TRANSFER_END, [], reply);
    CheckBits();
  }

  /** The queueing part of rtsx_xfer: geometry, then DMA and start. */
  method BuildGeometry(cmdbuf: array<nat>, read: bool, blkLen: nat, dataLen: word) returns (n: nat)
    requires cmdbuf.Length == HOSTCMD_MAX && blkLen > 0
    modifies cmdbuf
    ensures n == 6 && cmdbuf[..n] == EncodeAll(XferProgram(read, blkLen, dataLen / blkLen, dataLen)[..6])
  {
    hide Encode, LeBytes, Second;
    var blocks := dataLen / blkLen;
    ghost var q := XferProgram(read, blkLen, blocks, dataLen);
    assert q[..0] == [];
    n := Append(cmdbuf, 0, HostCmd(WRITE_REG, SD_CFG2, 0xff, if read then CFG2_READ else CFG2_WRITE), q[..0]);
    n := Append(cmdbuf, n, HostCmd(WRITE_REG, SD_BYTE_CNT_L, 0xff, blkLen % 256), q[..1]);
    n := Append(cmdbuf, n, HostCmd(WRITE_REG, SD_BYTE_CNT_H, 0xff, Second(blkLen)), q[..2]);
    n := Append(cmdbuf, n, HostCmd(WRITE_REG, SD_BLOCK_CNT_L, 0xff, blocks % 256), q[..3]);
    n := Append(cmdbuf, n, HostCmd(WRITE_REG, SD_BLOCK_CNT_H, 0xff, Second(blocks)), q[..4]);
    n := Append(cmdbuf, n, HostCmd(WRITE_REG, CARD_DATA_SOURCE, 0x01, 0x00), q[..5]);
    assert q[..5] + [q[5]] == q[..6];
  }

  method BuildXfer(cmdbuf: array<nat>, read: bool, blkLen: nat, dataLen: word) returns (n: nat)
    requires cmdbuf.Length == HOSTCMD_MAX && blkLen > 0
    modifies cmdbuf
    ensures n == 14 && cmdbuf[..n] == EncodeAll(XferProgram(read, blkLen, dataLen / blkLen, dataLen))
  {
    hide Encode, LeBytes, Second;
    ghost var q := XferProgram(read, blkLen, dataLen / blkLen, dataLen);
    var d := LeBytes(dataLen);
    n := BuildGeometry(cmdbuf, read, blkLen, dataLen);
    n := Append(cmdbuf, n, HostCmd(WRITE_REG, IRQSTAT0, DMA_DONE_INT, DMA_DONE_INT), q[..6]);
    n := Append(cmdbuf, n, HostCmd(WRITE_REG, DMATC3, 0xff, d[3]), q[..7]);
    n := Append(cmdbuf, n, HostCmd(WRITE_REG, DMATC2, 0xff, d[2]), q[..8]);
    n := Append(cmdbuf, n, HostCmd(WRITE_REG, DMATC1, 0xff, d[1]), q[..9]);
    n := Append(cmdbuf, n, HostCmd(WRITE_REG, DMATC0, 0xff, d[0]), q[..10]);
    n := Append(cmdbuf, n, HostCmd(WRITE_REG, DMACTL, DMACTL_MASK, DMA_EN_512 + (if read then 2 else 0)), q[..11]);
    n := Append(cmdbuf, n, HostCmd(WRITE_REG, SD_TRANSFER, 0xff,
                                   (if read then TM_AUTO_READ3 else TM_AUTO_WRITE3) + TRANSFER_START), q[..12]);
    n := Append(cmdbuf, n, HostCmd(CHECK_REG, SD_TRANSFER, TRANSFER_END, TRANSFER_END), q[..13]);
    assert q[..13] + [q[13]] == q;
  }

  // ------------------------------------------------------------------------
  // The programs, word by word

  lemma WriteWord(reg: nat, mask: byte, data: byte)
    ensures Encode(Write(reg, mask, data)) == 0x4000_0000 + reg % 0x4000 * 0x1_0000 + mask * 0x100 + data
  {
    EncodeIsSum(Write(reg, mask, data));
  }

  lemma CheckWord(reg: nat, mask: byte, data: byte)
    ensures Encode(Check(reg, mask, data)) == 0x8000_0000 + reg % 0x4000 * 0x1_0000 + mask * 0x100 + data
  {
    EncodeIsSum(Check(reg, mask, data));
  }

  lemma ReadWord(reg: nat)
    ensures Encode(Read(reg)) == reg % 0x4000 * 0x1_0000
  {
    EncodeIsSum(Read(reg));
  }

  /** What is queued for a command: the set-up, ... */
  lemma ExecHeadWords(opcode: nat, arg: word, rsp: byte)
    requires opcode < 64
    ensures EncodeAll(ExecHead(opcode, arg, rsp))
         == [ 0x7DA9_FF40 + opcode,
              0x7DAA_FF00 + arg / 0x100_0000, 0x7DAB_FF00 + arg / 0x1_0000 % 0x100,
              0x7DAC_FF00 + arg / 0x100 % 0x100, 0x7DAD_FF00 + arg % 0x100,
              0x7DA1_FF00 + rsp, 0x7D5B_0101, 0x7DB3_FF88, 0xBDB3_6060 ]
  {
    hide Encode, Header;
    HeaderByte(opcode);
    forall reg: nat, mask: byte, data: byte
      ensures Encode(Write(reg, mask, data)) == 0x4000_0000 + reg % 0x4000 * 0x1_0000 + mask * 0x100 + data
    {
      WriteWord(reg, mask, data);
    }
    CheckWord(SD_TRANSFER, TRANSFER_END_IDLE, TRANSFER_END_IDLE);
  }

  /** ... and the reading of the response: none, 48 bits or 136 bits. */
  lemma ResponseWords(rsp: byte)
    ensures rsp == 0x04 ==> EncodeAll(Reads(ResponseRegs(rsp))) == []
    ensures rsp == 0x02 ==>
      EncodeAll(Reads(ResponseRegs(rsp))) == seq(15, i => 0x3A0F_0000 - i * 0x1_0000) + [0x3DAE_0000]
    ensures rsp != 0x04 && rsp != 0x02 ==>
      EncodeAll(Reads(ResponseRegs(rsp))) == seq(5, i => 0x3DA9_0000 + i * 0x1_0000)
  {
    hide Encode;
    var rs := ResponseRegs(rsp);
    forall i | 0 <= i < |rs| ensures EncodeAll(Reads(rs))[i] == rs[i] % 0x4000 * 0x1_0000 {
      ReadWord(rs[i]);
    }
  }

  /** What is queued for a data transfer. */
  lemma SecondOfTwo(x: nat)
    requires x < 0x1_0000
    ensures Second(x) == x / 0x100
  {
  }

  lemma LeBytesAre(w: word)
    ensures LeBytes(w) == [w % 0x100, w / 0x100 % 0x100, w / 0x1_0000 % 0x100, w / 0x100_0000]
  {
  }

  lemma XferWords(read: bool, blkLen: nat, blocks: nat, dataLen: word)
    requires blkLen < 0x1_0000 && blocks < 0x1_0000
    ensures EncodeAll(XferProgram(read, blkLen, blocks, dataLen))
         == [ if read then 0x7DA1_FF20 else 0x7DA1_FFA4,
              0x7DAF_FF00 + blkLen % 0x100, 0x7DB0_FF00 + blkLen / 0x100,
              0x7DB1_FF00 + blocks % 0x100, 0x7DB2_FF00 + blocks / 0x100,
              0x7D5B_0100, 0x7E21_8080,
              0x7E2B_FF00 + dataLen / 0x100_0000, 0x7E2A_FF00 + dataLen / 0x1_0000 % 0x100,
              0x7E29_FF00 + dataLen / 0x100 % 0x100, 0x7E28_FF00 + dataLen % 0x100,
              if read then 0x7E2C_3323 else 0x7E2C_3321,
              if read then 0x7DB3_FF85 else 0x7DB3_FF81, 0xBDB3_4040 ]
  {
    hide Encode, LeBytes, Second;
    LeBytesAre(dataLen);
    SecondOfTwo(blkLen);
    SecondOfTwo(blocks);
    var d := LeBytes(dataLen);
    WriteWord(SD_CFG2, 0xff, if read then CFG2_READ else CFG2_WRITE);
    WriteWord(SD_BYTE_CNT_L, 0xff, blkLen % 256);
    WriteWord(SD_BYTE_CNT_H, 0xff, Second(blkLen));
    WriteWord(SD_BLOCK_CNT_L, 0xff, blocks % 256);
    WriteWord(SD_BLOCK_CNT_H, 0xff, Second(blocks));
    WriteWord(CARD_DATA_SOURCE, 0x01, 0x00);
    WriteWord(IRQSTAT0, DMA_DONE_INT, DMA_DONE_INT);
    WriteWord(DMATC3, 0xff, d[3]);
    WriteWord(DMATC2, 0xff, d[2]);
    WriteWord(DMATC1, 0xff, d[1]);
    WriteWord(DMATC0, 0xff, d[0]);
    WriteWord(DMACTL, DMACTL_MASK, DMA_EN_512 + (if read then 2 else 0));
    WriteWord(SD_TRANSFER, 0xff, (if read then TM_AUTO_READ3 else TM_AUTO_WRITE3) + TRANSFER_START);
    CheckWord(SD_TRANSFER, TRANSFER_END, TRANSFER_END);
  }

  /** The response types of the commands without a response and with R1, R1b, R2
      and R3, by their flags. */
  lemma ResponseTypes()
    ensures ResponseType(0x0000) == 0x04 && ResponseType(0x1c00) == 0x01 && ResponseType(0x1d00) == 0x09
    ensures ResponseType(0x1600) == 0x02 && ResponseType(0x1000) == 0x05
    ensures forall flags :: flags !in {0x0000, 0x1c00, 0x1d00, 0x1600, 0x1000} ==> ResponseType(flags) == 0
  {
  }
}
