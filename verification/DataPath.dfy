/** One data command from end to end: scatter/gather list, command program, data
    program, descriptor table, and a chip that moves bytes between a flat card
    and physical memory accordingly. */
module DataPath {
  import opened Prelude
  import opened Words
  import opened CardRegisters
  import opened RtsxChip
  import opened HostCommand
  import opened ScatterGather
  import opened FlatDisk

  /** What a command finds: the chip, the card's answer, the physical segments of
      the buffer, the place of a bounce buffer, and memory. */
  datatype Hardware = Hardware(chip: Chip, reply: Reply, gen: nat -> GenResult, phys: nat -> nat, mdLength: nat,
                               bounce: nat, mem: map<nat, byte>)
  {
    /** Where the bytes of the buffer are. */
    function Place(adma: bool, len: nat): (p: seq<nat>)
      ensures |p| == len
    {
      if adma then MapRange(phys, 0, len) else Range(bounce, len)
    }

    /** A working chip, segments as IOKit promises them, and buffers in memory. */
    ghost predicate Good()
    {
      && chip.Valid() && !chip.failed && WellFormed(reply)
      && Maps(gen, phys, mdLength)
      && Resident(mem, MapRange(phys, 0, MAXPHYS)) && Resident(mem, Range(bounce, MAXPHYS))
    }

    /** The card answers, and every buffer has few enough segments. */
    ghost predicate Works()
    {
      reply.Short? && MAXPHYS <= mdLength && forall len :: 0 < len <= MAXPHYS ==> Reaches(gen, 0, len, MAXNSEGS)
    }
  }

  /** Physical addresses of a buffer: all present, no two alike. */
  ghost predicate Resident(mem: map<nat, byte>, addrs: seq<nat>)
  {
    Distinct(addrs) && forall a :: a in addrs ==> a in mem
  }

  /** mem' holds d at addrs and is otherwise mem. */
  ghost predicate Stored(mem': map<nat, byte>, mem: map<nat, byte>, addrs: seq<nat>, d: seq<byte>)
    requires |addrs| == |d|
  {
    && mem'.Keys == mem.Keys
    && (forall i :: 0 <= i < |addrs| ==> addrs[i] in mem' && mem'[addrs[i]] == d[i])
    && (forall a :: a in mem && a !in addrs ==> a in mem' && mem'[a] == mem[a])
  }

  lemma ResidentPart(hw: Hardware, adma: bool, len: nat)
    requires hw.Good() && len <= MAXPHYS
    ensures Resident(hw.mem, hw.Place(adma, len))
  {
    assert MapRange(hw.phys, 0, len) == MapRange(hw.phys, 0, MAXPHYS)[..len];
    assert Range(hw.bounce, len) == Range(hw.bounce, MAXPHYS)[..len];
  }

  /** The chip is set up as the transfer modes need it: no response (bits 0, 1), the
      data's CRC16 checked (bit 6), no wait for it to arrive late (bit 5); packets of
      a block. */
  predicate Checked(t: Transfer)
  {
    !Bit(t.checks, 0) && !Bit(t.checks, 1) && !Bit(t.checks, 6) && Bit(t.checks, 5) && t.packSize == SECTOR
  }

  /** What the chip and the card do once a transfer is started: the transfer
      description, the last command sent, and the addresses the chip was given
      must agree on direction and number of bytes, and the command must have had a
      short response. */
  function MoveData(t: Transfer, cmd: SdCommand, sdhc: bool, disk: seq<byte>, mem: map<nat, byte>, addrs: seq<nat>)
    : Option<(seq<byte>, map<nat, byte>)>
  {
    var at, n := Address(sdhc, cmd.arg), t.blkLen * t.blkCnt;
    if !Checked(t) || cmd.awaited % 4 != 1 then None
    else if at + n > |disk| || n != |addrs| || n != t.dmaCnt || t.fromCard != t.dmaFromCard
       || cmd.header < 0x40 || !Fits(t.fromCard, cmd.header - 0x40, n)
       || exists a :: a in addrs && a !in mem then None
    else if t.fromCard then Some((disk, Scatter(mem, addrs, disk[at..at + n])))
    else Some((Spliced(disk, at, Gather(mem, addrs)), mem))
  }

  lemma Moves(read: bool, opcode: nat, arg: nat, sdhc: bool, disk: seq<byte>, mem: map<nat, byte>, addrs: seq<nat>)
    requires Resident(mem, addrs) && |addrs| % SECTOR == 0 && opcode < 64
    ensures
      var at := Address(sdhc, arg);
      var t := Transfer(read, SECTOR, |addrs| / SECTOR, |addrs|, read, 512, if read then 0x20 else 0xa4);
      var r := MoveData(t, SdCommand(0x40 + opcode, arg, 0x01), sdhc, disk, mem, addrs);
      && (r.Some? <==> Fits(read, opcode, |addrs|) && at + |addrs| <= |disk|)
      && (r.Some? && read ==>
            r.value.0 == disk && Stored(r.value.1, mem, addrs, disk[at..at + |addrs|]))
      && (r.Some? && !read ==> r.value == (Spliced(disk, at, Gather(mem, addrs)), mem))
  {
    hide Spliced, Fits;
    var at := Address(sdhc, arg);
    if at + |addrs| <= |disk| {
      ScatterStores(mem, addrs, disk[at..at + |addrs|]);
      assert mem.Keys + (set a | a in addrs) == mem.Keys;
    }
  }

  /** The command program, then the data program, run on the chip. */
  method RunPrograms(read: bool, opcode: nat, arg: word, len: nat, c: Chip, reply: Reply, cmdbuf: array<nat>)
    returns (ok: bool, c': Chip)
    requires c.Valid() && !c.failed && opcode < 64 && WellFormed(reply) && len <= MAXPHYS && len % SECTOR == 0
    requires cmdbuf.Length == HOSTCMD_MAX
    modifies cmdbuf
    ensures c'.Valid()
    ensures ok <==> reply.Short?
    ensures c'.sent == c.sent + [SdCommand(0x40 + opcode, arg, 0x01)]
    ensures ok ==>
      c'.transfers
      == c.transfers + [Transfer(read, SECTOR, len / SECTOR, len, read, 512, if read then 0x20 else 0xa4)]
  {
    hide Run, ExecProgram, XferProgram, DecodeAll, EncodeAll, LeBytes, Header;
    var n := BuildExec(cmdbuf, opcode, arg, RSP_R1);
    c' := Run(c, DecodeAll(cmdbuf[..n]), reply);
    ProgramOps(opcode, arg, RSP_R1);
    RunDecoded(c, ExecProgram(opcode, arg, RSP_R1), reply);
    ExecProgramIsTheCommand(c, opcode, arg, RSP_R1, reply);
    ok := !c'.failed;
    if ok {
      n := BuildXfer(cmdbuf, read, SECTOR, len);
      ghost var c1 := c';
      c' := Run(c', DecodeAll(cmdbuf[..n]), reply);
      XferOps(read, SECTOR, len / SECTOR, len);
      RunDecoded(c1, XferProgram(read, SECTOR, len / SECTOR, len), reply);
      XferProgramIsTheTransfer(c1, read, SECTOR, len / SECTOR, len, reply);
    }
  }

  lemma XferOps(read: bool, blkLen: nat, blocks: nat, dataLen: word)
    ensures forall i :: 0 <= i < |XferProgram(read, blkLen, blocks, dataLen)| ==>
              XferProgram(read, blkLen, blocks, dataLen)[i].op < 4
  {
    hide LeBytes, Second;
  }

  /** One data command of len bytes, through the segments of the buffer or
      through the bounce buffer.  When it succeeds the bytes have moved between
      [address, + len) of the card and the buffer's places in memory, and nowhere
      else; it succeeds exactly when the buffer has few enough segments, the card
      answers, and the command fits direction, length and disk. */
  method DataCommand(read: bool, adma: bool, opcode: nat, arg: word, len: nat, sdhc: bool, disk: seq<byte>,
                     mem: map<nat, byte>, hw: Hardware)
    returns (err: int, disk': seq<byte>, mem': map<nat, byte>)
    requires hw.Good() && opcode < 64 && 0 < len && len % SECTOR == 0
    requires len <= MAXPHYS ==> Resident(mem, hw.Place(adma, len))
    ensures err == 0 <==>
      && len <= MAXPHYS && (adma ==> len <= hw.mdLength && Reaches(hw.gen, 0, len, MAXNSEGS))
      && hw.reply.Short? && Fits(read, opcode, len) && Address(sdhc, arg) + len <= |disk|
    ensures err == 0 && read ==>
      && disk' == disk
      && Stored(mem', mem, hw.Place(adma, len), disk[Address(sdhc, arg)..Address(sdhc, arg) + len])
    ensures err == 0 && !read ==>
      && mem' == mem
      && disk' == Spliced(disk, Address(sdhc, arg), Gather(mem, hw.Place(adma, len)))
    ensures err != 0 ==> disk' == disk && mem' == mem
  {
    hide Addresses, MapRange, Range, Reaches, Run, Gather, Scatter, Stored, Resident, Spliced, Fits, Address, MoveData;
    disk', mem' := disk, mem;
    if len > MAXPHYS {
      return ENOMEM, disk, mem;
    }
    var dmSegs := new Segment[MAXNSEGS];
    var nsegs := 0;
    if adma {
      err, nsegs := DmamapLoad(dmSegs, hw.gen, hw.phys, hw.mdLength, len);
      if err != 0 {
        return;
      }
    }
    var ok, c';
    var cmdbuf := new nat[HOSTCMD_MAX];
    ok, c' := RunPrograms(read, opcode, arg, len, hw.chip, hw.reply, cmdbuf);
    if !ok {
      return EIO, disk, mem;
    }
    var addrs := Range(hw.bounce, len);
    if adma {
      addrs := WalkTable(dmSegs, nsegs);
    }
    var t, cmd := c'.transfers[|c'.transfers| - 1], c'.sent[|c'.sent| - 1];
    Moves(read, opcode, arg, sdhc, disk, mem, addrs);
    var moved := MoveData(t, cmd, sdhc, disk, mem, addrs);
    if moved.None? {
      return EIO, disk, mem;
    }
    err, disk', mem' := 0, moved.value.0, moved.value.1;
  }

  /** The descriptor table is written and the chip walks it: it is given the
      bytes of the segments, in order. */
  method WalkTable(dmSegs: array<Segment>, nsegs: nat) returns (addrs: seq<nat>)
    requires dmSegs.Length == MAXNSEGS && 0 < nsegs <= MAXNSEGS
    requires forall i :: 0 <= i < nsegs ==> dmSegs[i].addr < WORD && dmSegs[i].len <= MAXPHYS
    ensures addrs == Addresses(dmSegs[..nsegs])
  {
    hide Table, Walk, Addresses;
    var admabuf := new nat[MAXNSEGS];
    BuildAdma(admabuf, dmSegs, nsegs);
    assert admabuf[..] == Table(dmSegs[..nsegs]) + admabuf[nsegs..];
    WalkIsFlat(dmSegs[..nsegs], admabuf[nsegs..]);
    addrs := Walk(admabuf[..]);
  }

  /** A read command seen from the buffer: what was stored is read back. */
  method ReadThroughChip(adma: bool, opcode: nat, arg: word, len: nat, sdhc: bool, disk: seq<byte>, hw: Hardware)
    returns (err: int, d: seq<byte>)
    requires hw.Good() && opcode < 64 && 0 < len && len % SECTOR == 0
    ensures err == 0 ==>
      Address(sdhc, arg) + len <= |disk| && d == disk[Address(sdhc, arg)..Address(sdhc, arg) + len]
    ensures hw.Works() && len <= MAXPHYS && Fits(true, opcode, len) && Address(sdhc, arg) + len <= |disk| ==> err == 0
  {
    hide Resident, Fits, Address, MapRange, Range;
    if len <= MAXPHYS { ResidentPart(hw, adma, len); }
    var disk', mem';
    d := [];
    err, disk', mem' := DataCommand(true, adma, opcode, arg, len, sdhc, disk, hw.mem, hw);
    if err == 0 {
      d := Gather(mem', hw.Place(adma, len));
    }
  }

  /** A write command seen from the buffer: its bytes are in memory first. */
  method WriteThroughChip(adma: bool, opcode: nat, arg: word, d: seq<byte>, sdhc: bool, disk: seq<byte>, hw: Hardware)
    returns (err: int, disk': seq<byte>)
    requires hw.Good() && opcode < 64 && 0 < |d| && |d| % SECTOR == 0
    ensures err == 0 ==>
      Address(sdhc, arg) + |d| <= |disk| && disk' == Spliced(disk, Address(sdhc, arg), d)
    ensures hw.Works() && |d| <= MAXPHYS && Fits(false, opcode, |d|) && Address(sdhc, arg) + |d| <= |disk| ==> err == 0
  {
    hide Fits, Address, MapRange, Range, Spliced, Scatter;
    var addrs := hw.Place(adma, |d|);
    var mem := hw.mem;
    if |d| <= MAXPHYS {
      ResidentPart(hw, adma, |d|);
      ScatterStores(hw.mem, addrs, d);
      mem := Scatter(hw.mem, addrs, d);
      assert Gather(mem, addrs) == d;
    }
    var mem';
    err, disk', mem' := DataCommand(false, adma, opcode, arg, |d|, sdhc, disk, mem, hw);
  }
}
