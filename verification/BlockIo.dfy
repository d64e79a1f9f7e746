/** The block data path: a client request is cut into chunks, each chunk is
    retried and sent as single- or multi-block commands to a card that is a flat
    disk behind a command interface. */
module BlockIo {
  import opened Prelude
  import opened Bitfield
  import opened Words
  import opened CardRegisters
  import opened FlatDisk
  import DataPath
  import RtsxChip
  import ScatterGather

  const MAX_SEND: nat := 128 * 1024
  const RETRIES: nat := 3

  // ------------------------------------------------------------------------
  // Transfers

  /** A data command or a STOP_TRANSMISSION that was sent, and its error. */
  datatype Sent = Data(multiple: bool, error: int) | Stop(error: int)

  /** A multi-block transfer has been started, or tried, and not been stopped
      since: the card may still be in it. */
  predicate Open(sent: seq<Sent>)
  {
    if |sent| == 0 then false
    else if sent[|sent| - 1] == Stop(0) then false
    else (sent[|sent| - 1].Data? && sent[|sent| - 1].multiple) || Open(sent[..|sent| - 1])
  }

  /** The driver's habit with controllers that need a stop: it follows every
      answered multi-block command, and only such commands. */
  ghost predicate Disciplined(sent: seq<Sent>)
  {
    && (forall i :: 0 <= i < |sent| && sent[i] == Data(true, 0) ==> i + 1 < |sent| && sent[i + 1].Stop?)
    && (forall i :: 0 <= i < |sent| && sent[i].Stop? ==> i > 0 && sent[i - 1].Data? && sent[i - 1].multiple)
  }

  /** A multi-block command or a stop that failed. */
  predicate Failed(t: Sent) { t.error != 0 && (t.Stop? || t.multiple) }

  ghost predicate FailedSinceStop(sent: seq<Sent>)
  {
    exists i :: 0 <= i < |sent| && Failed(sent[i]) && Stop(0) !in sent[i..]
  }

  /** The card is out of its transfer exactly when every multi-block command has
      been followed by an answered stop. */
  lemma {:induction false} OpenIff(sent: seq<Sent>)
    ensures Open(sent) <==> exists i :: 0 <= i < |sent| && sent[i].Data? && sent[i].multiple && Stop(0) !in sent[i..]
    decreases |sent|
  {
    if |sent| > 0 {
      var n := |sent| - 1;
      var before := sent[..n];
      OpenIff(before);
      assert sent[n..] == [sent[n]];
      forall i | 0 <= i < n ensures Stop(0) in sent[i..] <==> Stop(0) in before[i..] || sent[n] == Stop(0) {
        assert sent[i..] == before[i..] + [sent[n]];
      }
      if Open(before) && sent[n] != Stop(0) {
        var i :| 0 <= i < n && before[i].Data? && before[i].multiple && Stop(0) !in before[i..];
        assert sent[i] == before[i] && Stop(0) !in sent[i..];
      }
    }
  }

  lemma {:induction false} OpenHasFailed(sent: seq<Sent>)
    requires Disciplined(sent) && Open(sent)
    ensures FailedSinceStop(sent)
  {
    OpenIff(sent);
    var i :| 0 <= i < |sent| && sent[i].Data? && sent[i].multiple && Stop(0) !in sent[i..];
    if sent[i].error == 0 {
      assert sent[i..] == [sent[i]] + sent[i + 1..];
      assert sent[i + 1] in sent[i..] && Failed(sent[i + 1]);
    } else {
      assert Failed(sent[i]);
    }
  }

  lemma {:induction false} FailedIsOpen(sent: seq<Sent>)
    requires Disciplined(sent) && FailedSinceStop(sent)
    ensures Open(sent)
  {
    OpenIff(sent);
    var i :| 0 <= i < |sent| && Failed(sent[i]) && Stop(0) !in sent[i..];
    var k := if sent[i].Data? then i else i - 1;
    assert k < i ==> sent[k..] == [sent[k]] + sent[i..];
    assert sent[k].Data? && sent[k].multiple && Stop(0) !in sent[k..];
  }

  /** With the driver's habit that means: nothing has failed since the last
      answered stop. */
  lemma {:induction false} OpenIffFailed(sent: seq<Sent>)
    requires Disciplined(sent)
    ensures Open(sent) <==> FailedSinceStop(sent)
  {
    hide Open, Disciplined, FailedSinceStop;
    if Open(sent) { OpenHasFailed(sent); }
    if FailedSinceStop(sent) { FailedIsOpen(sent); }
  }

  lemma {:induction false} DisciplinedAppend(sent: seq<Sent>, x: seq<Sent>)
    requires Disciplined(sent) && Disciplined(x)
    ensures Disciplined(sent + x)
  {
  }

  /** What one attempt to read sends: nothing if the card cannot be selected, no
      stop after a failed command. */
  ghost predicate ReadAttempt(x: seq<Sent>, multiple: bool, stopAfter: bool, err: int)
  {
    || (x == [] && err != 0)
    || (x == [Data(multiple, err)] && err != 0)
    || (x == [Data(multiple, 0)] && !(multiple && stopAfter))
    || (multiple && stopAfter && x == [Data(true, 0), Stop(0)])
    || (multiple && stopAfter && x == [Data(true, 0), Stop(err)])
  }

  /** What one attempt to write sends: a stop whatever became of the command, and
      the first error is the one reported. */
  ghost predicate WriteAttempt(x: seq<Sent>, multiple: bool, stopAfter: bool, err: int)
  {
    || (x == [] && err != 0)
    || (|x| == 1 && !(multiple && stopAfter) && x == [Data(multiple, x[0].error)]
        && (x[0].error != 0 ==> err == x[0].error))
    || (|x| == 2 && multiple && stopAfter && x == [Data(true, x[0].error), Stop(x[1].error)]
        && (x[0].error != 0 ==> err == x[0].error) && (x[0].error == 0 && x[1].error != 0 ==> err == x[1].error))
  }

  lemma {:induction false} AttemptsAreDisciplined(x: seq<Sent>, multiple: bool, err: int)
    requires ReadAttempt(x, multiple, true, err) || WriteAttempt(x, multiple, true, err)
    ensures Disciplined(x)
  {
  }

  /** Whether a transfer is still open after an attempt: a read leaves it open
      when its command fails, a write only when its stop does. */
  lemma {:induction false} OpenAfterAttempt(sent: seq<Sent>, x: seq<Sent>, multiple: bool, err: int)
    ensures ReadAttempt(x, multiple, true, err) ==>
      (Open(sent + x) <==> if multiple && x != [] then Failed(x[|x| - 1]) else Open(sent))
    ensures WriteAttempt(x, multiple, true, err) ==>
      (Open(sent + x) <==> if multiple && x != [] then x[|x| - 1].error != 0 else Open(sent))
  {
    if |x| == 1 {
      assert (sent + x)[..|sent|] == sent;
    } else if |x| == 2 {
      assert (sent + x)[..|sent| + 1] == sent + [x[0]];
      assert (sent + [x[0]])[..|sent|] == sent;
    } else if x == [] {
      assert sent + x == sent;
    }
  }

  /** What one successful attempt at len bytes sends. */
  function AttemptSends(len: nat, singleOnly: bool, stopAfter: bool): seq<Sent>
  {
    if singleOnly then seq(len / SECTOR, i => Data(false, 0))
    else if len / SECTOR > 1 then [Data(true, 0)] + if stopAfter then [Stop(0)] else []
    else [Data(false, 0)]
  }

  lemma {:induction false} SuccessSends(x: seq<Sent>, len: nat, stopAfter: bool)
    requires ReadAttempt(x, len / SECTOR > 1, stopAfter, 0) || WriteAttempt(x, len / SECTOR > 1, stopAfter, 0)
    ensures x == AttemptSends(len, false, stopAfter)
  {
  }

  lemma NoSingles(sent: seq<Sent>, stopAfter: bool)
    ensures sent == sent + AttemptSends(0, true, stopAfter)
  {
  }

  /** One more sector, one more single-block command. */
  lemma SinglesMore(sent0: seq<Sent>, sent: seq<Sent>, sent': seq<Sent>, i: nat, stopAfter: bool)
    requires sent == sent0 + AttemptSends(i * SECTOR, true, stopAfter)
    requires sent <= sent' && sent'[|sent|..] == AttemptSends(SECTOR, false, stopAfter)
    ensures sent' == sent0 + AttemptSends((i + 1) * SECTOR, true, stopAfter)
  {
    assert sent' == sent + sent'[|sent|..];
    assert AttemptSends((i + 1) * SECTOR, true, stopAfter)
        == AttemptSends(i * SECTOR, true, stopAfter) + AttemptSends(SECTOR, false, stopAfter);
  }

  /** From s on the driver kept its habit. */
  ghost predicate Kept(s: seq<Sent>, s': seq<Sent>, stopAfter: bool)
  {
    s <= s' && (stopAfter && Disciplined(s) ==> Disciplined(s'))
  }

  /** So every attempt keeps it, and a successful one sends what it should. */
  lemma {:induction false} AttemptKeeps(s: seq<Sent>, s': seq<Sent>, len: nat, stopAfter: bool, err: int)
    requires s <= s'
    requires ReadAttempt(s'[|s|..], len / SECTOR > 1, stopAfter, err)
          || WriteAttempt(s'[|s|..], len / SECTOR > 1, stopAfter, err)
    ensures Kept(s, s', stopAfter)
    ensures err == 0 ==> s'[|s|..] == AttemptSends(len, false, stopAfter)
    ensures err == 0 ==> s' == s + AttemptSends(len, false, stopAfter)
  {
    hide ReadAttempt, WriteAttempt, AttemptSends, Kept;
    KeptByAttempt(s, s', len / SECTOR > 1, stopAfter, err);
    assert s' == s + s'[|s|..];
    if err == 0 { SuccessSends(s'[|s|..], len, stopAfter); }
  }

  lemma {:induction false} KeptByAttempt(s: seq<Sent>, s': seq<Sent>, multiple: bool, stopAfter: bool, err: int)
    requires s <= s'
    requires ReadAttempt(s'[|s|..], multiple, stopAfter, err) || WriteAttempt(s'[|s|..], multiple, stopAfter, err)
    ensures Kept(s, s', stopAfter)
  {
    if stopAfter && Disciplined(s) {
      AttemptsAreDisciplined(s'[|s|..], multiple, err);
      DisciplinedAppend(s, s'[|s|..]);
      assert s' == s + s'[|s|..];
    }
  }

  // ------------------------------------------------------------------------
  // The card

  /** What the outside world does at one step: an error code, the bytes a failed
      transfer leaves behind, how many polls the card then stays busy, and the
      hardware a data command finds. */
  datatype Fate = Fate(error: int, junk: nat -> byte, busy: nat, hw: DataPath.Hardware)

  class Card {
    var disk: seq<byte>
    var clock: nat
    var busy: nat
    var sent: seq<Sent>  // data commands and stops so far
    const sdhc: bool
    const fate: nat -> Fate

    constructor (disk: seq<byte>, sdhc: bool, fate: nat -> Fate)
      requires |disk| % SECTOR == 0 && |disk| / SECTOR < 0x8000_0000 && (!sdhc ==> |disk| <= WORD)
      requires forall t :: fate(t).hw.Good()
      ensures Valid() && this.disk == disk && this.sdhc == sdhc && this.fate == fate
      ensures clock == 0 && sent == []
    {
      this.disk, this.sdhc, this.fate := disk, sdhc, fate;
      clock, busy, sent := 0, 0, [];
    }

    /** Whole sectors, as many as an int can count; a byte-addressed card is at
        most 4 GiB. */
    ghost predicate Valid()
      reads this
    {
      && |disk| % SECTOR == 0 && |disk| / SECTOR < 0x8000_0000 && (!sdhc ==> |disk| <= WORD)
      && GoodHardware()
    }

    ghost predicate GoodHardware()
    {
      forall t :: fate(t).hw.Good()
    }

    /** From now on every step succeeds and the card answers. */
    ghost predicate Healthy()
      reads this
    {
      forall t :: t >= clock ==> fate(t).error == 0 && fate(t).hw.Works()
    }

    /** All steps of this time succeed. */
    ghost predicate Unbroken(from: nat, to: nat)
    {
      forall t :: from <= t < to ==> fate(t).error == 0 && fate(t).hw.Works()
    }

    /** Nothing was answered with an error in this time. */
    ghost predicate NoErrors(from: nat, to: nat)
    {
      forall t :: from <= t < to ==> fate(t).error == 0
    }

    /** When a command that starts at time c has been through all its steps:
        selection, data, perhaps a stop, and status polls until the card is ready. */
    function CommandEnd(c: nat, stop: bool): (t: nat)
      ensures t > c
    {
      c + (if stop then 3 else 2) + fate(c + 1).busy + 1
    }

    function SinglesEnd(c: nat, n: nat): (t: nat)
      ensures t >= c + n
    {
      if n == 0 then c else CommandEnd(SinglesEnd(c, n - 1), false)
    }

    /** And an attempt at len bytes. */
    function AttemptEnd(c: nat, len: nat, singleOnly: bool, dma: bool, stopAfter: bool): (t: nat)
      ensures len >= SECTOR ==> t > c
    {
      if singleOnly then SinglesEnd(c, len / SECTOR)
      else CommandEnd(if dma then c + 1 else c, stopAfter && len / SECTOR > 1)
    }

    method Ask() returns (f: Fate)
      modifies `clock
      ensures f == fate(old(clock)) && clock == old(clock) + 1
    {
      f := fate(clock);
      clock := clock + 1;
    }

    /** A command without data (selection), or any other step that can only fail
        or succeed. */
    method Step() returns (err: int)
      modifies `clock
      ensures clock == old(clock) + 1 && err == fate(old(clock)).error
    {
      var f := Ask();
      err := f.error;
    }

    /** STOP_TRANSMISSION. */
    method StopTransfer() returns (err: int)
      modifies `clock, `sent
      ensures clock == old(clock) + 1 && err == fate(old(clock)).error
      ensures sent == old(sent) + [Stop(err)]
    {
      var f := Ask();
      err := f.error;
      sent := sent + [Stop(err)];
    }

    /** SEND_STATUS: the card counts down its busy time. */
    method Status() returns (err: int, ready: bool)
      modifies `clock, `busy
      ensures clock == old(clock) + 1 && err == fate(old(clock)).error
      ensures ready <==> old(busy) == 0
      ensures busy == if ready then 0 else old(busy) - 1
    {
      var f := Ask();
      ready := busy == 0;
      if busy > 0 {
        busy := busy - 1;
      }
      err := f.error;
    }

    /** A read command, run on the chip: on success the bytes at the address,
        otherwise anything in the part of the buffer it was to fill. */
    method ReadData(adma: bool, opcode: nat, arg: word, data: array<byte>, off: nat, len: nat) returns (err: int)
      requires Valid() && off + len <= data.Length && opcode < 64 && 0 < len && len % SECTOR == 0
      modifies `clock, `busy, `sent, data
      ensures Valid() && clock == old(clock) + 1 && sent == old(sent) + [Data(Multiple(opcode), err)]
      ensures fate(old(clock)).error != 0 ==> err == fate(old(clock)).error
      ensures SameOutside(data[..], old(data[..]), off, len)
      ensures err == 0 ==>
        var a := Address(sdhc, arg);
        a + len <= |disk| && data[off..off + len] == disk[a..a + len]
      ensures busy == fate(old(clock)).busy
      ensures Unbroken(old(clock), clock) && len <= MAX_SEND && Fits(true, opcode, len) ==>
        Address(sdhc, arg) + len <= |disk| ==> err == 0
    {
      hide Spliced, SameOutside, Address, Fits;
      var f := Ask();
      busy := f.busy;
      err := f.error;
      var x: seq<byte> := seq(len, i requires 0 <= i => f.junk(i));
      if err == 0 {
        var d;
        err, d := DataPath.ReadThroughChip(adma, opcode, arg, len, sdhc, disk, f.hw);
        if err == 0 {
          x := d;
        }
      }
      sent := sent + [Data(Multiple(opcode), err)];
      SplicedIsLocal(data[..], off, x);
      Deliver(data, off, x);
      assert data[off..off + len] == data[..][off..off + len];
    }

    /** A write command, run on the chip: on failure the addressed blocks may hold
        anything. */
    method WriteData(adma: bool, opcode: nat, arg: word, data: array<byte>, off: nat, len: nat) returns (err: int)
      requires Valid() && off + len <= data.Length && opcode < 64 && 0 < len && len % SECTOR == 0
      modifies `disk, `clock, `busy, `sent
      ensures Valid() && clock == old(clock) + 1 && busy == fate(old(clock)).busy
      ensures sent == old(sent) + [Data(Multiple(opcode), err)]
      ensures fate(old(clock)).error != 0 ==> err == fate(old(clock)).error
      ensures
        var a := Address(sdhc, arg);
        if a + len <= |old(disk)| then
          && SameOutside(disk, old(disk), a, len)
          && (err == 0 ==> disk == Spliced(old(disk), a, data[off..off + len]))
          && (Unbroken(old(clock), clock) && len <= MAX_SEND && Fits(false, opcode, len) ==> err == 0)
        else err != 0 && disk == old(disk)
    {
      hide Spliced, SameOutside, Address, Fits;
      var f := Ask();
      busy := f.busy;
      err := f.error;
      var a := Address(sdhc, arg);
      var disk' := disk;
      if err == 0 {
        err, disk' := DataPath.WriteThroughChip(adma, opcode, arg, data[off..off + len], sdhc, disk, f.hw);
      }
      sent := sent + [Data(Multiple(opcode), err)];
      if err == 0 {
        SplicedIsLocal(disk, a, data[off..off + len]);
        disk := disk';
      } else if a + len <= |disk| {
        var x: seq<byte> := seq(len, i requires 0 <= i => f.junk(i));
        SplicedIsLocal(disk, a, x);
        disk := Spliced(disk, a, x);
      }
    }
  }

  /** Blocks of the card. */
  ghost predicate InRange(card: Card, blkno: int, len: nat)
    reads card
  {
    0 <= blkno && len % SECTOR == 0 && blkno * SECTOR + len <= |card.disk|
  }

  lemma InRangeAddress(card: Card, blkno: int, len: nat)
    requires card.Valid() && InRange(card, blkno, len) && len > 0
    ensures Address(card.sdhc, Argument(card.sdhc, blkno)) == blkno * SECTOR
  {
    AddressingIsExact(card.sdhc, blkno);
  }

  // ------------------------------------------------------------------------
  // Reading

  /** Poll SEND_STATUS until the card is ready; it is busy for a finite time. */
  method WaitReady(card: Card) returns (err: int)
    modifies card`clock, card`busy
    ensures old(card.clock) < card.clock <= old(card.clock) + old(card.busy) + 1
    ensures err == 0 ==> card.NoErrors(old(card.clock), card.clock)
    ensures err == 0 ==> card.busy == 0 && card.clock == old(card.clock) + old(card.busy) + 1
    ensures card.Unbroken(old(card.clock), old(card.clock) + old(card.busy) + 1) ==> err == 0
  {
    var ready := false;
    err := 0;
    while !ready
      invariant err == 0 && card.NoErrors(old(card.clock), card.clock)
      invariant card.clock + card.busy == old(card.clock) + old(card.busy) + if ready then 1 else 0
      invariant ready ==> card.busy == 0
      invariant card.clock >= old(card.clock)
      decreases if ready then 0 else card.busy + 1
    {
      err, ready := card.Status();
      if err != 0 {
        break;
      }
    }
  }

  /** sdmmc_mem_read_block_subr. */
  method ReadBlockSubr(card: Card, adma: bool, blkno: int, data: array<byte>, off: nat, len: nat, stopAfter: bool)
    returns (err: int)
    requires card.Valid() && InRange(card, blkno, len) && len > 0 && off + len <= data.Length
    modifies card`clock, card`busy, card`sent, data
    ensures card.Valid()
    ensures card.fate(old(card.clock)).error == 0 && card.fate(old(card.clock) + 1).error != 0 ==>
      && err != 0 && card.clock == old(card.clock) + 2
      && card.sent == old(card.sent) + [Data(len / SECTOR > 1, card.fate(old(card.clock) + 1).error)]
    ensures SameOutside(data[..], old(data[..]), off, len)
    ensures err == 0 ==> data[off..off + len] == card.disk[blkno * SECTOR..blkno * SECTOR + len]
    ensures err == 0 ==> card.busy == 0
    ensures old(card.sent) <= card.sent
    ensures ReadAttempt(card.sent[|old(card.sent)|..], len / SECTOR > 1, stopAfter, err)
    ensures err == 0 ==> card.NoErrors(old(card.clock), card.clock)
    ensures err == 0 ==> card.clock == card.CommandEnd(old(card.clock), stopAfter && len / SECTOR > 1)
    ensures old(card.clock) < card.clock <= card.CommandEnd(old(card.clock), stopAfter && len / SECTOR > 1)
    ensures len <= MAX_SEND
            && card.Unbroken(old(card.clock), card.CommandEnd(old(card.clock), stopAfter && len / SECTOR > 1)) ==>
      err == 0
  {
    hide Disciplined;
    err := card.Step();
    if err != 0 {
      return;
    }
    InRangeAddress(card, blkno, len);
    var opcode := if len / SECTOR > 1 then READ_BLOCK_MULTIPLE else READ_BLOCK_SINGLE;
    err := card.ReadData(adma, opcode, Argument(card.sdhc, blkno), data, off, len);
    if err != 0 {
      return;
    }
    if stopAfter && opcode == READ_BLOCK_MULTIPLE {
      err := card.StopTransfer();
      if err != 0 {
        return;
      }
    }
    err := WaitReady(card);
  }

  lemma SameOutsideItself(s: seq<byte>, off: nat, len: nat)
    requires off + len <= |s|
    ensures SameOutside(s, s, off, len)
  {
  }

  lemma {:induction false} SinglesLater(card: Card, c: nat, i: nat, n: nat)
    requires i <= n
    ensures c <= card.SinglesEnd(c, i) <= card.SinglesEnd(c, n)
    decreases n
  {
    if i < n { SinglesLater(card, c, i, n - 1); }
  }

  lemma SinglesStart(card: Card, c: nat)
    ensures card.SinglesEnd(c, 0) == c
  {
  }

  /** The command of sector i, as part of the whole. */
  lemma SinglesStep(card: Card, c: nat, i: nat, n: nat)
    requires i < n
    ensures card.SinglesEnd(c, i + 1) == card.CommandEnd(card.SinglesEnd(c, i), false)
    ensures c <= card.SinglesEnd(c, i + 1) <= card.SinglesEnd(c, n)
    ensures card.Unbroken(c, card.SinglesEnd(c, n))
            ==> card.Unbroken(card.SinglesEnd(c, i), card.CommandEnd(card.SinglesEnd(c, i), false))
  {
    SinglesLater(card, c, i, i + 1);
    SinglesLater(card, c, i + 1, n);
  }

  /** sdmmc_mem_single_read_block: one command per sector. */
  method SingleReadBlock(card: Card, blkno: int, data: array<byte>, len: nat, stopAfter: bool) returns (err: int)
    requires card.Valid() && InRange(card, blkno, len) && len <= data.Length
    modifies card`clock, card`busy, card`sent, data
    ensures Kept(old(card.sent), card.sent, stopAfter)
    ensures err == 0 ==> card.sent == old(card.sent) + AttemptSends(len, true, stopAfter)
    ensures card.Valid()
    ensures err == 0 ==> data[..len] == card.disk[blkno * SECTOR..blkno * SECTOR + len]
    ensures SameOutside(data[..], old(data[..]), 0, len)
    ensures err == 0 ==> card.NoErrors(old(card.clock), card.clock)
    ensures err == 0 ==> card.clock == card.SinglesEnd(old(card.clock), len / SECTOR)
    ensures len >= SECTOR ==> old(card.clock) < card.clock
    ensures old(card.clock) <= card.clock <= card.SinglesEnd(old(card.clock), len / SECTOR)
    ensures card.Unbroken(old(card.clock), card.SinglesEnd(old(card.clock), len / SECTOR)) ==> err == 0
  {
    hide SameOutside, Disciplined, ReadAttempt, AttemptSends, Card.SinglesEnd, Card.CommandEnd, Card.Unbroken;
    err := 0;
    SinglesStart(card, card.clock);
    NoSingles(card.sent, stopAfter);
    SameOutsideItself(data[..], 0, len);
    var i := 0;
    while i < len / SECTOR
      invariant card.NoErrors(old(card.clock), card.clock)
      invariant Kept(old(card.sent), card.sent, stopAfter)
      invariant card.sent == old(card.sent) + AttemptSends(i * SECTOR, true, stopAfter)
      invariant 0 <= i <= len / SECTOR && err == 0 && card.Valid() && card.clock == card.SinglesEnd(old(card.clock), i)
      invariant data[..i * SECTOR] == card.disk[blkno * SECTOR..blkno * SECTOR + i * SECTOR]
      invariant SameOutside(data[..], old(data[..]), 0, len)
    {
      ghost var sent1 := card.sent;
      ghost var was := data[..];
      SinglesStep(card, old(card.clock), i, len / SECTOR);
      err := ReadBlockSubr(card, false, blkno + i, data, i * SECTOR, SECTOR, stopAfter);
      AttemptKeeps(sent1, card.sent, SECTOR, stopAfter, err);
      SameOutsideGrows(data[..], was, i * SECTOR, SECTOR, 0, len);
      SameOutsideTrans(data[..], was, old(data[..]), 0, len);
      if err != 0 {
        return;
      }
      AppendSector(data[..], was, card.disk, blkno, i);
      SinglesMore(old(card.sent), sent1, card.sent, i, stopAfter);
      i := i + 1;
    }
  }

  lemma AppendSector(d: seq<byte>, was: seq<byte>, disk: seq<byte>, blkno: nat, i: nat)
    requires SameOutside(d, was, i * SECTOR, SECTOR)
    requires blkno * SECTOR + i * SECTOR + SECTOR <= |disk|
    requires was[..i * SECTOR] == disk[blkno * SECTOR..blkno * SECTOR + i * SECTOR]
    requires d[i * SECTOR..i * SECTOR + SECTOR] == disk[(blkno + i) * SECTOR..(blkno + i) * SECTOR + SECTOR]
    ensures d[..(i + 1) * SECTOR] == disk[blkno * SECTOR..blkno * SECTOR + (i + 1) * SECTOR]
  {
    assert d[..(i + 1) * SECTOR] == d[..i * SECTOR] + d[i * SECTOR..i * SECTOR + SECTOR];
  }

  /** sdmmc_mem_read_block: single-only, plain and DMA controllers.  (Loading the
      DMA map is a step that can fail.) */
  method ReadBlock(card: Card, blkno: int, data: array<byte>, len: nat, singleOnly: bool, dma: bool, stopAfter: bool)
    returns (err: int)
    requires card.Valid() && InRange(card, blkno, len) && 0 < len <= data.Length
    modifies card`clock, card`busy, card`sent, data
    ensures Kept(old(card.sent), card.sent, stopAfter)
    ensures err == 0 ==> card.sent == old(card.sent) + AttemptSends(len, singleOnly, stopAfter)
    ensures !singleOnly && !dma
            && card.fate(old(card.clock)).error == 0 && card.fate(old(card.clock) + 1).error != 0 ==>
      && err != 0 && card.clock == old(card.clock) + 2
      && card.sent == old(card.sent) + [Data(len / SECTOR > 1, card.fate(old(card.clock) + 1).error)]
    ensures !singleOnly ==>
      old(card.sent) <= card.sent && ReadAttempt(card.sent[|old(card.sent)|..], len / SECTOR > 1, stopAfter, err)
    ensures card.Valid()
    ensures err == 0 ==> data[..len] == card.disk[blkno * SECTOR..blkno * SECTOR + len]
    ensures err == 0 ==> card.NoErrors(old(card.clock), card.clock)
    ensures err == 0 ==> card.clock == card.AttemptEnd(old(card.clock), len, singleOnly, dma, stopAfter)
    ensures old(card.clock) < card.clock <= card.AttemptEnd(old(card.clock), len, singleOnly, dma, stopAfter)
    ensures len <= MAX_SEND
            && card.Unbroken(old(card.clock), card.AttemptEnd(old(card.clock), len, singleOnly, dma, stopAfter)) ==>
      err == 0
  {
    hide Disciplined, AttemptSends;
    if singleOnly {
      err := SingleReadBlock(card, blkno, data, len, stopAfter);
      return;
    }
    if dma {
      err := card.Step();
      if err != 0 {
        return;
      }
    }
    err := ReadBlockSubr(card, dma, blkno, data, 0, len, stopAfter);
    AttemptKeeps(old(card.sent), card.sent, len, stopAfter, err);
  }

  // ------------------------------------------------------------------------
  // Writing

  /** sdmmc_mem_write_block_subr: an error of the data command is kept while the
      transfer is stopped and the card polled. */
  method WriteBlockSubr(card: Card, adma: bool, blkno: int, data: array<byte>, off: nat, len: nat, stopAfter: bool)
    returns (err: int)
    requires card.Valid() && InRange(card, blkno, len) && len > 0 && off + len <= data.Length
    modifies card
    ensures card.Valid()
    ensures SameOutside(card.disk, old(card.disk), blkno * SECTOR, len)
    ensures err == 0 ==> card.disk == Spliced(old(card.disk), blkno * SECTOR, data[off..off + len])
    ensures err == 0 ==> card.busy == 0
    ensures old(card.sent) <= card.sent
    ensures WriteAttempt(card.sent[|old(card.sent)|..], len / SECTOR > 1, stopAfter, err)
    ensures err == 0 ==> card.NoErrors(old(card.clock), card.clock)
    ensures err == 0 ==> card.clock == card.CommandEnd(old(card.clock), stopAfter && len / SECTOR > 1)
    ensures old(card.clock) < card.clock <= card.CommandEnd(old(card.clock), stopAfter && len / SECTOR > 1)
    ensures len <= MAX_SEND
            && card.Unbroken(old(card.clock), card.CommandEnd(old(card.clock), stopAfter && len / SECTOR > 1)) ==>
      err == 0
  {
    hide Disciplined;
    var wrError := 0;
    err := card.Step();
    if err != 0 {
      return;
    }
    InRangeAddress(card, blkno, len);
    var opcode := if len / SECTOR > 1 then WRITE_BLOCK_MULTIPLE else WRITE_BLOCK_SINGLE;
    err := card.WriteData(adma, opcode, Argument(card.sdhc, blkno), data, off, len);
    wrError := err;
    if stopAfter && opcode == WRITE_BLOCK_MULTIPLE {
      err := card.StopTransfer();
      if err != 0 {
        err := if wrError != 0 then wrError else err;
        return;
      }
    }
    err := WaitReady(card);
    err := if wrError != 0 then wrError else err;
  }

  /** A damaged sector after i intact bytes is damage inside the range. */
  lemma FailedSector(disk: seq<byte>, was: seq<byte>, d0: seq<byte>, at: nat, i: nat, len: nat)
    requires SameOutside(was, d0, at, i) && SameOutside(disk, was, at + i, SECTOR)
    requires i + SECTOR <= len && at + len <= |d0|
    ensures SameOutside(disk, d0, at, len)
  {
    SameOutsideGrows(was, d0, at, i, at, len);
    SameOutsideGrows(disk, was, at + i, SECTOR, at, len);
    SameOutsideTrans(disk, was, d0, at, len);
  }

  /** sdmmc_mem_single_write_block. */
  method SingleWriteBlock(card: Card, blkno: int, data: array<byte>, len: nat, stopAfter: bool) returns (err: int)
    requires card.Valid() && InRange(card, blkno, len) && len <= data.Length
    modifies card
    ensures Kept(old(card.sent), card.sent, stopAfter)
    ensures err == 0 ==> card.sent == old(card.sent) + AttemptSends(len, true, stopAfter)
    ensures card.Valid()
    ensures SameOutside(card.disk, old(card.disk), blkno * SECTOR, len)
    ensures err == 0 ==> card.disk == Spliced(old(card.disk), blkno * SECTOR, data[..len])
    ensures err == 0 ==> card.NoErrors(old(card.clock), card.clock)
    ensures err == 0 ==> card.clock == card.SinglesEnd(old(card.clock), len / SECTOR)
    ensures len >= SECTOR ==> old(card.clock) < card.clock
    ensures old(card.clock) <= card.clock <= card.SinglesEnd(old(card.clock), len / SECTOR)
    ensures card.Unbroken(old(card.clock), card.SinglesEnd(old(card.clock), len / SECTOR)) ==> err == 0
  {
    hide Spliced, SameOutside, Disciplined, WriteAttempt, AttemptSends, Card.SinglesEnd, Card.CommandEnd, Card.Unbroken;
    err := 0;
    SinglesStart(card, card.clock);
    NoSingles(card.sent, stopAfter);
    var i := 0;
    ghost var d0, at := card.disk, blkno * SECTOR;
    SpliceNothing(d0, at);
    assert data[..0] == [];
    while i < len / SECTOR
      invariant card.NoErrors(old(card.clock), card.clock)
      invariant Kept(old(card.sent), card.sent, stopAfter)
      invariant card.sent == old(card.sent) + AttemptSends(i * SECTOR, true, stopAfter)
      invariant 0 <= i <= len / SECTOR && err == 0 && card.Valid() && card.clock == card.SinglesEnd(old(card.clock), i)
      invariant card.disk == Spliced(d0, at, data[..i * SECTOR])
    {
      ghost var sent1 := card.sent;
      ghost var was := card.disk;
      SinglesStep(card, old(card.clock), i, len / SECTOR);
      SplicedIsLocal(d0, at, data[..i * SECTOR]);
      assert (blkno + i) * SECTOR == at + i * SECTOR;
      err := WriteBlockSubr(card, false, blkno + i, data, i * SECTOR, SECTOR, stopAfter);
      AttemptKeeps(sent1, card.sent, SECTOR, stopAfter, err);
      if err != 0 {
        FailedSector(card.disk, was, d0, at, i * SECTOR, len);
        return;
      }
      SpliceAppend(d0, at, data[..i * SECTOR], data[i * SECTOR..i * SECTOR + SECTOR]);
      assert data[..i * SECTOR] + data[i * SECTOR..i * SECTOR + SECTOR] == data[..(i + 1) * SECTOR];
      SinglesMore(old(card.sent), sent1, card.sent, i, stopAfter);
      i := i + 1;
    }
    SplicedIsLocal(d0, at, data[..len]);
  }

  /** sdmmc_mem_write_block. */
  method WriteBlock(card: Card, blkno: int, data: array<byte>, len: nat, singleOnly: bool, dma: bool, stopAfter: bool)
    returns (err: int)
    requires card.Valid() && InRange(card, blkno, len) && 0 < len <= data.Length
    modifies card
    ensures Kept(old(card.sent), card.sent, stopAfter)
    ensures err == 0 ==> card.sent == old(card.sent) + AttemptSends(len, singleOnly, stopAfter)
    ensures !singleOnly ==>
      old(card.sent) <= card.sent && WriteAttempt(card.sent[|old(card.sent)|..], len / SECTOR > 1, stopAfter, err)
    ensures card.Valid()
    ensures SameOutside(card.disk, old(card.disk), blkno * SECTOR, len)
    ensures err == 0 ==> card.disk == Spliced(old(card.disk), blkno * SECTOR, data[..len])
    ensures err == 0 ==> card.NoErrors(old(card.clock), card.clock)
    ensures err == 0 ==> card.clock == card.AttemptEnd(old(card.clock), len, singleOnly, dma, stopAfter)
    ensures old(card.clock) < card.clock <= card.AttemptEnd(old(card.clock), len, singleOnly, dma, stopAfter)
    ensures len <= MAX_SEND
            && card.Unbroken(old(card.clock), card.AttemptEnd(old(card.clock), len, singleOnly, dma, stopAfter)) ==>
      err == 0
  {
    hide Disciplined, AttemptSends;
    if singleOnly {
      err := SingleWriteBlock(card, blkno, data, len, stopAfter);
      return;
    }
    if dma {
      err := card.Step();
      if err != 0 {
        return;
      }
    }
    err := WriteBlockSubr(card, dma, blkno, data, 0, len, stopAfter);
    AttemptKeeps(old(card.sent), card.sent, len, stopAfter, err);
  }

  // ------------------------------------------------------------------------
  // Retries

  /** The attempts of a retry start at these times: every attempt but the last met
      with a failure on its way, and so did the last one if it failed; the last one
      has come to its end if it succeeded. */
  ghost predicate Retried(card: Card, starts: seq<nat>, len: nat, singleOnly: bool, dma: bool, stopAfter: bool,
                          now: nat, err: int)
  {
    && |starts| > 0
    && forall k :: 0 <= k < |starts| ==>
         Attempted(card, starts[k], After(starts, k, now), len, singleOnly, dma, stopAfter,
                   k + 1 < |starts| || err != 0)
  }

  /** When attempt k was over. */
  function After(starts: seq<nat>, k: nat, now: nat): nat { if k + 1 < |starts| then starts[k + 1] else now }

  /** An attempt from one time to another. */
  ghost predicate Attempted(card: Card, from: nat, to: nat, len: nat, singleOnly: bool, dma: bool, stopAfter: bool,
                            failed: bool)
  {
    var end := card.AttemptEnd(from, len, singleOnly, dma, stopAfter);
    && from < to <= end
    && (if failed then len > MAX_SEND || !card.Unbroken(from, end) else to == end && card.NoErrors(from, end))
  }

  lemma {:induction false} RetriedOnce(card: Card, from: nat, len: nat, singleOnly: bool, dma: bool, stopAfter: bool,
                                       now: nat, err: int)
    requires Attempted(card, from, now, len, singleOnly, dma, stopAfter, err != 0)
    ensures Retried(card, [from], len, singleOnly, dma, stopAfter, now, err)
  {
    hide Attempted;
  }

  lemma {:induction false} RetriedAgain(card: Card, starts: seq<nat>, len: nat, singleOnly: bool, dma: bool,
                                        stopAfter: bool, from: nat, err0: int, now: nat, err: int)
    requires Retried(card, starts, len, singleOnly, dma, stopAfter, from, err0) && err0 != 0
    requires Attempted(card, from, now, len, singleOnly, dma, stopAfter, err != 0)
    ensures Retried(card, starts + [from], len, singleOnly, dma, stopAfter, now, err)
  {
    hide Attempted;
    var starts' := starts + [from];
    forall k | 0 <= k < |starts'|
      ensures Attempted(card, starts'[k], After(starts', k, now), len, singleOnly, dma, stopAfter,
                        k + 1 < |starts'| || err != 0)
    {
      if k < |starts| { assert starts'[k] == starts[k] && After(starts', k, now) == After(starts, k, from); }
    }
  }

  /** If nothing fails on the way of the first attempt, it is the only one. */
  lemma {:induction false} FirstAttemptDecides(card: Card, starts: seq<nat>, len: nat, singleOnly: bool, dma: bool,
                                               stopAfter: bool, now: nat, err: int)
    requires Retried(card, starts, len, singleOnly, dma, stopAfter, now, err) && len <= MAX_SEND
    requires card.Unbroken(starts[0], card.AttemptEnd(starts[0], len, singleOnly, dma, stopAfter))
    ensures err == 0 && |starts| == 1 && now == card.AttemptEnd(starts[0], len, singleOnly, dma, stopAfter)
  {
    hide Card.Unbroken, Card.AttemptEnd;
    assert Attempted(card, starts[0], After(starts, 0, now), len, singleOnly, dma, stopAfter,
                     1 < |starts| || err != 0);
  }

  /** UTL_RUN_WITH_RETRY around a read: the unsigned counter is tested before it
      is decremented, so there are retries + 1 attempts. */
  method ReadWithRetry(card: Card, blkno: int, data: array<byte>, len: nat,
                       singleOnly: bool, dma: bool, stopAfter: bool)
    returns (err: int, attempts: nat, ghost starts: seq<nat>)
    requires card.Valid() && InRange(card, blkno, len) && 0 < len <= data.Length
    modifies card`clock, card`busy, card`sent, data
    ensures Kept(old(card.sent), card.sent, stopAfter)
    ensures card.Valid() && card.clock > old(card.clock)
    ensures |starts| == attempts > 0 && starts[0] == old(card.clock)
    ensures Retried(card, starts, len, singleOnly, dma, stopAfter, card.clock, err)
    ensures len <= MAX_SEND
            && card.Unbroken(old(card.clock), card.AttemptEnd(old(card.clock), len, singleOnly, dma, stopAfter)) ==>
      err == 0 && attempts == 1 && card.clock == card.AttemptEnd(old(card.clock), len, singleOnly, dma, stopAfter)
    ensures err == 0 && attempts == 1 ==> card.sent == old(card.sent) + AttemptSends(len, singleOnly, stopAfter)
    ensures err == 0 ==> data[..len] == card.disk[blkno * SECTOR..blkno * SECTOR + len]
    ensures 1 <= attempts <= RETRIES + 1 && (err != 0 ==> attempts == RETRIES + 1)
  {
    hide Disciplined, ReadAttempt, Retried, Card.Unbroken, Card.AttemptEnd, AttemptSends;
    err := 0;
    attempts := 0;
    starts := [];
    var left: int := RETRIES;
    var again := true;
    while again
      invariant Kept(old(card.sent), card.sent, stopAfter)
      invariant -1 <= left <= RETRIES && attempts == RETRIES - left
      invariant !again ==> err == 0 || left == -1
      invariant !again ==> attempts >= 1
      invariant again ==> left >= 0
      invariant card.Valid() && card.clock >= old(card.clock) && card.disk == old(card.disk)
      invariant !again && err == 0 ==> data[..len] == card.disk[blkno * SECTOR..blkno * SECTOR + len]
      invariant |starts| == attempts && (attempts > 0 ==> starts[0] == old(card.clock))
      invariant if attempts == 0 then card.clock == old(card.clock) && card.sent == old(card.sent)
                else card.clock > old(card.clock)
                     && Retried(card, starts, len, singleOnly, dma, stopAfter, card.clock, err)
      invariant again && attempts > 0 ==> err != 0
      invariant err == 0 && attempts == 1 ==> card.sent == old(card.sent) + AttemptSends(len, singleOnly, stopAfter)
      decreases again, left
    {
      ghost var start, err0 := card.clock, err;
      err := ReadBlock(card, blkno, data, len, singleOnly, dma, stopAfter);
      if attempts == 0 {
        assert starts + [start] == [start];
        RetriedOnce(card, start, len, singleOnly, dma, stopAfter, card.clock, err);
      } else {
        RetriedAgain(card, starts, len, singleOnly, dma, stopAfter, start, err0, card.clock, err);
      }
      starts := starts + [start];
      again := err != 0 && left != 0;
      left := left - 1;
      attempts := attempts + 1;
    }
    if len <= MAX_SEND && card.Unbroken(starts[0], card.AttemptEnd(starts[0], len, singleOnly, dma, stopAfter)) {
      FirstAttemptDecides(card, starts, len, singleOnly, dma, stopAfter, card.clock, err);
    }
  }

  method WriteWithRetry(card: Card, blkno: int, data: array<byte>, len: nat,
                        singleOnly: bool, dma: bool, stopAfter: bool)
    returns (err: int, attempts: nat, ghost starts: seq<nat>)
    requires card.Valid() && InRange(card, blkno, len) && 0 < len <= data.Length
    modifies card
    ensures Kept(old(card.sent), card.sent, stopAfter)
    ensures card.Valid() && card.clock > old(card.clock)
    ensures |starts| == attempts > 0 && starts[0] == old(card.clock)
    ensures Retried(card, starts, len, singleOnly, dma, stopAfter, card.clock, err)
    ensures len <= MAX_SEND
            && card.Unbroken(old(card.clock), card.AttemptEnd(old(card.clock), len, singleOnly, dma, stopAfter)) ==>
      err == 0 && attempts == 1 && card.clock == card.AttemptEnd(old(card.clock), len, singleOnly, dma, stopAfter)
    ensures err == 0 && attempts == 1 ==> card.sent == old(card.sent) + AttemptSends(len, singleOnly, stopAfter)
    ensures SameOutside(card.disk, old(card.disk), blkno * SECTOR, len)
    ensures err == 0 ==> card.disk == Spliced(old(card.disk), blkno * SECTOR, data[..len])
    ensures 1 <= attempts <= RETRIES + 1 && (err != 0 ==> attempts == RETRIES + 1)
  {
    hide Disciplined, WriteAttempt, Retried, Card.Unbroken, Card.AttemptEnd, AttemptSends;
    err := 0;
    attempts := 0;
    starts := [];
    var left: int := RETRIES;
    var again := true;
    ghost var d0 := card.disk;
    while again
      invariant Kept(old(card.sent), card.sent, stopAfter)
      invariant -1 <= left <= RETRIES && attempts == RETRIES - left
      invariant !again ==> err == 0 || left == -1
      invariant !again ==> attempts >= 1
      invariant again ==> left >= 0
      invariant card.Valid() && card.clock >= old(card.clock)
      invariant SameOutside(card.disk, d0, blkno * SECTOR, len)
      invariant !again && err == 0 ==> card.disk == Spliced(d0, blkno * SECTOR, data[..len])
      invariant |starts| == attempts && (attempts > 0 ==> starts[0] == old(card.clock))
      invariant if attempts == 0 then card.clock == old(card.clock) && card.sent == old(card.sent)
                else card.clock > old(card.clock)
                     && Retried(card, starts, len, singleOnly, dma, stopAfter, card.clock, err)
      invariant again && attempts > 0 ==> err != 0
      invariant err == 0 && attempts == 1 ==> card.sent == old(card.sent) + AttemptSends(len, singleOnly, stopAfter)
      decreases again, left
    {
      ghost var was := card.disk;
      ghost var start, err0 := card.clock, err;
      err := WriteBlock(card, blkno, data, len, singleOnly, dma, stopAfter);
      if attempts == 0 {
        assert starts + [start] == [start];
        RetriedOnce(card, start, len, singleOnly, dma, stopAfter, card.clock, err);
      } else {
        RetriedAgain(card, starts, len, singleOnly, dma, stopAfter, start, err0, card.clock, err);
      }
      starts := starts + [start];
      SameOutsideTrans(card.disk, was, d0, blkno * SECTOR, len);
      SpliceRepairs(was, d0, blkno * SECTOR, data[..len]);
      again := err != 0 && left != 0;
      left := left - 1;
      attempts := attempts + 1;
    }
    if len <= MAX_SEND && card.Unbroken(starts[0], card.AttemptEnd(starts[0], len, singleOnly, dma, stopAfter)) {
      FirstAttemptDecides(card, starts, len, singleOnly, dma, stopAfter, card.clock, err);
    }
  }

  function Zeros(n: nat): (m: map<nat, byte>)
    ensures forall a :: 0 <= a < n ==> a in m
  {
    if n == 0 then map[] else Zeros(n - 1)[n - 1 := 0]
  }

  /** Hardware that is in order and maps nothing. */
  function IdleHardware(): DataPath.Hardware
  {
    DataPath.Hardware(RtsxChip.Chip(Zeros(0x4000), [], [], [], false), RtsxChip.Short(0, 0),
                      o => ScatterGather.GenError(EIO), o => o, 0, 0, Zeros(ScatterGather.MAXPHYS))
  }

  lemma IdleHardwareIsGood()
    ensures IdleHardware().Good()
  {
    assert forall i :: 0 <= i < ScatterGather.MAXPHYS ==>
      && ScatterGather.MapRange(IdleHardware().phys, 0, ScatterGather.MAXPHYS)[i] == i
      && ScatterGather.Range(0, ScatterGather.MAXPHYS)[i] == i;
  }

  /** A card of two sectors that can be selected but not read. */
  method Unreadable() returns (card: Card)
    ensures fresh(card) && card.Valid() && |card.disk| == 1024 && card.sent == [] && card.clock == 0
    ensures forall t :: card.fate(t).error == if t % 2 == 0 then 0 else EIO
  {
    IdleHardwareIsGood();
    var hw := IdleHardware();
    card := new Card(seq(1024, i => 0), true, n => Fate(if n % 2 == 0 then 0 else EIO, i => 0, 0, hw));
  }

  /** A multi-block read fails twice: the second command goes to a card whose
      first transfer has not been stopped. */
  method RetriedWhileOpen() returns (card: Card)
    ensures fresh(card) && card.Valid()
    ensures card.sent == [Data(true, EIO), Data(true, EIO)] && Open(card.sent[..1])
  {
    hide Disciplined, ReadAttempt;
    card := Unreadable();
    var data := new byte[1024];
    var err := ReadBlock(card, 0, data, 1024, false, false, true);
    err := ReadBlock(card, 0, data, 1024, false, false, true);
  }

  // ------------------------------------------------------------------------
  // Requests

  /** IOMemoryDescriptor::writeBytes: copies what fits into the client's buffer. */
  method WriteBytes(buffer: array<byte>, offset: nat, buf: array<byte>, len: nat) returns (copied: nat)
    requires len <= buf.Length && buf != buffer
    modifies buffer
    ensures copied == if offset < buffer.Length then Min(len, buffer.Length - offset) else 0
    ensures buffer[..] == if copied > 0 then Spliced(old(buffer[..]), offset, buf[..copied]) else old(buffer[..])
  {
    copied := if offset < buffer.Length then Min(len, buffer.Length - offset) else 0;
    if copied > 0 {
      Deliver(buffer, offset, buf[..copied]);
    }
  }

  /** IOMemoryDescriptor::readBytes. */
  method ReadBytes(buffer: array<byte>, offset: nat, buf: array<byte>, len: nat) returns (copied: nat)
    requires len <= buf.Length && buf != buffer
    modifies buf
    ensures copied == if offset < buffer.Length then Min(len, buffer.Length - offset) else 0
    ensures buf[..] == if copied > 0 then Spliced(old(buf[..]), 0, buffer[offset..offset + copied]) else old(buf[..])
  {
    copied := if offset < buffer.Length then Min(len, buffer.Length - offset) else 0;
    if copied > 0 {
      Deliver(buf, 0, buffer[offset..offset + copied]);
    }
  }

  lemma SliceOfSlice(s: seq<byte>, from: nat, to: nat, n: nat, m: nat)
    requires from <= to <= |s| && n <= m <= to - from
    ensures s[from..to][n..m] == s[from + n..from + m]
  {
    var a, b := s[from..to][n..m], s[from + n..from + m];
    assert |a| == |b| && forall i :: 0 <= i < |a| ==> a[i] == s[from..to][n + i] == b[i];
  }

  /** One chunk of a read: the disk bytes, as far as the client's buffer is long
      enough for them. */
  method ReadChunk(card: Card, blocks: int, buf: array<byte>, len: nat, buffer: array<byte>, sent: nat,
                   singleOnly: bool, dma: bool, stopAfter: bool) returns (err: int)
    requires card.Valid() && InRange(card, blocks, len) && 0 < len <= buf.Length && buf != buffer
    modifies card`clock, card`busy, card`sent, buf, buffer
    ensures Kept(old(card.sent), card.sent, stopAfter)
    ensures card.Valid() && card.clock >= old(card.clock)
    ensures err == 0 ==>
      && sent < buffer.Length
      && var n := Min(len, buffer.Length - sent);
         buffer[..] == Spliced(old(buffer[..]), sent, card.disk[blocks * SECTOR..blocks * SECTOR + n])
    ensures err != 0 ==> buffer[..] == old(buffer[..])
    ensures old(card.Healthy()) && len <= MAX_SEND && sent < buffer.Length ==>
      && err == 0 && card.sent == old(card.sent) + AttemptSends(len, singleOnly, stopAfter)
      && card.clock == card.AttemptEnd(old(card.clock), len, singleOnly, dma, stopAfter)
  {
    hide Spliced, Disciplined;
    var attempts, copied;
    ghost var starts;
    err, attempts, starts := ReadWithRetry(card, blocks, buf, len, singleOnly, dma, stopAfter);
    if err != 0 {
      return;
    }
    copied := WriteBytes(buffer, sent, buf, len);
    if copied == 0 {
      return EIO;
    }
    SliceOfSlice(buf[..], 0, len, 0, copied);
    SliceOfSlice(card.disk, blocks * SECTOR, blocks * SECTOR + len, 0, copied);
    assert buf[..copied] == buf[..][..copied] && buf[..len] == buf[..][..len];
  }

  lemma FilledUp(buf: seq<byte>, was: seq<byte>, x: seq<byte>, len: nat)
    requires |x| <= len <= |was| && buf == Spliced(was, 0, x)
    ensures buf[..len] == x + was[|x|..len]
  {
  }

  /** One chunk of a write: what the client's buffer still has, and behind it what
      the driver's buffer held before. */
  method WriteChunk(card: Card, blocks: int, buf: array<byte>, len: nat, buffer: array<byte>, sent: nat,
                    singleOnly: bool, dma: bool, stopAfter: bool) returns (err: int)
    requires card.Valid() && InRange(card, blocks, len) && 0 < len <= buf.Length && buf != buffer
    modifies card, buf
    ensures Kept(old(card.sent), card.sent, stopAfter)
    ensures card.Valid() && card.clock >= old(card.clock)
    ensures SameOutside(card.disk, old(card.disk), blocks * SECTOR, len)
    ensures err == 0 ==>
      && sent < buffer.Length
      && var n := Min(len, buffer.Length - sent);
         card.disk == Spliced(old(card.disk), blocks * SECTOR, buffer[sent..sent + n] + old(buf[n..len]))
    ensures err == 0 ==>
      buf[..] == Spliced(old(buf[..]), 0, buffer[sent..sent + Min(len, buffer.Length - sent)])
    ensures old(card.Healthy()) && len <= MAX_SEND && sent < buffer.Length ==>
      && err == 0 && card.sent == old(card.sent) + AttemptSends(len, singleOnly, stopAfter)
      && card.clock == card.AttemptEnd(old(card.clock), len, singleOnly, dma, stopAfter)
  {
    hide Spliced, SameOutside, Disciplined;
    var attempts, copied;
    ghost var starts;
    ghost var bufWas := buf[..];
    copied := ReadBytes(buffer, sent, buf, len);
    if copied == 0 {
      SameOutsideItself(card.disk, blocks * SECTOR, len);
      return EIO;
    }
    FilledUp(buf[..], bufWas, buffer[sent..sent + copied], len);
    assert buf[..len] == buf[..][..len] && bufWas[copied..len] == old(buf[copied..len]);
    err, attempts, starts := WriteWithRetry(card, blocks, buf, len, singleOnly, dma, stopAfter);
  }

  /** The first `sent` disk bytes, in a buffer that may be shorter. */
  function Received(was: seq<byte>, disk: seq<byte>, at: nat, sent: nat): (r: seq<byte>)
    requires at + sent <= |disk|
    ensures |r| == |was|
  {
    Spliced(was, 0, disk[at..at + Min(|was|, sent)])
  }

  lemma ReceivedMore(was: seq<byte>, disk: seq<byte>, at: nat, sent: nat, len: nat)
    requires at + sent + len <= |disk| && sent < |was|
    ensures
      var n := Min(len, |was| - sent);
      Spliced(Received(was, disk, at, sent), sent, disk[at + sent..at + sent + n])
      == Received(was, disk, at, sent + len)
  {
    var n := Min(len, |was| - sent);
    SpliceAppend(was, 0, disk[at..at + sent], disk[at + sent..at + sent + n]);
    assert disk[at..at + sent] + disk[at + sent..at + sent + n] == disk[at..at + sent + n];
  }

  lemma ReceivedNothing(was: seq<byte>, disk: seq<byte>, at: nat)
    requires at <= |disk|
    ensures Received(was, disk, at, 0) == was
  {
  }

  /** What has been written after `sent` bytes: the client's, and behind them the
      tail that the driver's buffer put in their place. */
  ghost predicate Written(disk: seq<byte>, d0: seq<byte>, at: nat, b: seq<byte>, sent: nat, tail: seq<byte>)
  {
    var m := Min(sent, |b|);
    m + |tail| == sent && at + sent <= |d0| && disk == Spliced(d0, at, b[..m] + tail)
  }

  /** One written chunk after `sent` written bytes. */
  lemma WrittenMore(disk: seq<byte>, was: seq<byte>, d0: seq<byte>, at: nat, b: seq<byte>, sent: nat,
                    tail: seq<byte>, tail': seq<byte>, len: nat)
    requires Written(was, d0, at, b, sent, tail) && sent < |b| && at + sent + len <= |was|
    requires
      var n := Min(len, |b| - sent);
      n + |tail'| == len && disk == Spliced(was, at + sent, b[sent..sent + n] + tail')
    ensures Written(disk, d0, at, b, sent + len, tail')
  {
    var n := Min(len, |b| - sent);
    assert b[..sent] + tail == b[..sent];
    SpliceAppend(d0, at, b[..sent], b[sent..sent + n] + tail');
    assert b[..sent] + (b[sent..sent + n] + tail') == b[..sent + n] + tail';
  }

  /** Progress of a write, and nothing outside the range. */
  ghost predicate Writing(disk: seq<byte>, d0: seq<byte>, at: nat, total: nat, b: seq<byte>, sent: nat, tail: seq<byte>)
  {
    SameOutside(disk, d0, at, total) && sent <= total && Written(disk, d0, at, b, sent, tail)
  }

  lemma WritingStarts(d0: seq<byte>, at: nat, total: nat, b: seq<byte>)
    requires at + total <= |d0|
    ensures Writing(d0, d0, at, total, b, 0, [])
  {
    SpliceNothing(d0, at);
    SameOutsideGrows(d0, d0, at, 0, at, total);
    assert b[..0] + [] == [];
  }

  lemma WritingMore(disk: seq<byte>, was: seq<byte>, d0: seq<byte>, at: nat, b: seq<byte>, sent: nat, len: nat,
                    tail: seq<byte>, tail': seq<byte>, total: nat)
    requires Writing(was, d0, at, total, b, sent, tail) && sent < |b| && sent + len <= total
    requires SameOutside(disk, was, at + sent, len)
    requires
      var n := Min(len, |b| - sent);
      n + |tail'| == len && disk == Spliced(was, at + sent, b[sent..sent + n] + tail')
    ensures Writing(disk, d0, at, total, b, sent + len, tail')
  {
    hide Spliced;
    DamagedMore(disk, was, d0, at, sent, len, total);
    WrittenMore(disk, was, d0, at, b, sent, tail, tail', len);
  }

  lemma DamagedMore(disk: seq<byte>, was: seq<byte>, d0: seq<byte>, at: nat, sent: nat, len: nat, total: nat)
    requires SameOutside(was, d0, at, total) && SameOutside(disk, was, at + sent, len) && sent + len <= total
    ensures SameOutside(disk, d0, at, total)
  {
    SameOutsideGrows(disk, was, at + sent, len, at, total);
    SameOutsideTrans(disk, was, d0, at, total);
  }

  /** Progress of a request in either direction. */
  ghost predicate Moved(fromCard: bool, disk: seq<byte>, d0: seq<byte>, at: nat, total: nat,
                        b: seq<byte>, b0: seq<byte>, sent: nat, tail: seq<byte>)
  {
    && at + total <= |d0| && sent <= total
    && if fromCard then disk == d0 && b == Received(b0, d0, at, sent)
       else b == b0 && Writing(disk, d0, at, total, b0, sent, tail)
  }

  lemma MovedNothing(fromCard: bool, d0: seq<byte>, at: nat, total: nat, b0: seq<byte>)
    requires at + total <= |d0|
    ensures Moved(fromCard, d0, d0, at, total, b0, b0, 0, [])
    ensures SameOutside(d0, d0, at, total)
  {
    hide Spliced, Written;
    ReceivedNothing(b0, d0, at);
    WritingStarts(d0, at, total, b0);
  }

  lemma MovedMeans(fromCard: bool, disk: seq<byte>, d0: seq<byte>, at: nat, total: nat,
                   b: seq<byte>, b0: seq<byte>, sent: nat, tail: seq<byte>)
    requires Moved(fromCard, disk, d0, at, total, b, b0, sent, tail)
    ensures at + total <= |d0| && sent <= total
    ensures fromCard ==> disk == d0 && b == Received(b0, d0, at, sent)
    ensures !fromCard ==> b == b0 && SameOutside(disk, d0, at, total) && |tail| == sent - Min(sent, |b|)
    ensures !fromCard ==> disk == Spliced(d0, at, b[..Min(sent, |b|)] + tail)
  {
    hide Spliced, SameOutside;
  }

  /** The tail of the last chunk: what the driver's buffer held from the chunk
      before. */
  ghost predicate TailIsOlder(b: seq<byte>, sent: nat, tail: seq<byte>)
  {
    sent > |b| && sent > MAX_SEND ==>
      MAX_SEND <= |b| && sent - MAX_SEND <= |b| && tail == b[|b| - MAX_SEND..sent - MAX_SEND]
  }

  /** Between the chunks of a write the driver's buffer holds the one just sent. */
  ghost predicate BufferHolds(buf: seq<byte>, b: seq<byte>, sent: nat)
  {
    0 < sent <= |b| ==> MAX_SEND <= sent && MAX_SEND <= |buf| && buf[..MAX_SEND] == b[sent - MAX_SEND..sent]
  }

  lemma OlderTail(buf: seq<byte>, b: seq<byte>, sent: nat, len: nat)
    requires BufferHolds(buf, b, sent) && sent < |b| && len <= |buf| && len <= MAX_SEND
    ensures
      var n := Min(len, |b| - sent);
      TailIsOlder(b, sent + len, buf[n..len])
  {
    var n := Min(len, |b| - sent);
    if sent + len > |b| && sent + len > MAX_SEND {
      SliceOfSlice(buf, 0, MAX_SEND, n, len);
      SliceOfSlice(b, sent - MAX_SEND, sent, n, len);
    }
  }

  lemma BufferRefilled(buf: seq<byte>, was: seq<byte>, b: seq<byte>, sent: nat)
    requires sent < |b| && MAX_SEND <= |was|
    requires buf == Spliced(was, 0, b[sent..sent + Min(MAX_SEND, |b| - sent)])
    ensures BufferHolds(buf, b, sent + MAX_SEND)
  {
  }

  /** The body of the chunk loop, in the direction of the request. */
  method MoveChunk(card: Card, fromCard: bool, blocks: int, buf: array<byte>, len: nat, buffer: array<byte>, sent: nat,
                   singleOnly: bool, dma: bool, stopAfter: bool, ghost d0: seq<byte>, ghost b0: seq<byte>,
                   ghost at: nat, ghost total: nat, ghost tail: seq<byte>) returns (err: int, ghost tail': seq<byte>)
    requires card.Valid() && InRange(card, blocks, len) && 0 < len <= buf.Length && buf != buffer
    requires Moved(fromCard, card.disk, d0, at, total, buffer[..], b0, sent, tail)
    requires blocks * SECTOR == at + sent && sent + len <= total && len <= MAX_SEND
    requires !fromCard ==> BufferHolds(buf[..], b0, sent)
    modifies card, buf, buffer
    ensures Kept(old(card.sent), card.sent, stopAfter)
    ensures card.Valid() && card.clock >= old(card.clock) && |card.disk| == |d0|
    ensures err == 0 ==> sent < |b0| && Moved(fromCard, card.disk, d0, at, total, buffer[..], b0, sent + len, tail')
    ensures err == 0 && !fromCard ==>
      && TailIsOlder(b0, sent + len, tail')
      && (len == MAX_SEND ==> BufferHolds(buf[..], b0, sent + len))
    ensures err != 0 && fromCard ==> card.disk == d0
    ensures err != 0 && !fromCard ==> buffer[..] == b0 && SameOutside(card.disk, d0, at, total)
    ensures old(card.Healthy()) && sent < buffer.Length ==>
      && err == 0 && card.sent == old(card.sent) + AttemptSends(len, singleOnly, stopAfter)
      && card.clock == card.AttemptEnd(old(card.clock), len, singleOnly, dma, stopAfter)
  {
    hide Disciplined, AttemptSends, Spliced, Received, Written, Writing, TailIsOlder, BufferHolds;
    ghost var was, bufWas := card.disk, buf[..];
    tail' := [];
    MovedMeans(fromCard, was, d0, at, total, buffer[..], b0, sent, tail);
    if fromCard {
      err := ReadChunk(card, blocks, buf, len, buffer, sent, singleOnly, dma, stopAfter);
      if err == 0 {
        ReceivedMore(b0, d0, at, sent, len);
      }
    } else {
      err := WriteChunk(card, blocks, buf, len, buffer, sent, singleOnly, dma, stopAfter);
      if err == 0 {
        tail' := bufWas[Min(len, |b0| - sent)..len];
        OlderTail(bufWas, b0, sent, len);
        if len == MAX_SEND { BufferRefilled(buf[..], bufWas, b0, sent); }
        WritingMore(card.disk, was, d0, at, b0, sent, len, tail, tail', total);
      } else {
        DamagedMore(card.disk, was, d0, at, sent, len, total);
      }
    }
  }

  lemma TailStarts(buf: seq<byte>, b: seq<byte>)
    ensures TailIsOlder(b, 0, []) && BufferHolds(buf, b, 0)
  {
  }

  /** When a request that starts at time c is through if nothing fails. */
  function RequestEnd(card: Card, c: nat, total: nat, singleOnly: bool, dma: bool, stopAfter: bool): nat
    decreases total
  {
    if total == 0 then c
    else
      var len := Min(total, MAX_SEND);
      RequestEnd(card, card.AttemptEnd(c, len, singleOnly, dma, stopAfter), total - len, singleOnly, dma, stopAfter)
  }

  /** What a whole request sends if nothing fails: every chunk once. */
  function RequestSends(total: nat, singleOnly: bool, stopAfter: bool): seq<Sent>
    decreases total
  {
    if total == 0 then []
    else
      var len := Min(total, MAX_SEND);
      AttemptSends(len, singleOnly, stopAfter) + RequestSends(total - len, singleOnly, stopAfter)
  }

  /** With the chunks that remain the request will have sent that, and be through
      then. */
  ghost predicate OnTrack(card: Card, now: nat, sent: seq<Sent>, remaining: nat, start: nat, sent0: seq<Sent>,
                          total: nat, singleOnly: bool, dma: bool, stopAfter: bool)
  {
    && sent + RequestSends(remaining, singleOnly, stopAfter) == sent0 + RequestSends(total, singleOnly, stopAfter)
    && RequestEnd(card, now, remaining, singleOnly, dma, stopAfter)
       == RequestEnd(card, start, total, singleOnly, dma, stopAfter)
  }

  lemma OnTrackStarts(card: Card, start: nat, sent0: seq<Sent>, total: nat,
                      singleOnly: bool, dma: bool, stopAfter: bool)
    ensures OnTrack(card, start, sent0, total, start, sent0, total, singleOnly, dma, stopAfter)
  {
  }

  lemma OnTrackMore(card: Card, now: nat, sent: seq<Sent>, remaining: nat, start: nat, sent0: seq<Sent>,
                    total: nat, singleOnly: bool, dma: bool, stopAfter: bool)
    requires OnTrack(card, now, sent, remaining, start, sent0, total, singleOnly, dma, stopAfter) && remaining > 0
    ensures
      var len := Min(remaining, MAX_SEND);
      OnTrack(card, card.AttemptEnd(now, len, singleOnly, dma, stopAfter),
              sent + AttemptSends(len, singleOnly, stopAfter), remaining - len, start, sent0,
              total, singleOnly, dma, stopAfter)
  {
    hide AttemptSends, Card.AttemptEnd;
  }

  lemma OnTrackEnds(card: Card, now: nat, sent: seq<Sent>, start: nat, sent0: seq<Sent>,
                    total: nat, singleOnly: bool, dma: bool, stopAfter: bool)
    requires OnTrack(card, now, sent, 0, start, sent0, total, singleOnly, dma, stopAfter)
    ensures sent == sent0 + RequestSends(total, singleOnly, stopAfter)
    ensures now == RequestEnd(card, start, total, singleOnly, dma, stopAfter)
  {
  }

  /** The chunk loop. */
  method MoveChunks(card: Card, fromCard: bool, block: nat, nblks: nat, buf: array<byte>, buffer: array<byte>,
                    singleOnly: bool, dma: bool, stopAfter: bool) returns (err: int, ghost tail: seq<byte>)
    requires card.Valid() && (block + nblks) * SECTOR <= |card.disk|
    requires buf != buffer && Min(nblks * SECTOR, MAX_SEND) <= buf.Length
    modifies card, buf, buffer
    ensures card.Valid() && Kept(old(card.sent), card.sent, stopAfter)
    ensures err == 0 ==>
      && Moved(fromCard, card.disk, old(card.disk), block * SECTOR, nblks * SECTOR,
               buffer[..], old(buffer[..]), nblks * SECTOR, tail)
      && (!fromCard ==> TailIsOlder(old(buffer[..]), nblks * SECTOR, tail))
    ensures err != 0 && fromCard ==> card.disk == old(card.disk)
    ensures err != 0 && !fromCard ==>
      buffer[..] == old(buffer[..]) && SameOutside(card.disk, old(card.disk), block * SECTOR, nblks * SECTOR)
    ensures old(card.Healthy()) && nblks * SECTOR <= buffer.Length ==>
      && err == 0 && card.sent == old(card.sent) + RequestSends(nblks * SECTOR, singleOnly, stopAfter)
      && card.clock == RequestEnd(card, old(card.clock), nblks * SECTOR, singleOnly, dma, stopAfter)
  {
    hide OnTrack, AttemptSends, RequestSends, RequestEnd, Card.AttemptEnd, Disciplined;
    hide Spliced, SameOutside, Received, Written, Writing, Moved, TailIsOlder, BufferHolds;
    ghost var d0, b0, at := card.disk, buffer[..], block * SECTOR;
    var total := nblks * SECTOR;
    tail := [];
    MovedNothing(fromCard, d0, at, total, b0);
    err := 0;
    var remaining, sent := total, 0;
    var blocks := Int32(block % WORD);
    TailStarts(buf[..], b0);
    OnTrackStarts(card, card.clock, card.sent, total, singleOnly, dma, stopAfter);
    while remaining > 0
      invariant Kept(old(card.sent), card.sent, stopAfter)
      invariant block <= blocks <= block + nblks && err == 0
      invariant sent == SECTOR * (blocks - block) && remaining == total - sent
      invariant card.Valid() && card.clock >= old(card.clock) && |card.disk| == |d0|
      invariant old(card.Healthy()) && total <= |b0| ==>
        OnTrack(card, card.clock, card.sent, remaining, old(card.clock), old(card.sent),
                total, singleOnly, dma, stopAfter)
      invariant Moved(fromCard, card.disk, d0, at, total, buffer[..], b0, sent, tail)
      invariant !fromCard ==> TailIsOlder(b0, sent, tail)
      invariant !fromCard && remaining > 0 ==> BufferHolds(buf[..], b0, sent)
    {
      var len := Min(remaining, MAX_SEND);
      assert len == SECTOR * (len / SECTOR);
      ghost var sent1, now := card.sent, card.clock;
      err, tail := MoveChunk(card, fromCard, blocks, buf, len, buffer, sent, singleOnly, dma, stopAfter,
                             d0, b0, at, total, tail);
      if err != 0 {
        break;
      }
      if old(card.Healthy()) && total <= |b0| {
        OnTrackMore(card, now, sent1, remaining, old(card.clock), old(card.sent), total, singleOnly, dma, stopAfter);
      }
      blocks := blocks + len / SECTOR;
      remaining := remaining - len;
      sent := sent + len;
    }
    if old(card.Healthy()) && total <= |b0| {
      OnTrackEnds(card, card.clock, card.sent, old(card.clock), old(card.sent), total, singleOnly, dma, stopAfter);
    }
  }

  /** read_task_impl_: the completion gets `reported` bytes.  A write from a client
      buffer that is too short fills up with a tail: the bytes 128 KiB before, or,
      in a request of one chunk, what the driver's buffer happened to hold. */
  method ReadTaskImpl(card: Card, fromCard: bool, block: nat, nblks: nat, buffer: array<byte>,
                      noAdma: bool, singleOnly: bool, dma: bool, stopAfter: bool)
    returns (err: int, reported: nat, ghost tail: seq<byte>)
    requires card.Valid() && (block + nblks) * SECTOR <= |card.disk|
    modifies card, buffer
    ensures card.Valid() && Kept(old(card.sent), card.sent, stopAfter)
    ensures reported == if err == 0 then nblks * SECTOR else 0
    ensures fromCard ==> card.disk == old(card.disk)
    ensures fromCard && err == 0 ==>
      buffer[..] == Received(old(buffer[..]), card.disk, block * SECTOR, nblks * SECTOR)
    ensures !fromCard ==>
      && buffer[..] == old(buffer[..])
      && SameOutside(card.disk, old(card.disk), block * SECTOR, nblks * SECTOR)
    ensures !fromCard && err == 0 && nblks * SECTOR <= buffer.Length ==>
      card.disk == Spliced(old(card.disk), block * SECTOR, buffer[..nblks * SECTOR])
    ensures !fromCard && err == 0 && nblks * SECTOR > buffer.Length ==>
      && buffer.Length + |tail| == nblks * SECTOR
      && card.disk == Spliced(old(card.disk), block * SECTOR, buffer[..] + tail)
      && TailIsOlder(buffer[..], nblks * SECTOR, tail)
    ensures old(card.Healthy()) && nblks * SECTOR <= buffer.Length ==>
      && err == 0 && card.sent == old(card.sent) + RequestSends(nblks * SECTOR, singleOnly, stopAfter)
      && card.clock == RequestEnd(card, old(card.clock) + (if noAdma then 0 else 1), nblks * SECTOR,
                                  singleOnly, dma, stopAfter)
    ensures !noAdma && card.fate(old(card.clock)).error != 0 ==>
      err == ENOMEM && card.clock == old(card.clock) + 1 && card.sent == old(card.sent) && card.disk == old(card.disk)
      && buffer[..] == old(buffer[..])
  {
    hide RequestEnd, RequestSends, Disciplined, Spliced, SameOutside, Received, Moved, TailIsOlder;
    ghost var d0, b0, at := card.disk, buffer[..], block * SECTOR;
    var total := nblks * SECTOR;
    tail := [];
    MovedNothing(fromCard, d0, at, total, b0);
    if !noAdma {
      err := card.Step();  // allocating the DMA buffer
      if err != 0 {
        return ENOMEM, 0, tail;
      }
    }
    var buf := new byte[if noAdma then MAX_SEND else Min(total, MAX_SEND)];
    err, tail := MoveChunks(card, fromCard, block, nblks, buf, buffer, singleOnly, dma, stopAfter);
    if err == 0 {
      MovedMeans(fromCard, card.disk, d0, at, total, buffer[..], b0, total, tail);
      if !fromCard { assert b0[..Min(total, |b0|)] + tail == if total <= |b0| then b0[..total] else b0 + tail; }
    }
    reported := if err == 0 then total else 0;
  }

  /** What a successful read leaves in a buffer of the requested size. */
  lemma ReceivedIsDisk(was: seq<byte>, disk: seq<byte>, at: nat, sent: nat)
    requires at + sent <= |disk| && sent <= |was|
    ensures Received(was, disk, at, sent)[..sent] == disk[at..at + sent]
    ensures Received(was, disk, at, sent)[sent..] == was[sent..]
  {
  }

  // ------------------------------------------------------------------------
  // Admission

  const WORD64: nat := 0x1_0000_0000_0000_0000

  type uint64 = x: int | 0 <= x < WORD64

  datatype Direction = DirIn | DirOut | DirInOut | DirNone
  datatype Admission = NotAttached | BadArgument | NotWritable | Queued

  /** doAsyncReadWrite: the range is checked on a 64-bit sum. */
  function Admit(inactive: bool, dir: Direction, writeEnabled: bool, block: uint64, nblks: uint64, numBlocks: word)
    : Admission
  {
    if inactive then NotAttached
    else if dir != DirIn && dir != DirOut then BadArgument
    else if !writeEnabled && dir == DirOut then NotWritable
    else if (block + nblks) % WORD64 > numBlocks then BadArgument
    else Queued
  }

  /** What admission is for: no queued request reaches beyond the disk, which
      holds if and only if the 64-bit sum does not wrap onto it; and no permitted
      request on the disk is refused. */
  lemma AdmittedRequestsFit(block: uint64, nblks: uint64, numBlocks: word)
    ensures (forall inactive, dir, writeEnabled ::
               Admit(inactive, dir, writeEnabled, block, nblks, numBlocks) == Queued ==> block + nblks <= numBlocks)
       <==> !(WORD64 <= block + nblks <= WORD64 + numBlocks)
    ensures block + nblks <= numBlocks ==>
      && Admit(false, DirIn, false, block, nblks, numBlocks) == Queued
      && Admit(false, DirOut, true, block, nblks, numBlocks) == Queued
  {
    var permitted := Admit(false, DirIn, true, block, nblks, numBlocks);
    assert permitted == Queued <==> (block + nblks) % WORD64 <= numBlocks;
  }

  /** A request that wraps is handed on: one block before the end of the 64-bit
      range and one behind it, on a disk of one block. */
  lemma WrappingRequestIsQueued()
    ensures Admit(false, DirIn, true, WORD64 - 1, 2, 1) == Queued
  {
  }

  // ------------------------------------------------------------------------
  // From the card register to the client's buffer

  /** The disk has as many blocks as the decoder found, taken as unsigned, and is
      read and written in blocks of 512 bytes.  So every request it queues that
      does not wrap lies on the card, if and only if the card's own blocks are that
      long, or it has none. */
  lemma AdmittedRequestsLieOnCard(capacity: int, sectorSize: nat, bytes: nat)
    requires 0 < sectorSize <= SECTOR && capacity % WORD * sectorSize == bytes
    ensures (forall block: uint64, nblks: uint64 ::
               block + nblks < WORD64 && Admit(false, DirIn, true, block, nblks, capacity % WORD) == Queued
               ==> (block + nblks) * SECTOR <= bytes)
       <==> sectorSize == SECTOR || capacity % WORD == 0
  {
    var n: word := capacity % WORD;
    assert Admit(false, DirIn, true, n, 0, n) == Queued;
    if sectorSize < SECTOR && n > 0 {
      assert (n + 0) * SECTOR > bytes;
    }
  }

  /** A request to a disk whose size has been decoded from the card's register,
      on a card that is as large as its register says: every permitted request on
      the card is carried out, and no other touches card or buffer. */
  method ServeRequest(card: Card, sdMode: bool, resp: seq<byte>, ghost reg: nat, inactive: bool, writeEnabled: bool,
                      dir: Direction, block: uint64, nblks: uint64, buffer: array<byte>,
                      noAdma: bool, singleOnly: bool, dma: bool, stopAfter: bool)
    returns (admission: Admission, err: int, reported: nat)
    requires card.Valid() && Holds(resp, reg) && KnownVersion(sdMode, reg)
    requires |card.disk| == CardBytes(sdMode, reg)
    requires (sdMode && Bits(reg, 126, 2) == SD_CSD_V2) || Bits(reg, 80, 4) >= 9
    requires block + nblks < WORD64
    modifies card, buffer
    ensures card.Valid()
    ensures admission == Queued <==>
      !inactive && (dir == DirIn || (dir == DirOut && writeEnabled)) && (block + nblks) * SECTOR <= |old(card.disk)|
    ensures admission != Queued ==> card.disk == old(card.disk) && buffer[..] == old(buffer[..])
    ensures admission == Queued ==> reported == if err == 0 then nblks * SECTOR else 0
    ensures admission == Queued && dir == DirIn ==>
      && card.disk == old(card.disk)
      && (err == 0 ==> buffer[..] == Received(old(buffer[..]), card.disk, block * SECTOR, nblks * SECTOR))
    ensures admission == Queued && dir == DirOut ==>
      && buffer[..] == old(buffer[..])
      && SameOutside(card.disk, old(card.disk), block * SECTOR, nblks * SECTOR)
      && (err == 0 && nblks * SECTOR <= buffer.Length ==>
            card.disk == Spliced(old(card.disk), block * SECTOR, buffer[..nblks * SECTOR]))
    ensures admission == Queued && old(card.Healthy()) && nblks * SECTOR <= buffer.Length ==>
      err == 0 && card.sent == old(card.sent) + RequestSends(nblks * SECTOR, singleOnly, stopAfter)
  {
    hide Spliced, SameOutside, Received, Kept, Holds, Bits, CardBytes;
    err, reported := 0, 0;
    var csd, sdhc := DecodeCsd(sdMode, resp, reg);
    if sdhc { NotTheLargest(reg); }
    assert csd.value.sectorSize == SECTOR by { assert Pow2(9) == 512; }
    var numBlocks: word := csd.value.capacity % WORD;
    assert numBlocks * SECTOR == |card.disk| && (block + nblks) % WORD64 == block + nblks;
    admission := Admit(inactive, dir, writeEnabled, block, nblks, numBlocks);
    if admission == Queued {
      ghost var tail;
      err, reported, tail := ReadTaskImpl(card, dir == DirIn, block, nblks, buffer, noAdma, singleOnly, dma, stopAfter);
    }
  }

  /** A card of at most 2^31 sectors is not the largest there is. */
  lemma NotTheLargest(reg: nat)
    requires Bits(reg, 126, 2) == SD_CSD_V2 && CardBytes(true, reg) / SECTOR < 0x8000_0000
    ensures Bits(reg, 48, 22) + 1 < 0x20_0000
  {
    hide Bits;
  }
}
