/** The card slot: identification of the card stack, the list of card functions,
    selection of a card on the bus, power-up and removal. */
module CardSlot {
  import opened Prelude
  import opened CardBus
  import Lifecycle

  // Operating-condition bits.
  const OCR_MEM_READY: bv32 := 0x8000_0000
  const OCR_ACCESS_MODE: bv32 := 0x6000_0000
  const OCR_SECTOR_MODE: bv32 := 0x4000_0000
  const SDHC_CAP: bv32 := 0x4000_0000
  const VOL_MASK: bv32 := 0xFF_8000
  const VOLTAGES: bv32 := 0x7F_FFF0  // bits 4 to 22, which the driver scans
  const R1_APP_CMD: bv32 := 0x20
  const IF_COND_PATTERN: bv32 := 0xaa

  /** All cards have finished powering up. */
  predicate Ready(resp: bv32) { resp & OCR_MEM_READY != 0 }

  predicate HighVoltage(ocr: bv32) { ocr & VOL_MASK != 0 }

  /** What host and card have in common. */
  function Common(host: bv32, card: bv32): bv32 { host & card }

  function WithHighCapacity(ocr: bv32): bv32 { ocr | SDHC_CAP }

  function R6Rca(resp: bv32): nat { (resp >> 16) as nat }

  /** An operating condition that was answered, with the ready bit (bit 31) set
      unless the conditions were only asked for. */
  predicate Satisfied(e: Exchange, sd: bool, ocr: bv32)
  {
    && e.cmd == OpCond(sd, Softc.OpCondArg(sd, ocr)) && e.answer.err == 0
    && (ocr == 0 || e.answer.resp & 0x8000_0000 != 0)
  }

  /** Answered without that bit. */
  predicate NotReady(e: Exchange) { e.cmd.OpCond? && e.answer.err == 0 && e.answer.resp & 0x8000_0000 == 0 }

  /** An error, or a card that does not know application commands (bit 5). */
  predicate Unwilling(e: Exchange) { e.answer.err != 0 || (e.cmd.AppCmd? && e.answer.resp & 0x20 == 0) }

  /** An exchange that can stop an attach: an error, except that of the search for
      another card, or a card that does not know application commands.  In the end
      in MMC mode, what failed in SD mode is no reason. */
  predicate Refusal(log: seq<Exchange>, k: nat, sd: bool)
    requires k < |log|
  {
    && Unwilling(log[k]) && (log[k].cmd.AllSendCid? ==> k > 0 && log[k - 1].cmd.OpCond?)
    && (!sd ==> !SdOnly(log[k].cmd))
  }

  /** A command that only SD cards know. */
  predicate SdOnly(cmd: Cmd) { cmd.AppCmd? || (cmd.OpCond? && cmd.app) }

  /** The conditions of a card after which the driver gives up: not ready, or no
      voltage in common. */
  predicate GivenUp(log: seq<Exchange>, k: nat, host: bv32)
    requires k < |log|
  {
    (k + 1 == |log| || log[k + 1].cmd == Clock(false)) && Unfit(log[k], host)
  }

  /** Conditions that are not ready, or have nothing in common with the host's. */
  predicate Unfit(e: Exchange, host: bv32)
  {
    e.cmd.OpCond? && (e.answer.resp & 0x8000_0000 == 0 || host & e.answer.resp == 0)
  }

  /** From the exchange `from` on there was a reason to fail. */
  ghost predicate Complaint(log: seq<Exchange>, from: nat, host: bv32, sd: bool)
  {
    exists k :: from <= k < |log| && (Refusal(log, k, sd) || GivenUp(log, k, host))
  }

  ghost predicate Refusals(log: seq<Exchange>, from: nat, sd: bool)
  {
    exists k :: from <= k < |log| && Refusal(log, k, sd)
  }

  lemma RefusalsStay(log1: seq<Exchange>, log: seq<Exchange>, from1: nat, from: nat, host: bv32, sd: bool)
    requires log1 <= log && from <= from1 && Refusals(log1, from1, sd)
    ensures Refusals(log, from, sd) && Complaint(log, from, host, sd)
  {
    hide Unwilling, Unfit;
    var k :| from1 <= k < |log1| && Refusal(log1, k, sd);
    assert Refusal(log, k, sd);
  }

  /** What the driver sends when it gives up does not hide the reason. */
  lemma ComplaintStays(log1: seq<Exchange>, log: seq<Exchange>, from1: nat, from: nat, host: bv32, sd: bool)
    requires log1 <= log && from <= from1 && Complaint(log1, from1, host, sd)
    requires |log1| < |log| ==> log[|log1|].cmd == Clock(false)
    ensures Complaint(log, from, host, sd)
  {
    hide Unwilling, Unfit;
    var k :| from1 <= k < |log1| && (Refusal(log1, k, sd) || GivenUp(log1, k, host));
    assert Refusal(log1, k, sd) ==> Refusal(log, k, sd);
    assert GivenUp(log1, k, host) ==> GivenUp(log, k, host);
  }

  lemma ProbeFails(log: seq<Exchange>, from: nat, host: bv32, sd: bool)
    requires from < |log| && Unwilling(log[|log| - 1]) && !log[|log| - 1].cmd.AllSendCid?
    requires !sd ==> !SdOnly(log[|log| - 1].cmd)
    ensures Complaint(log, from, host, sd)
  {
    assert Refusal(log, |log| - 1, sd);
  }

  lemma OfferFails(log: seq<Exchange>, from: nat, host: bv32, card: bv32, sd: bool)
    requires from < |log| && !log[|log| - 1].cmd.AllSendCid?
    requires if Common(host, card) == 0 then log[|log| - 1].cmd.OpCond? && log[|log| - 1].answer.resp == card
             else (Unwilling(log[|log| - 1]) || NotReady(log[|log| - 1])) && (!sd ==> !SdOnly(log[|log| - 1].cmd))
    ensures Complaint(log, from, host, sd)
  {
    assert Refusal(log, |log| - 1, sd) || GivenUp(log, |log| - 1, host);
  }

  class Function {
    var rca: nat
    var number: int
    var error: bool  // SFF_ERROR

    constructor ()
      ensures rca == 0 && number == -1 && !error
    {
      rca, number, error := 0, -1, false;
    }
  }

  /** An SD card is offered the conditions as they are, an MMC card in sector mode:
      bits 30 and 29 are 10. */
  lemma OpCondArgBits(ocr: bv32)
    ensures Softc.OpCondArg(true, ocr) == ocr
    ensures (Softc.OpCondArg(false, ocr) >> 29) & 3 == 2
    ensures Softc.OpCondArg(false, ocr) & 0x9FFF_FFFF == ocr & 0x9FFF_FFFF
  {
  }

  /** The high voltages are bits 15 to 23. */
  lemma HighVoltageBits(ocr: bv32)
    ensures HighVoltage(ocr) <==> (ocr >> 15) & 0x1FF != 0
  {
  }

  /** The address is the upper half of an R6 response. */
  lemma R6UpperHalf(rca: bv32, status: bv32)
    requires rca < 0x1_0000 && status < 0x1_0000
    ensures R6Rca((rca << 16) | status) == rca as nat
  {
    assert ((rca << 16) | status) >> 16 == rca;
  }

  // ------------------------------------------------------------------------
  // The slot

  class Softc {
    const script: nat -> Answer
    const hostOcr: bv32
    var log: seq<Exchange>
    var sdMode: bool
    var memMode: bool
    var ioMode: bool
    var present: bool
    var attached: bool
    var functionCount: nat
    var card: Function?
    var fn0: Function?
    var head: seq<Function>
    var events: seq<Lifecycle.DiskEvent>  // disks attached and detached
    ghost var live: set<Function>         // allocated and not freed

    constructor (script: nat -> Answer, hostOcr: bv32)
      ensures Settled() && head == [] && !present && !ioMode
      ensures this.script == script && this.hostOcr == hostOcr && log == [] && events == [] && card == null
    {
      this.script, this.hostOcr := script, hostOcr;
      log, sdMode, memMode, ioMode, present, attached, functionCount := [], false, false, false, false, false, 0;
      card, fn0, head, events, live := null, null, [], [], {};
    }

    /** The functions on the list are live, with `extra` those not yet on it; the
        selected card is one of them and the bus is where its selection left it;
        function 0 is the first; MMC cards are numbered from 1. */
    ghost predicate ValidWith(extra: set<Function>)
      reads this, head
    {
      && (forall i, j :: 0 <= i < j < |head| ==> head[i] != head[j])
      && live == (set f | f in head) + extra && (forall f :: f in head ==> f !in extra)
      && (card != null ==> card in head)
      && fn0 == (if |head| == 0 then null else head[0])
      && Tracks(View()) && Answered()
      && (!sdMode ==> forall i :: 0 <= i < |head| ==> head[i].rca == i + 1)
    }

    ghost predicate Valid()
      reads this, head
    {
      ValidWith({})
    }

    /** Between tasks: a card is attached exactly when there are functions, and
        only if it is present. */
    ghost predicate Settled()
      reads this, head
    {
      Valid() && (attached <==> head != []) && (attached ==> present)
    }

    /** These commands with the script's answers from the n-th on. */
    function Exchanges(cmds: seq<Cmd>, n: nat): (es: seq<Exchange>)
      ensures |es| == |cmds|
    {
      seq(|cmds|, i requires 0 <= i < |cmds| => Exchange(cmds[i], script(n + i)))
    }

    /** The answers in the log are the script's. */
    ghost predicate Answered()
      reads `log
    {
      forall k :: 0 <= k < |log| ==> log[k].answer == script(k)
    }

    function OnBus(): Option<nat>
      reads `log
    {
      BusAfter(log)
    }

    function View(): Selection
      reads `log, `card, card
    {
      Selection(if card == null then None else Some(card.rca), OnBus())
    }

    /** The flags and the disk, as the card lifecycle sees them. */
    function Flags(): Lifecycle.Slot
      reads this
    {
      Lifecycle.Slot(present, attached, memMode, events)
    }

    /** One exchange.  The answers are the script's, in order. */
    method Command(cmd: Cmd) returns (a: Answer)
      modifies `log
      ensures a == script(|old(log)|) && log == old(log) + [Exchange(cmd, a)]
      ensures old(Answered()) ==> Answered()
      ensures OnBus() == BusStep(old(OnBus()), Exchange(cmd, a))
    {
      a := script(|log|);
      BusAfterOne(log, Exchange(cmd, a));
      log := log + [Exchange(cmd, a)];
    }

    /** An exchange that concerns no selection. */
    method Ask(cmd: Cmd, ghost extra: set<Function>) returns (a: Answer)
      requires ValidWith(extra) && !cmd.Select? && !cmd.GoIdle? && !cmd.Power?
      modifies `log
      ensures ValidWith(extra) && OnBus() == old(OnBus())
      ensures a == script(|old(log)|) && log == old(log) + [Exchange(cmd, a)]
    {
      a := Command(cmd);
    }

    lemma NothingSelected()
      requires Valid() && head == []
      ensures card == null
    {
    }

    lemma AnswersKnown()
      requires Valid()
      ensures forall k :: 0 <= k < |log| ==> log[k].answer == script(k)
    {
    }

    lemma LiveOnes()
      requires Valid()
      ensures live == (set f | f in head)
    {
    }

    /** In MMC mode belief and bus always agree: addresses start at 1. */
    lemma MmcAgrees()
      requires Valid() && !sdMode && card != null
      ensures OnBus() == Some(card.rca)
    {
    }

    /** A request finds function 0 exactly while a card is attached. */
    lemma FunctionZeroIff()
      requires Settled()
      ensures fn0 != null <==> attached
    {
    }

    lemma Numbered()
      requires Valid()
      ensures !sdMode ==> forall i :: 0 <= i < |head| ==> head[i].rca == i + 1
    {
    }

    /** Marking a function bad. */
    method MarkBad(sf: Function)
      requires Valid() && sf in head
      modifies sf`error
      ensures Valid() && sf.error
    {
      sf.error := true;
    }

    /** sdmmc_select_card. */
    method SelectCard(sf: Function?) returns (err: int)
      requires Valid() && (sf != null ==> sf in head)
      modifies `log, `card
      ensures Valid()
      ensures
        var target := if sf == null then None else Some(sf.rca);
        && View() == SelectStep(old(View()), target, script(|old(log)|).err)
        && (old(View()).believed == target ==> err == 0 && log == old(log))
        && (old(View()).believed != target ==>
              err == script(|old(log)|).err
              && log == old(log) + [Exchange(Select(if sf == null then 0 else sf.rca), script(|old(log)|))])
      ensures err == 0 || sf == null ==> card == sf
      ensures err != 0 && sf != null ==> card == old(card)
      ensures err == 0 && sf != null ==> (OnBus() == Some(sf.rca) <==> sf.rca != 0)
    {
      if card == sf || (sf != null && card != null && card.rca == sf.rca) {
        card := sf;
        return 0;
      }
      var a := Command(Select(if sf == null then 0 else sf.rca));
      err := a.err;
      if err == 0 || sf == null {
        card := sf;
      }
    }

    /** The second half of sdmmc_disable. */
    method PowerOff()
      requires Valid() && card == null
      modifies `log
      ensures Valid()
      ensures
        var n := |old(log)|;
        && log == old(log) + [Exchange(Clock(false), script(n)), Exchange(Power(0), script(n + 1))]
        && OnBus() == if script(n + 1).err == 0 then None else old(OnBus())
    {
      hide OnBus, Answered, BusAfter;
      var a := Command(Clock(false));
      a := Command(Power(0));
    }

    /** sdmmc_disable: afterwards no card is selected, whatever fails, and a
        successful power-off leaves none selected on the bus. */
    method Disable()
      requires Valid()
      modifies `log, `card
      ensures Valid() && card == null
      ensures
        var n := |old(log)|;
        var off := if old(card) == null then n else n + 1;
        && log == old(log) + (if old(card) == null then [] else [Exchange(Select(0), script(n))])
                  + [Exchange(Clock(false), script(off)), Exchange(Power(0), script(off + 1))]
        && OnBus() == (if script(off + 1).err == 0 || (old(card) != null && script(n).err == 0) then None
                       else old(OnBus()))
    {
      hide ValidWith, OnBus, Answered, BusAfter;
      var err := SelectCard(null);
      PowerOff();
    }

    /** sdmmc_card_detach: every function is freed and no pointer to one remains.
        That the selected card is forgotten even if the command fails is what
        makes this safe. */
    method CardDetach()
      requires Valid()
      modifies this
      ensures Valid() && head == [] && card == null && fn0 == null && live == {}
      ensures Flags() == Lifecycle.CardDetach(old(Flags()))
      ensures ioMode == old(ioMode) && sdMode == old(sdMode) && old(log) <= log
      ensures old(card) == null ==> |log| > |old(log)| && log[|old(log)|].cmd == Clock(false)
    {
      hide ValidWith, OnBus, SelectStep;
      DetachDisk();
      Disable();
      FreeFunctions();
    }

    method DetachDisk()
      requires Valid()
      modifies `attached, `events
      ensures Valid() && Flags() == Lifecycle.CardDetach(old(Flags()))
    {
      hide OnBus;
      if attached {
        if memMode {
          events := events + [Lifecycle.DiskDetach];
        }
        attached := false;
      }
    }

    /** The end of sdmmc_card_detach: the loop over the list. */
    method FreeFunctions()
      requires Valid() && card == null
      modifies `live, `head, `functionCount, `fn0
      ensures Valid() && head == [] && fn0 == null && live == {} && functionCount == 0
    {
      hide OnBus;
      ghost var head0 := head;
      for i := 0 to |head|
        invariant head == head0 && live == (set f | f in head[i..])
      {
        var sf := head[i];
        assert sf in live;
        assert head[i..] == [sf] + head[i + 1..];
        live := live - {sf};
      }
      head, functionCount, fn0 := [], 0, null;
    }

    // ----------------------------------------------------------------------
    // Operating conditions

    /** sdmmc_app_command in front of an operating-condition command. */
    method AppOpCond(arg: bv32) returns (a: Answer)
      modifies `log
      ensures old(Answered()) ==> Answered()
      ensures OnBus() == old(OnBus()) && old(log) < log && |log| <= |old(log)| + 2
      ensures
        var n := |old(log)|;
        var asked := Exchange(AppCmd(if card == null then 0 else card.rca), script(n));
        if Unwilling(asked) then
          log == old(log) + [asked] && a.err == if asked.answer.err != 0 then asked.answer.err else ENODEV
        else log == old(log) + [asked, Exchange(OpCond(true, arg), a)] && a == script(n + 1)
    {
      a := Command(AppCmd(if card != null then card.rca else 0));
      if a.err != 0 {
        return;
      }
      if a.resp & R1_APP_CMD == 0 {
        return Answer(ENODEV, 0);
      }
      a := Command(OpCond(true, arg));
    }

    /** The argument sent for an operating condition. */
    static function OpCondArg(sd: bool, ocr: bv32): bv32
    {
      if sd then ocr else (ocr & !OCR_ACCESS_MODE) | OCR_SECTOR_MODE
    }

    /** One attempt, in SD mode as an application command. */
    method AskOpCond(ocr: bv32) returns (a: Answer)
      modifies `log
      ensures old(Answered()) ==> Answered()
      ensures OnBus() == old(OnBus()) && old(log) < log
      ensures if log[|log| - 1].cmd == OpCond(sdMode, OpCondArg(sdMode, ocr)) then
                log[|log| - 1].answer == a && |log| == |old(log)| + (if sdMode then 2 else 1)
              else a.err != 0 && sdMode && |log| == |old(log)| + 1 && Unwilling(log[|log| - 1])
                   && log[|log| - 1].cmd.AppCmd?
      ensures forall k :: |old(log)| <= k < |log| - 1 ==> log[k].cmd.AppCmd? && !Unwilling(log[k])
    {
      hide OpCondArg;
      if sdMode {
        a := AppOpCond(OpCondArg(true, ocr));
      } else {
        a := Command(OpCond(false, OpCondArg(false, ocr)));
      }
    }

    /** sdmmc_mem_send_op_cond: up to 100 attempts; success means that the last
        answer was ready, unless only the conditions were asked for (ocr 0). */
    method SendOpCond(ocr: bv32) returns (err: int, resp: bv32)
      modifies `log
      ensures old(Answered()) ==> Answered()
      ensures OnBus() == old(OnBus()) && old(log) < log && |log| <= |old(log)| + 200
      ensures err == 0 <==> Satisfied(log[|log| - 1], sdMode, ocr)
      ensures err == 0 ==> log[|log| - 1].answer == Answer(0, resp)
      ensures err != 0 ==> Unwilling(log[|log| - 1]) || NotReady(log[|log| - 1])
      ensures log[|log| - 1].cmd.AppCmd? || log[|log| - 1].cmd.OpCond?
      ensures !sdMode ==> log[|log| - 1].cmd == OpCond(false, OpCondArg(false, ocr))
      ensures err != 0 && NotReady(log[|log| - 1]) && log[|log| - 1].answer.err == 0 ==>
        ocr != 0 && |log| == |old(log)| + (if sdMode then 200 else 100)
      ensures forall k :: |old(log)| <= k < |log| - 1 ==>
        !Unwilling(log[k]) && (log[k].cmd.AppCmd? || (log[k].cmd.OpCond? && ocr != 0 && NotReady(log[k])))
    {
      hide OnBus, OpCondArg;
      err, resp := 0, 0;
      for i := 0 to 100
        invariant OnBus() == old(OnBus()) && old(log) <= log && |log| <= |old(log)| + 2 * i
        invariant old(Answered()) ==> Answered()
        invariant i > 0 ==>
          && old(log) < log && err != 0 && ocr != 0 && |log| == |old(log)| + (if sdMode then 2 * i else i)
          && log[|log| - 1].cmd == OpCond(sdMode, OpCondArg(sdMode, ocr)) && NotReady(log[|log| - 1])
        invariant i == 0 ==> log == old(log)
        invariant forall k :: |old(log)| <= k < |log| ==>
          !Unwilling(log[k]) && (log[k].cmd.AppCmd? || (log[k].cmd.OpCond? && ocr != 0 && NotReady(log[k])))
      {
        var a := AskOpCond(ocr);
        err, resp := a.err, a.resp;
        if err != 0 {
          return;
        }
        if Ready(resp) || ocr == 0 {
          return;
        }
        err := ETIMEDOUT;
      }
    }

    /** The voltages sdmmc_set_bus_power asks for: of the common ones, the lowest
        and its upper neighbour. */
    static method ChooseVoltage(common: bv32) returns (offer: bv32)
      ensures common != 0 ==> LowestVoltage(common, offer)
      ensures common == 0 ==> offer == 0
    {
      hide LowestVoltage;
      offer := common;
      var level: bv32 := 0x10;
      while level < 0x80_0000
        invariant 0x10 <= level <= 0x80_0000 && level & (level - 1) == 0
        invariant common & (level - 1) & VOLTAGES == 0 && offer == common
        decreases 0x80_0000 - level
      {
        if common & level != 0 {
          LowestLevel(common, level);
          return common & (level | (level << 1));
        }
        NextLevel(common, level);
        level := level << 1;
      }
      NoLevel(common);
    }

    /** sdmmc_set_bus_power: an empty set is refused. */
    method SetBusPower(host: bv32, cardOcr: bv32) returns (err: int)
      modifies `log
      ensures old(Answered()) ==> Answered()
      ensures old(log) <= log && |log| <= |old(log)| + 1
      ensures err == 0 || err == 1
      ensures err != 0 ==>
        if Common(host, cardOcr) == 0 then log == old(log)
        else |log| == |old(log)| + 1 && log[|log| - 1].answer.err != 0 && log[|log| - 1].cmd.Power?
      ensures err == 0 ==>
        && Common(host, cardOcr) != 0
        && old(log) < log && log[|log| - 1].cmd.Power? && log[|log| - 1].answer.err == 0
        && LowestVoltage(Common(host, cardOcr), log[|log| - 1].cmd.ocr)
    {
      var offer := ChooseVoltage(Common(host, cardOcr));
      if offer == 0 {
        return 1;
      }
      var a := Command(Power(offer));
      err := if a.err != 0 then 1 else 0;
    }

    /** sdmmc_send_if_cond: did the card echo the pattern? */
    method SendIfCond(cardOcr: bv32) returns (echoed: bool)
      modifies `log
      ensures old(Answered()) ==> Answered()
      ensures OnBus() == old(OnBus())
      ensures log == old(log) + [Exchange(IfCond(HighVoltage(cardOcr)), script(|old(log)|))]
      ensures echoed <==> Echo(script(|old(log)|))
    {
      hide HighVoltage;
      var a := Command(IfCond(HighVoltage(cardOcr)));
      echoed := a.err == 0 && a.resp & 0xff == IF_COND_PATTERN;
    }

    /** Reading the conditions, in SD mode first, then in MMC mode. */
    method ProbeOcr() returns (err: int, cardOcr: bv32, probes: nat)
      requires sdMode
      modifies `log, `sdMode
      ensures old(Answered()) ==> Answered()
      ensures 1 <= probes <= 2 && (probes == 2 <==> !sdMode) && (!sdMode ==> !ioMode)
      ensures old(log) < log && |log| <= |old(log)| + 200 * probes
      ensures err != 0 ==> Unwilling(log[|log| - 1]) && !log[|log| - 1].cmd.AllSendCid?
      ensures err == 0 <==> Satisfied(log[|log| - 1], sdMode, 0)
      ensures !sdMode ==> log[|log| - 1].cmd == OpCond(false, OpCondArg(false, 0))
      ensures err == 0 ==> Reported(log, |log| - 1, sdMode, cardOcr)
      ensures err != 0 && sdMode ==> ioMode
    {
      err, cardOcr := SendOpCond(0);
      probes := 1;
      if err != 0 && sdMode && !ioMode {
        sdMode := false;
        err, cardOcr := SendOpCond(0);
        probes := 2;
      }
    }

    /** CMD8, then the conditions offered to the card. */
    method AskThenOffer(cardOcr: bv32) returns (err: int, echoed: bool)
      requires Common(hostOcr, cardOcr) != 0
      modifies `log
      ensures old(Answered()) ==> Answered()
      ensures old(log) < log && |log| <= |old(log)| + 201
      ensures err != 0 ==> Unwilling(log[|log| - 1]) || NotReady(log[|log| - 1])
      ensures !sdMode ==> !SdOnly(log[|log| - 1].cmd)
      ensures log[|log| - 1].cmd.AppCmd? || log[|log| - 1].cmd.OpCond?
      ensures err == 0 ==>
        && EndsReady(log, sdMode, hostOcr, cardOcr, echoed)
        && |old(log)| < |log| - 1 && AskedIf(log, |old(log)|, cardOcr, echoed)
    {
      hide Unwilling, NotReady, OpCondArg, OfferedOcr, Echo, Common, Ready, HighVoltage, WithHighCapacity, OnBus;
      echoed := SendIfCond(cardOcr);
      var ocr := Common(hostOcr, cardOcr);
      if echoed {
        ocr := WithHighCapacity(ocr);
      }
      OfferNotEmpty(hostOcr, cardOcr, echoed);
      var resp;
      err, resp := SendOpCond(ocr);
    }

    /** Power, reset, CMD8 and the conditions offered to the card. */
    method OfferConditions(cardOcr: bv32) returns (err: int, echoed: bool, ghost asked: nat)
      modifies `log
      ensures old(Answered()) ==> Answered()
      ensures old(log) <= log && |log| <= |old(log)| + 203
      ensures err != 0 ==>
        if Common(hostOcr, cardOcr) == 0 then log == old(log)
        else old(log) < log && !log[|log| - 1].cmd.AllSendCid?
             && (Unwilling(log[|log| - 1]) || NotReady(log[|log| - 1])) && (!sdMode ==> !SdOnly(log[|log| - 1].cmd))
      ensures err == 0 ==>
        && Common(hostOcr, cardOcr) != 0 && EndsReady(log, sdMode, hostOcr, cardOcr, echoed)
        && |old(log)| <= asked < |log| - 1 && AskedIf(log, asked, cardOcr, echoed)
    {
      hide NotReady, LowestVoltage, EndsReady, AskedIf, Common, OnBus, BusStep;
      echoed, asked := false, 0;
      err := SetBusPower(hostOcr, cardOcr);
      if err != 0 {
        return;
      }
      var a := Command(GoIdle);
      asked := |log|;
      err, echoed := AskThenOffer(cardOcr);
    }

    /** sdmmc_mem_enable: at most two probes of 100 attempts each, falling back
        from SD to MMC, then one offer.  When it succeeds in memory mode, the
        exchanges of this call have identified the card. */
    method MemEnable() returns (err: int, cardOcr: bv32, echoed: bool, probes: nat)
      requires Valid() && head == []
      modifies `log, `sdMode, `memMode
      ensures Valid() && 1 <= probes <= 2
      ensures probes == 2 <==> !sdMode
      ensures old(log) <= log && |log| <= |old(log)| + 204 + 200 * probes
      ensures !sdMode ==> !ioMode
      ensures err == 0 || err == 1
      ensures err != 0 && sdMode ==> exists k :: |old(log)| <= k < |log| && Satisfied(log[k], true, 0)
      ensures err != 0 ==> Complaint(log, |old(log)|, hostOcr, sdMode)
      ensures err == 0 && !memMode ==> sdMode && ioMode
      ensures err == 0 && memMode ==> Identified(log, |old(log)|, sdMode, hostOcr, cardOcr, echoed)
    {
      hide EndsReady, LowestVoltage, OpCondArg, OfferedOcr, Common, Unfit, Unwilling, NotReady, Refusal, GivenUp;
      hide Complaint, Answered, Satisfied, HighVoltage, Echo, Reported, AskedIf, Identified, OnBus, BusAfter, BusStep;
      sdMode, memMode, echoed := true, true, false;
      var a := Command(GoIdle);
      err, cardOcr, probes := ProbeOcr();
      if err != 0 {
        if !sdMode {
          ProbeFails(log, |old(log)|, hostOcr, sdMode);
          return 1, cardOcr, echoed, probes;
        }
        memMode := false;
        return 0, cardOcr, echoed, probes;
      }
      ghost var log1, probed := log, |log| - 1;
      ghost var asked;
      err, echoed, asked := OfferConditions(cardOcr);
      if err != 0 {
        assert log[probed] == log1[probed];
        OfferFails(log, |old(log)|, hostOcr, cardOcr, sdMode);
        return 1, cardOcr, echoed, probes;
      }
      Establish(log1, log, |old(log)|, probed, asked, sdMode, hostOcr, cardOcr, echoed);
    }

    // ----------------------------------------------------------------------
    // Functions

    /** sdmmc_function_alloc. */
    method FunctionAlloc() returns (sf: Function)
      requires Valid()
      modifies `live
      ensures ValidWith({sf}) && fresh(sf) && sf !in head
      ensures sf.rca == 0 && sf.number == -1 && !sf.error
    {
      sf := new Function();
      live := live + {sf};
    }

    /** sdmmc_function_free, of a function that is not on the list. */
    method FunctionFree(sf: Function)
      requires ValidWith({sf})
      modifies `live
      ensures Valid()
    {
      live := live - {sf};
    }

    /** sdmmc_set_relative_addr: an MMC card is given the address of sf, an SD card
        is asked for its own. */
    method SetRelativeAddr(sf: Function) returns (err: int)
      requires ValidWith({sf}) && sf !in head
      modifies `log, sf`rca
      ensures ValidWith({sf}) && OnBus() == old(OnBus())
      ensures log == old(log) + [Exchange(RelativeAddr(!sdMode, if sdMode then 0 else old(sf.rca)), script(|old(log)|))]
      ensures err == if script(|old(log)|).err == 0 then 0 else 1
      ensures sf.rca == if sdMode && err == 0 then R6Rca(script(|old(log)|).resp) else old(sf.rca)
    {
      var a := Ask(RelativeAddr(!sdMode, if sdMode then 0 else sf.rca), {sf});
      if a.err != 0 {
        return 1;
      }
      if sdMode {
        sf.rca := R6Rca(a.resp);
      }
      err := 0;
    }

    /** A function that has got its address joins the list; the first one becomes
        function 0. */
    method Insert(sf: Function)
      requires ValidWith({sf}) && (!sdMode ==> sf.rca == |head| + 1)
      modifies `head, `fn0
      ensures Valid() && head == old(head) + [sf]
    {
      assert sf in live;
      if fn0 == null {
        fn0 := sf;
      }
      head := head + [sf];
    }

    /** Reading the registers of one card. */
    method ReadRegisters(sf: Function)
      requires Valid() && sf in head
      modifies `log, sf`error
      ensures Valid() && OnBus() == old(OnBus()) && old(log) < log
      ensures !old(sf.error) ==> RegistersRead(log, |old(log)|, sf.rca, sf.error)
      ensures old(sf.error) ==> sf.error
    {
      hide ValidWith, OnBus, View, Tracks, BusAfter, BusStep;
      var a := Ask(SendCsd(sf.rca), {});
      if a.err != 0 {
        MarkBad(sf);
        return;
      }
      a := Ask(Decode(sf.rca), {});
      if a.err != 0 {
        MarkBad(sf);
      }
    }

    /** One turn of the first loop of sdmmc_mem_scan: a card identifies itself, gets
        an address and joins the list, or there is none left. */
    method AssignAddress() returns (found: bool)
      requires Valid()
      modifies `log, `fn0, `head, `live
      ensures Valid() && OnBus() == old(OnBus()) && old(log) <= log
      ensures found <==> |log| == |old(log)| + 2 && log[|old(log)|].answer.err == 0 && log[|log| - 1].answer.err == 0
      ensures old(log) < log && log[|old(log)|].cmd == AllSendCid
      ensures !found ==> log[|log| - 1].answer.err != 0
      ensures !found ==> Turned(log, |old(log)|)
      ensures if found then |head| == |old(head)| + 1 && head[..|old(head)|] == old(head)
                            && fresh(head[|old(head)|]) && !head[|old(head)|].error
              else head == old(head)
      ensures found ==> log[|log| - 1].cmd.RelativeAddr?
                        && (sdMode ==> head[|head| - 1].rca == R6Rca(log[|log| - 1].answer.resp))
    {
      hide ValidWith, OnBus, View, Tracks, BusAfter, BusStep;
      found := false;
      ghost var n := |log|;
      var a := Ask(AllSendCid, {});
      if a.err != 0 {
        assert log[n].answer.err != 0;
        return;
      }
      var sf := FunctionAlloc();
      sf.rca := if sdMode then 1 else |head| + 1;
      var err := SetRelativeAddr(sf);
      if err != 0 {
        assert log[n + 1].answer.err != 0;
        FunctionFree(sf);
        return;
      }
      Insert(sf);
      found := true;
    }

    /** The first loop of sdmmc_mem_scan: at most 100 cards identify themselves.
        In MMC mode they get the addresses 1, 2, 3, ..., whatever they answer. */
    method AssignAddresses()
      requires Valid() && (sdMode || head == [])
      modifies `log, `fn0, `head, `live
      ensures Valid() && old(head) <= head && |head| <= |old(head)| + 100
      ensures OnBus() == old(OnBus()) && old(log) <= log
      ensures old(log) < log && log[|old(log)|].cmd == AllSendCid
      ensures |head| < |old(head)| + 100 ==> log[|log| - 1].answer.err != 0
      ensures head == old(head) ==> Turned(log, |old(log)|)
      ensures forall f :: f in head && f !in old(head) ==> fresh(f) && !f.error
      ensures !sdMode ==> forall i :: 0 <= i < |head| ==> head[i].rca == i + 1
    {
      hide Turned, ValidWith, OnBus, View, Tracks, BusAfter, BusStep;
      ghost var head0 := head;
      for i := 0 to 100
        invariant Valid() && head0 <= head && |head| <= |head0| + i
        invariant OnBus() == old(OnBus()) && old(log) <= log
        invariant |head| == |head0| + i
        invariant i > 0 ==> old(log) < log && log[|old(log)|].cmd == AllSendCid
        invariant if i == 0 then log == old(log) else |head| > |head0|
        invariant forall f :: f in head && f !in head0 ==> fresh(f) && !f.error
      {
        ghost var head1 := head;
        var found := AssignAddress();
        if !found {
          assert log[|log| - 1].answer.err != 0;
          break;
        }
        assert head == head1 + [head[|head1|]];
      }
      Numbered();
    }

    /** sdmmc_mem_scan: addresses, then registers.  A new card is marked bad
        exactly when reading or decoding its registers failed. */
    method MemScan()
      requires Valid() && (sdMode || head == [])
      modifies `log, `fn0, `head, `live, live`error
      ensures Valid() && old(head) <= head && |head| <= |old(head)| + 100
      ensures OnBus() == old(OnBus()) && old(log) <= log
      ensures old(log) < log && log[|old(log)|].cmd == AllSendCid
      ensures head == [] ==> Turned(log, |old(log)|)
      ensures forall f :: f in head && f !in old(head) ==> fresh(f)
      ensures !sdMode ==> forall i :: 0 <= i < |head| ==> head[i].rca == i + 1
      ensures forall i :: |old(head)| <= i < |head| ==> WasRead(log, |old(log)|, head[i])
    {
      hide Turned, ValidWith, OnBus, View, Tracks, BusAfter, BusStep, RegistersRead;
      LiveOnes();
      AssignAddresses();
      ghost var head1, from := head, |old(head)|;
      NewOnes(old(head));
      Numbered();
      assert head == [] ==> Turned(log, |old(log)|);
      for i := 0 to |head|
        invariant head == [] ==> Turned(log, |old(log)|)
        invariant old(log) < log && log[|old(log)|].cmd == AllSendCid
        invariant Valid() && OnBus() == old(OnBus()) && old(log) <= log && head == head1
        invariant forall k :: i <= k < |head| && k >= from ==> !head[k].error
        invariant !sdMode ==> forall k :: 0 <= k < |head| ==> head[k].rca == k + 1
        invariant forall k :: from <= k < i ==> WasRead(log, |old(log)|, head[k])
      {
        ghost var log1 := log;
        Apart(i);
        ReadRegisters(head[i]);
        assert i >= from ==> RegistersRead(log, |log1|, head[i].rca, head[i].error);
        forall k | from <= k < i ensures WasRead(log, |old(log)|, head[k]) {
          assert WasRead(log1, |old(log)|, head[k]);
          var n :| |old(log)| <= n && RegistersRead(log1, n, head[k].rca, head[k].error);
          ReadStays(log1, log, n, head[k].rca, head[k].error);
        }
      }
    }

    lemma NewOnes(head0: seq<Function>)
      requires Valid() && head0 <= head
      ensures forall i :: |head0| <= i < |head| ==> head[i] !in head0
    {
      forall i | |head0| <= i < |head| ensures head[i] !in head0 {
        assert forall j :: 0 <= j < |head0| ==> head0[j] == head[j];
      }
    }

    lemma Apart(i: nat)
      requires Valid() && i < |head|
      ensures forall k :: 0 <= k < |head| && k != i ==> head[k] != head[i]
    {
    }

    /** The registers of a function were read from the exchange `from` on. */
    ghost predicate WasRead(log: seq<Exchange>, from: nat, sf: Function)
      reads sf
    {
      exists n :: from <= n && RegistersRead(log, n, sf.rca, sf.error)
    }

    ghost function ReadAt(log: seq<Exchange>, from: nat, sf: Function): (n: nat)
      requires WasRead(log, from, sf)
      reads sf
      ensures from <= n && RegistersRead(log, n, sf.rca, sf.error)
    {
      var n: nat :| from <= n && RegistersRead(log, n, sf.rca, sf.error);
      n
    }

    /** The first part of sdmmc_io_scan: function 0 gets its address. */
    method AddressFunction() returns (sf0: Function?)
      requires Valid() && head == [] && sdMode
      modifies `log, `fn0, `head, `live
      ensures Valid() && log == old(log) + [Exchange(RelativeAddr(false, 0), script(|old(log)|))]
      ensures sf0 == null <==> script(|old(log)|).err != 0
      ensures if sf0 == null then head == [] else head == [sf0] && fresh(sf0) && sf0.number == 0 && !sf0.error
    {
      hide ValidWith, OnBus, View, Tracks, BusAfter, BusStep, SelectStep;
      var sf := FunctionAlloc();
      sf.number := 0;
      var err := SetRelativeAddr(sf);
      if err != 0 {
        FunctionFree(sf);
        return null;
      }
      Insert(sf);
      sf0 := sf;
    }

    /** sdmmc_io_scan: function 0 and the I/O functions that share its address.
        The first is bad exactly when it cannot be selected. */
    method IoScan()
      requires Valid() && head == [] && sdMode
      modifies `log, `card, `fn0, `head, `live
      ensures Valid() && old(log) <= log && forall f :: f in head ==> fresh(f)
      ensures |head| == 0 || |head| == 1 || |head| == functionCount + 1
      ensures forall i :: 0 <= i < |head| ==> head[i].number == i && head[i].rca == head[0].rca
      ensures |head| == 0 <==> script(|old(log)|).err != 0
      ensures |head| > 0 ==> (head[0].error <==> script(|old(log)| + 1).err != 0)
      ensures |head| > 0 && !head[0].error ==> |head| == functionCount + 1 && card == head[0]
      ensures
        var n := |old(log)|;
        log == old(log) + [Exchange(RelativeAddr(false, 0), script(n))]
               + if head == [] then [] else [Exchange(Select(head[0].rca), script(n + 1))]
    {
      hide ValidWith, OnBus, Tracks, BusAfter, BusStep;
      NothingSelected();
      var sf0 := AddressFunction();
      if sf0 == null {
        return;
      }
      var err := SelectCard(sf0);
      if err != 0 {
        MarkBad(sf0);
        return;
      }
      AddCompanions(sf0);
    }

    /** The loop of sdmmc_io_scan. */
    method AddCompanions(sf0: Function)
      requires Valid() && head == [sf0] && card == sf0 && sdMode && sf0.number == 0
      modifies `fn0, `head, `live
      ensures Valid() && |head| == functionCount + 1 && head[0] == sf0
      ensures forall i :: 0 <= i < |head| ==> head[i].number == i && head[i].rca == sf0.rca
      ensures forall f :: f in head ==> f == sf0 || fresh(f)
      ensures sf0.error == old(sf0.error) && sf0.rca == old(sf0.rca) && sf0.number == old(sf0.number)
    {
      hide ValidWith, OnBus, View, Tracks, BusAfter, BusStep;
      for i := 1 to functionCount + 1
        invariant Valid() && |head| == i && head[0] == sf0
        invariant forall f :: f in head ==> f == sf0 || fresh(f)
        invariant forall k :: 0 <= k < |head| ==> head[k].number == k && head[k].rca == sf0.rca
      {
        var sf := FunctionAlloc();
        sf.number := i;
        sf.rca := sf0.rca;
        Insert(sf);
      }
    }

    /** sdmmc_scan. */
    method Scan() returns (err: int)
      requires Valid() && head == [] && (!sdMode ==> !ioMode)
      modifies `log, `card, `fn0, `head, `live
      ensures Valid() && old(log) <= log && (forall f :: f in head ==> fresh(f))
      ensures (err == 0 || err == 1) && (err == 0 <==> head != [])
      ensures ioMode && script(|old(log)|).err == 0 ==> head != [] && head[0].number == 0
      ensures ioMode ==> old(log) < log && log[|old(log)|].cmd.RelativeAddr?
      ensures memMode <==> exists k :: |old(log)| <= k < |log| && log[k].cmd == AllSendCid
      ensures !ioMode && memMode ==>
        && (err != 0 ==> Turned(log, |old(log)|))
        && forall i :: 0 <= i < |head| ==> WasRead(log, |old(log)|, head[i])
    {
      hide ValidWith, OnBus, View, Tracks, BusAfter, BusStep, Turned, RegistersRead, R6Rca;
      if ioMode {
        IoScan();
      }
      if memMode {
        LiveOnes();
        MemScan();
      }
      err := if |head| == 0 then 1 else 0;
    }

    /** What the set-up of a card sends from its second step on, the answers being
        the script's from the n-th on: one command, and for an MMC card whose answer
        was good EXT_CSD and, if that could be read, another. */
    function SetUpCmds(n: nat, rca: nat): seq<Cmd>
      reads `sdMode
    {
      [SetUp(rca)]
      + if sdMode || script(n).err != 0 then []
        else if script(n + 1).err != 0 then [ExtCsd(rca)] else [ExtCsd(rca), SetUp(rca)]
    }

    /** What sdmmc_mem_init sends for a card that is selected already or not: the
        block length is set only if the card is selected. */
    function MemInitCmds(n: nat, rca: nat, selected: bool): seq<Cmd>
      reads `sdMode
    {
      if selected then [SetUp(rca)] + SetUpCmds(n + 1, rca)
      else if script(n).err != 0 then [Select(rca)] + SetUpCmds(n + 1, rca)
      else [Select(rca), SetUp(rca)] + SetUpCmds(n + 2, rca)
    }

    lemma ExchangesOne(cmd: Cmd, n: nat)
      ensures Exchanges([cmd], n) == [Exchange(cmd, script(n))] && Exchanges([], n) == []
    {
    }

    lemma ExchangesAppend(a: seq<Cmd>, b: seq<Cmd>, n: nat)
      ensures Exchanges(a + b, n) == Exchanges(a, n) + Exchanges(b, n + |a|)
    {
    }

    /** sdmmc_mem_init: select the card and set it up; the second step decides.
        An MMC card whose EXT_CSD cannot be read is marked bad. */
    method MemInit(sf: Function) returns (err: int)
      requires Valid() && sf in head
      modifies `log, `card, sf`error
      ensures Valid() && old(log) <= log
      ensures
        var n := |old(log)|;
        log == old(log) + Exchanges(MemInitCmds(n, sf.rca, old(View()).believed == Some(sf.rca)), n)
      ensures err == log[|log| - 1].answer.err
      ensures sf.error <==> old(sf.error) || (!sdMode && ExtCsdFailed(log, |old(log)|, sf.rca))
      ensures forall n :: |old(log)| <= n < |log| && log[n].cmd.ExtCsd? ==> !sdMode && log[n].cmd.rca == sf.rca
    {
      hide ValidWith, OnBus, View, Tracks, BusAfter, BusStep, SelectStep, ExtCsdFailed, SetUpCmds, Exchanges;
      ghost var selected := View().believed == Some(sf.rca);
      err := SelectForInit(sf);
      ghost var log1 := log;
      err := CardSetUp(sf);
      FailedLater(log1, log, |old(log)|, sf.rca);
      ghost var n := |old(log)|;
      ExchangesAppend([Select(sf.rca), SetUp(sf.rca)], SetUpCmds(n + 2, sf.rca), n);
      ExchangesAppend([Select(sf.rca)], SetUpCmds(n + 1, sf.rca), n);
      ExchangesAppend([SetUp(sf.rca)], SetUpCmds(n + 1, sf.rca), n);
    }

    /** The first step: the card is selected and its block length set. */
    method SelectForInit(sf: Function) returns (err: int)
      requires Valid() && sf in head
      modifies `log, `card
      ensures Valid() && old(log) <= log && forall n :: |old(log)| <= n < |log| ==> !log[n].cmd.ExtCsd?
      ensures
        var n := |old(log)|;
        log == old(log) + Exchanges(
          if old(View()).believed == Some(sf.rca) then [SetUp(sf.rca)]
          else if script(n).err != 0 then [Select(sf.rca)] else [Select(sf.rca), SetUp(sf.rca)], n)
    {
      hide ValidWith, OnBus, Tracks, BusAfter, BusStep;
      err := SelectCard(sf);
      if err == 0 {
        err := MemSetUp(sf);
      }
    }

    /** One step of setting up a function. */
    method MemSetUp(sf: Function) returns (err: int)
      requires Valid() && sf in head
      modifies `log
      ensures Valid() && log == old(log) + [Exchange(SetUp(sf.rca), script(|old(log)|))]
      ensures err == script(|old(log)|).err
    {
      hide ValidWith, OnBus, BusStep;
      var a := Ask(SetUp(sf.rca), {});
      err := a.err;
    }

    /** The second step, sdmmc_mem_sd_init or sdmmc_mem_mmc_init. */
    method CardSetUp(sf: Function) returns (err: int)
      requires Valid() && sf in head
      modifies `log, sf`error
      ensures Valid() && old(log) <= log
      ensures log == old(log) + Exchanges(SetUpCmds(|old(log)|, sf.rca), |old(log)|)
      ensures err == log[|log| - 1].answer.err
      ensures sf.error <==> old(sf.error) || (!sdMode && ExtCsdFailed(log, |old(log)|, sf.rca))
      ensures forall n :: |old(log)| <= n < |log| && log[n].cmd.ExtCsd? ==> !sdMode && log[n].cmd.rca == sf.rca
    {
      hide ValidWith, OnBus, View, Tracks, BusAfter, BusStep, Answered;
      ghost var n := |log|;
      err := MemSetUp(sf);
      if !sdMode && err == 0 {
        var a := Ask(ExtCsd(sf.rca), {});
        err := a.err;
        assert log[n + 1] == Exchange(ExtCsd(sf.rca), a);
        if err != 0 {
          MarkBad(sf);
          return;
        }
        err := MemSetUp(sf);
      }
    }

    /** One turn of the first loop of sdmmc_init. */
    method InitOne(sf: Function)
      requires Valid() && sf in head
      modifies `log, `card, sf`error
      ensures Valid() && old(log) <= log
      ensures
        var n := |old(log)|;
        var m := if ioMode then n + 1 else n;
        log == old(log)
               + (if ioMode then Exchanges([SetUp(sf.rca)], n) else [])
               + if memMode then Exchanges(MemInitCmds(m, sf.rca, old(View()).believed == Some(sf.rca)), m) else []
      ensures sf.error <==>
        || old(sf.error) || (ioMode && script(|old(log)|).err != 0)
        || (!sdMode && ExtCsdFailed(log, |old(log)|, sf.rca))
      ensures forall n :: |old(log)| <= n < |log| && log[n].cmd.ExtCsd? ==> !sdMode && log[n].cmd.rca == sf.rca
    {
      hide ValidWith, OnBus, Tracks, BusAfter, BusStep, Answered, ExtCsdFailed, MemInitCmds, SetUpCmds, Exchanges;
      ghost var believed := View().believed;
      ExchangesOne(SetUp(sf.rca), |log|);
      if ioMode {
        var err := MemSetUp(sf);
        if err != 0 {
          MarkBad(sf);
        }
      }
      ghost var log1 := log;
      assert View().believed == believed;
      NoneFailed(log, |old(log)|, sf.rca);
      if memMode {
        var e := MemInit(sf);
        FailedLater(log1, log, |old(log)|, sf.rca);
      }
    }

    /** The first loop of sdmmc_init.  An I/O function whose CIS cannot be read is
        marked bad, and so is an MMC card whose EXT_CSD cannot be read. */
    method InitAll()
      requires Valid()
      modifies `log, `card, live`error
      ensures Valid() && old(log) <= log
      ensures forall f :: f in head && old(f.error) ==> f.error
      ensures !ioMode ==> forall k :: 0 <= k < |head| ==>
        (head[k].error <==> old(head[k].error) || (!sdMode && ExtCsdFailed(log, |old(log)|, head[k].rca)))
    {
      hide ValidWith, OnBus, View, Tracks, BusAfter, BusStep, ExtCsdFailed;
      LiveOnes();
      Numbered();
      ghost var from := |old(log)|;
      NoneRead(log, from);
      for i := 0 to |head|
        invariant Valid() && old(log) <= log && ExtCsdUpTo(log, from, i) && (sdMode ==> ExtCsdUpTo(log, from, 0))
        invariant forall k :: 0 <= k < |head| && old(head[k].error) ==> head[k].error
        invariant !ioMode ==> forall k :: 0 <= k < i ==>
          (head[k].error <==> old(head[k].error) || (!sdMode && ExtCsdFailed(log, from, head[k].rca)))
        invariant !ioMode ==> forall k :: i <= k < |head| ==> head[k].error == old(head[k].error)
      {
        Apart(i);
        ghost var log1 := log;
        InitOne(head[i]);
        if !sdMode { MoreRead(log1, log, from, i); }
      }
    }

    /** sdmmc_init: fails if no function without error is left. */
    method Init() returns (err: int)
      requires Valid()
      modifies `log, `card, live`error
      ensures Valid() && old(log) <= log
      ensures forall f :: f in head && old(f.error) ==> f.error
      ensures !ioMode ==> forall k :: 0 <= k < |head| ==>
        (head[k].error <==> old(head[k].error) || (!sdMode && ExtCsdFailed(log, |old(log)|, head[k].rca)))
      ensures err == 0 || err == 1
      ensures err == 0 <==> exists f :: f in head && !f.error
    {
      hide ValidWith, OnBus, View, Tracks, BusAfter, BusStep, ExtCsdFailed;
      InitAll();
      for i := 0 to |head|
        invariant forall k :: 0 <= k < i ==> head[k].error
      {
        if !head[i].error {
          return 0;
        }
      }
      err := 1;
    }

    /** The part of sdmmc_enable that can fail: power, clock, identification. */
    method PowerUp() returns (err: int, ghost cardOcr: bv32, ghost echoed: bool)
      requires Valid() && head == [] && !ioMode
      modifies `log, `sdMode, `memMode
      ensures Valid() && old(log) <= log
      ensures old(log) < log && log[|old(log)|] == Exchange(Power(hostOcr), script(|old(log)|))
      ensures script(|old(log)|).err == 0 ==>
        |log| > |old(log)| + 1 && log[|old(log)| + 1] == Exchange(Clock(true), script(|old(log)| + 1))
      ensures err == 0 ==> script(|old(log)|).err == 0 && script(|old(log)| + 1).err == 0
      ensures err != 0 ==> Complaint(log, |old(log)|, hostOcr, sdMode)
      ensures err == 0 ==> memMode && Identified(log, |old(log)|, sdMode, hostOcr, cardOcr, echoed)
    {
      hide EndsReady, Common, AskedIf, Reported, OnBus, BusAfter, BusStep, Unfit, Answered, Identified;
      cardOcr, echoed := 0, false;
      ghost var n := |log|;
      var a := Command(Power(hostOcr));
      err := a.err;
      if err != 0 {
        assert Refusal(log, n, sdMode);
        return;
      }
      a := Command(Clock(true));
      err := a.err;
      if err != 0 {
        assert Refusal(log, n + 1, sdMode);
        return;
      }
      sdMode, memMode := true, true;
      ghost var log1 := log;
      var ocr, echo, probes;
      err, ocr, echo, probes := MemEnable();
      cardOcr, echoed := ocr, echo;
      if err == 0 { IdentifiedEarlier(log, |log1|, n, sdMode, hostOcr, ocr, echo); }
      if err != 0 { ComplaintStays(log, log, |log1|, n, hostOcr, sdMode); }
    }

    /** sdmmc_enable, as built for macOS: memory cards only.  It fails only for a
        reason. */
    method Enable() returns (err: int, ghost cardOcr: bv32, ghost echoed: bool)
      requires Valid() && head == [] && !ioMode
      modifies `log, `card, `sdMode, `memMode
      ensures Valid() && card == null && old(log) <= log
      ensures old(log) < log && log[|old(log)|] == Exchange(Power(hostOcr), script(|old(log)|))
      ensures err == 0 ==> script(|old(log)|).err == 0 && script(|old(log)| + 1).err == 0
      ensures err != 0 ==>
        |log| >= |old(log)| + 2 && log[|log| - 2].cmd == Clock(false) && log[|log| - 1].cmd == Power(0)
      ensures err != 0 ==> Complaint(log, |old(log)|, hostOcr, sdMode)
      ensures err == 0 ==> memMode && Identified(log, |old(log)|, sdMode, hostOcr, cardOcr, echoed)
    {
      hide Identified, Complaint, OnBus, BusAfter, BusStep;
      err, cardOcr, echoed := PowerUp();
      if err != 0 {
        ghost var log1 := log;
        Disable();
        ComplaintStays(log1, log, |old(log)|, |old(log)|, hostOcr, sdMode);
      }
    }

    // ----------------------------------------------------------------------
    // Cards coming and going

    /** sdmmc_card_attach: either the card has been identified and is up with at
        least one good function, or everything is gone again.  On the flags and
        the disk it is the attach step of the card lifecycle. */
    method CardAttach() returns (ok: bool)
      requires Valid() && head == [] && !ioMode
      modifies this
      ensures Valid() && ioMode == old(ioMode) && old(log) <= log
      ensures ok ==>
        && (exists f :: f in head && !f.error)
        && exists n, ocr, echoed ::
             |old(log)| <= n <= |log| && Identified(log[..n], |old(log)|, sdMode, hostOcr, ocr, echoed)
      ensures !ok ==> Complaint(log, |old(log)|, hostOcr, sdMode)
      ensures !ok ==> head == [] && card == null && fn0 == null && live == {}
      ensures forall f :: f in head ==> fresh(f)
      ensures Flags() == Lifecycle.CardAttach(old(Flags()).(attached := false),
                                              if ok then Lifecycle.Memory else Lifecycle.Fails(memMode))
    {
      hide Answered, Identified, Complaint, Refusals, ValidWith, View, Tracks, OnBus, BusAfter, BusStep;
      ok := false;
      SetAttached(false);
      ghost var cardOcr, echoed;
      var err;
      err, cardOcr, echoed := Enable();
      ghost var log1 := log;
      if err == 0 {
        IdentifiedLast(log, |old(log)|, sdMode, hostOcr, cardOcr, echoed);
        err := BringUp();
        if err == 0 {
          SetAttached(true);
          assert log[..|log1|] == log1;
          assert Identified(log[..|log1|], |old(log)|, sdMode, hostOcr, cardOcr, echoed);
          return true;
        }
        ghost var log2 := log;
        CardDetach();
        RefusalsStay(log2, log, |log1|, |old(log)|, hostOcr, sdMode);
      } else {
        CardDetach();
        ComplaintStays(log1, log, |old(log)|, |old(log)|, hostOcr, sdMode);
      }
    }

    /** SMF_CARD_ATTACHED, set together with the disk or cleared without it. */
    method SetAttached(on: bool)
      requires Valid()
      modifies `attached, `events
      ensures Valid()
      ensures Flags() == if on then old(Flags()).(attached := true, events := old(events) + [Lifecycle.DiskAttach])
                         else old(Flags()).(attached := false)
    {
      hide OnBus;
      if on {
        events := events + [Lifecycle.DiskAttach];
      }
      attached := on;
    }

    /** The middle of sdmmc_card_attach: scan and initialise. */
    method BringUp() returns (err: int)
      requires Valid() && head == [] && !ioMode && memMode && |log| > 0 && log[|log| - 1].cmd.OpCond?
      modifies `log, `card, `fn0, `head, `live
      ensures Valid() && old(log) <= log
      ensures forall f :: f in head ==> fresh(f)
      ensures err != 0 ==> Refusals(log, |old(log)|, sdMode)
      ensures err == 0 ==> exists f :: f in head && !f.error
    {
      hide ValidWith, OnBus, View, Tracks, BusAfter, BusStep, RegistersRead;
      ghost var from := |log|;
      err := Scan();
      if err == 0 {
        LiveOnes();
        ghost var log1 := log;
        assert WasRead(log1, from, head[0]);
        ghost var n, bad := ReadAt(log1, from, head[0]), head[0].error;
        err := Init();
        if err != 0 {
          assert head[0].error;
          NoGoodCard(log1, log, from, n, head[0].rca, bad, sdMode);
        }
      } else {
        TurnedRefuses(log, from, sdMode);
      }
    }

    /** sdmmc_discover_task, with the answer of the card detection: it starts an
        attach only with an empty list, and does to the flags and the disk what
        the steps of the card lifecycle do. */
    method DiscoverTask(detected: bool) returns (ghost outcome: Lifecycle.Outcome)
      requires Settled() && !ioMode
      modifies this
      ensures Settled() && !ioMode && present == detected
      ensures Flags() == Discovered(old(Flags()), detected, outcome)
      ensures forall f :: f in head ==> fresh(f) || f in old(head)
      ensures detected == old(present) ==> log == old(log)
      ensures detected && !old(present) ==>
        if outcome.Memory? then exists f :: f in head && !f.error else Complaint(log, |old(log)|, hostOcr, sdMode)
    {
      outcome := Lifecycle.IoOnly;
      if detected {
        if !present {
          present := true;
          var ok := CardAttach();
          outcome := if ok then Lifecycle.Memory else Lifecycle.Fails(memMode);
        }
      } else if present {
        present := false;
        CardDetach();
      }
    }

    /** The end of sdmmc_task_thread, left by a suspend or for good: nothing is
        attached any more. */
    method LeaveLoop(suspended: bool)
      requires Settled()
      modifies this
      ensures Settled() && head == [] && !attached
      ensures !old(present) ==> log == old(log)
      ensures
        var c := Lifecycle.CardDetach(old(Flags()));
        Flags() == if suspended then c.(present := false) else c
    {
      if present {
        CardDetach();
      }
      if suspended {
        present := false;
      }
    }
  }

  /** Flags and disk after a discover task that has sampled p. */
  function Discovered(c: Lifecycle.Slot, p: bool, o: Lifecycle.Outcome): Lifecycle.Slot
  {
    if p && !c.present then Lifecycle.CardAttach(c.(present := true, attached := false), o)
    else if !p && c.present then Lifecycle.CardDetach(c.(present := false))
    else c
  }

  lemma RunNothing(s: Lifecycle.State)
    ensures Lifecycle.Run(s, []) == Some(s)
  {
  }

  /** The same, as steps of the task thread in the card lifecycle. */
  lemma DiscoveredBySteps(s: Lifecycle.State, p: bool, o: Lifecycle.Outcome) returns (ls: seq<Lifecycle.Label>)
    requires s.pc == Lifecycle.Sampled(p)
    ensures forall k :: 0 <= k < |ls| ==> ls[k] == Lifecycle.Worker(o)
    ensures Lifecycle.Run(s, ls) == Some(s.(slot := Discovered(s.slot, p, o), pc := Lifecycle.ForTest))
  {
    hide Lifecycle.Run, Lifecycle.Next;
    RunNothing(s);
    var w := Lifecycle.Worker(o);
    StepFromSampled(s, p, o);
    Lifecycle.RunSnoc(s, [], w);
    assert [] + [w] == [w];
    ls := [w];
    if p && !s.slot.present {
      StepsOfAttach(s.(slot := s.slot.(present := true), pc := Lifecycle.AttachStart), o);
      Lifecycle.RunSnoc(s, [w], w);
      assert [w] + [w] == [w, w];
      Lifecycle.RunSnoc(s, [w, w], w);
      assert [w, w] + [w] == [w, w, w];
      ls := [w, w, w];
    } else if !p && s.slot.present {
      StepOfDetach(s.(slot := s.slot.(present := false), pc := Lifecycle.Detaching), o);
      Lifecycle.RunSnoc(s, [w], w);
      assert [w] + [w] == [w, w];
      ls := [w, w];
    }
  }

  lemma StepFromSampled(s: Lifecycle.State, p: bool, o: Lifecycle.Outcome)
    requires s.pc == Lifecycle.Sampled(p)
    ensures Lifecycle.Next(s, Lifecycle.Worker(o)) == Some(
              if p && !s.slot.present then s.(slot := s.slot.(present := true), pc := Lifecycle.AttachStart)
              else if !p && s.slot.present then s.(slot := s.slot.(present := false), pc := Lifecycle.Detaching)
              else s.(pc := Lifecycle.ForTest))
  {
  }

  lemma StepsOfAttach(s: Lifecycle.State, o: Lifecycle.Outcome)
    requires s.pc == Lifecycle.AttachStart
    ensures
      var s1 := s.(slot := s.slot.(attached := false), pc := Lifecycle.Attaching);
      && Lifecycle.Next(s, Lifecycle.Worker(o)) == Some(s1)
      && Lifecycle.Next(s1, Lifecycle.Worker(o))
         == Some(s1.(slot := Lifecycle.CardAttach(s1.slot, o), pc := Lifecycle.ForTest))
  {
    hide Lifecycle.CardAttach;
  }

  lemma StepOfDetach(s: Lifecycle.State, o: Lifecycle.Outcome)
    requires s.pc == Lifecycle.Detaching
    ensures Lifecycle.Next(s, Lifecycle.Worker(o))
            == Some(s.(slot := Lifecycle.CardDetach(s.slot), pc := Lifecycle.ForTest))
  {
    hide Lifecycle.CardDetach;
  }

  // ------------------------------------------------------------------------
  // What can go wrong with the selection

  /** A card with address 1, selected; every second command fails. */
  method SelectedOne() returns (sc: Softc)
    ensures fresh(sc) && sc.Valid() && sc.card != null && sc.card.rca == 1 && sc.OnBus() == Some(1)
    ensures sc.log == [Exchange(Select(1), Answer(0, 0))] && sc.script == (n => Answer(n % 2, 0))
  {
    hide Softc.ValidWith, Softc.OnBus;
    sc := new Softc(n => Answer(n % 2, 0), 0);
    var sf := sc.FunctionAlloc();
    sf.rca := 1;
    sc.Insert(sf);
    var err := sc.SelectCard(sf);
  }

  /** It is removed twice: the first time it can neither be deselected nor
      switched off, so the bus keeps it selected; the second time no deselection
      is sent. */
  method TwiceDisabled() returns (sc: Softc)
    ensures sc.Valid() && sc.card == null && sc.OnBus() == Some(1)
    ensures |sc.log| == 6 && sc.log[1] == Exchange(Select(0), Answer(1, 0))
    ensures forall k :: 2 <= k < 6 ==> !sc.log[k].cmd.Select?
  {
    hide BusAfter, BusStep;
    sc := SelectedOne();
    sc.Disable();
    assert sc.script(1).err == 1 && sc.script(3).err == 1;
    assert sc.OnBus() == Some(1);
    sc.Disable();
    assert sc.script(5).err == 1;
  }

  /** An empty slot in SD mode. */
  method SdSlot(script: nat -> Answer) returns (sc: Softc)
    ensures fresh(sc) && sc.Valid() && sc.sdMode && sc.head == [] && sc.card == null && sc.log == []
    ensures sc.script == script
  {
    sc := new Softc(script, 0);
    sc.sdMode := true;
  }

  /** An SD card that answers address 0 is selected with that address, believed
      selected, and leaves the bus with no card selected. */
  method AddressZero() returns (sc: Softc)
    ensures fresh(sc) && sc.Valid() && sc.sdMode
    ensures sc.log == [Exchange(RelativeAddr(false, 0), Answer(0, 0)), Exchange(Select(0), Answer(0, 0))]
    ensures sc.card != null && sc.card.rca == 0 && R6Rca(sc.log[0].answer.resp) == 0 && sc.OnBus() == None
  {
    hide Softc.ValidWith, Softc.OnBus, Tracks, BusAfter, BusStep;
    sc := SdSlot(n => Answer(0, 0));
    var sf := sc.FunctionAlloc();
    var err := sc.SetRelativeAddr(sf);
    sc.Insert(sf);
    err := sc.SelectCard(sf);
  }

  /** A card that gives every command this one answer: ready, all voltages, high
      capacity, the echo of CMD8, application commands. */
  method AttachedCard() returns (sc: Softc)
    ensures fresh(sc) && sc.Settled() && sc.attached && sc.events == [Lifecycle.DiskAttach]
    ensures exists f :: f in sc.head && !f.error
  {
    hide Softc.ValidWith, Complaint;
    sc := new Softc(n => Answer(0, 0xC0FF_80AA), 0x00FF_8000);
    ghost var outcome := sc.DiscoverTask(true);
    sc.AnswersKnown();
    AllWilling(sc.log, sc.hostOcr, sc.sdMode);
  }

  lemma AllWilling(log: seq<Exchange>, host: bv32, sd: bool)
    requires host == 0x00FF_8000 && forall k :: 0 <= k < |log| ==> log[k].answer == Answer(0, 0xC0FF_80AA)
    ensures !Complaint(log, 0, host, sd)
  {
  }

  // ------------------------------------------------------------------------
  // What an identification has established

  /** The exchange k reported these conditions. */
  ghost predicate Reported(log: seq<Exchange>, k: nat, sd: bool, cardOcr: bv32)
  {
    k < |log| && log[k] == Exchange(OpCond(sd, Softc.OpCondArg(sd, 0)), Answer(0, cardOcr))
  }

  /** The exchange k was CMD8, echoed or not. */
  ghost predicate AskedIf(log: seq<Exchange>, k: nat, cardOcr: bv32, echoed: bool)
  {
    k < |log| && log[k].cmd == IfCond(HighVoltage(cardOcr)) && (echoed <==> Echo(log[k].answer))
  }

  /** The last exchange offered these conditions to a card that was ready. */
  ghost predicate EndsReady(log: seq<Exchange>, sd: bool, host: bv32, cardOcr: bv32, echoed: bool)
  {
    && |log| > 0
    && log[|log| - 1].cmd == OpCond(sd, Softc.OpCondArg(sd, OfferedOcr(host, cardOcr, echoed)))
    && log[|log| - 1].answer.err == 0
    && log[|log| - 1].answer.resp & 0x8000_0000 != 0
  }

  /** From the exchange `from` on: the card reported its conditions, CMD8 was
      asked, and the last exchange offered the card what it and the host have in
      common, with high capacity as CMD8 allows (OfferIsCommon), and found it
      ready. */
  ghost predicate Identified(log: seq<Exchange>, from: nat, sd: bool, host: bv32, cardOcr: bv32, echoed: bool)
  {
    && Common(host, cardOcr) != 0
    && EndsReady(log, sd, host, cardOcr, echoed)
    && exists j, k :: from <= j < k < |log| - 1 && Reported(log, j, sd, cardOcr) && AskedIf(log, k, cardOcr, echoed)
  }

  lemma Establish(log1: seq<Exchange>, log: seq<Exchange>, from: nat, j: nat, k: nat, sd: bool, host: bv32,
                  cardOcr: bv32, echoed: bool)
    requires log1 <= log && from <= j < k < |log| - 1 && Reported(log1, j, sd, cardOcr)
    requires Common(host, cardOcr) != 0 && AskedIf(log, k, cardOcr, echoed) && EndsReady(log, sd, host, cardOcr, echoed)
    ensures Identified(log, from, sd, host, cardOcr, echoed)
  {
    hide Softc.OpCondArg, OfferedOcr, HighVoltage, Common, Echo;
    assert Reported(log, j, sd, cardOcr);
  }

  lemma IdentifiedEarlier(log: seq<Exchange>, from1: nat, from: nat, sd: bool, host: bv32, cardOcr: bv32, echoed: bool)
    requires from <= from1 && Identified(log, from1, sd, host, cardOcr, echoed)
    ensures Identified(log, from, sd, host, cardOcr, echoed)
  {
    hide EndsReady, Common;
  }

  lemma IdentifiedLast(log: seq<Exchange>, from: nat, sd: bool, host: bv32, cardOcr: bv32, echoed: bool)
    requires Identified(log, from, sd, host, cardOcr, echoed)
    ensures |log| > 0 && log[|log| - 1].cmd.OpCond?
  {
  }

  /** From the exchange `from` on the first card could not be identified: either
      the search itself, which comes first, or its address. */
  ghost predicate Turned(log: seq<Exchange>, from: nat)
  {
    exists k :: from <= k < |log| && log[k].answer.err != 0
                && ((log[k].cmd.AllSendCid? && k == from) || log[k].cmd.RelativeAddr?)
  }

  lemma TurnedRefuses(log: seq<Exchange>, from: nat, sd: bool)
    requires Turned(log, from) && 0 < from <= |log| && log[from - 1].cmd.OpCond?
    ensures Refusals(log, from, sd)
  {
    var k :| from <= k < |log| && log[k].answer.err != 0
             && ((log[k].cmd.AllSendCid? && k == from) || log[k].cmd.RelativeAddr?);
    assert Refusal(log, k, sd);
  }

  /** A card that is bad in the end was refused a register. */
  lemma NoGoodCard(log1: seq<Exchange>, log: seq<Exchange>, from: nat, n: nat, rca: nat, bad: bool, sd: bool)
    requires from <= n && log1 <= log && RegistersRead(log1, n, rca, bad)
    requires bad || ExtCsdFailed(log, |log1|, rca)
    ensures Refusals(log, from, sd)
  {
    if bad {
      assert Refusal(log, n, sd) || Refusal(log, n + 1, sd);
    } else {
      var k :| |log1| <= k < |log| && log[k].cmd == ExtCsd(rca) && log[k].answer.err != 0;
      assert Refusal(log, k, sd);
    }
  }

  lemma ReadStays(log1: seq<Exchange>, log: seq<Exchange>, n: nat, rca: nat, error: bool)
    requires log1 <= log && RegistersRead(log1, n, rca, error)
    ensures RegistersRead(log, n, rca, error)
  {
  }

  /** The registers of a card were asked for at exchange n and, if delivered,
      decoded; error says whether one of the two failed. */
  ghost predicate RegistersRead(log: seq<Exchange>, n: nat, rca: nat, error: bool)
  {
    && n < |log| && log[n].cmd == SendCsd(rca)
    && if log[n].answer.err != 0 then error
       else n + 1 < |log| && log[n + 1].cmd == Decode(rca) && (error <==> log[n + 1].answer.err != 0)
  }

  /** From the exchange `from` on the EXT_CSD of a card was asked for in vain. */
  ghost predicate ExtCsdFailed(log: seq<Exchange>, from: nat, rca: nat)
  {
    exists n :: from <= n < |log| && log[n].cmd == ExtCsd(rca) && log[n].answer.err != 0
  }

  /** From the exchange `from` on only the cards 1 to i were asked for it. */
  ghost predicate ExtCsdUpTo(log: seq<Exchange>, from: nat, i: nat)
  {
    forall n :: from <= n < |log| && log[n].cmd.ExtCsd? ==> 1 <= log[n].cmd.rca <= i
  }

  lemma NoneFailed(log: seq<Exchange>, from: nat, rca: nat)
    requires forall n :: from <= n < |log| ==> !log[n].cmd.ExtCsd?
    ensures !ExtCsdFailed(log, from, rca)
  {
  }

  lemma FailedLater(log1: seq<Exchange>, log: seq<Exchange>, from: nat, rca: nat)
    requires log1 <= log && from <= |log1| && forall n :: from <= n < |log1| ==> !log1[n].cmd.ExtCsd?
    ensures ExtCsdFailed(log, from, rca) <==> ExtCsdFailed(log, |log1|, rca)
  {
  }

  lemma NoneRead(log: seq<Exchange>, from: nat)
    requires from == |log|
    ensures ExtCsdUpTo(log, from, 0)
  {
  }

  /** After the turn of card i + 1. */
  lemma MoreRead(log1: seq<Exchange>, log: seq<Exchange>, from: nat, i: nat)
    requires from <= |log1| && log1 <= log && ExtCsdUpTo(log1, from, i)
    requires forall n :: |log1| <= n < |log| && log[n].cmd.ExtCsd? ==> log[n].cmd.rca == i + 1
    ensures ExtCsdUpTo(log, from, i + 1)
    ensures ExtCsdFailed(log, from, i + 1) <==> ExtCsdFailed(log, |log1|, i + 1)
    ensures forall rca: nat :: rca <= i ==> (ExtCsdFailed(log, from, rca) <==> ExtCsdFailed(log1, from, rca))
  {
    forall rca: nat | rca <= i ensures ExtCsdFailed(log, from, rca) <==> ExtCsdFailed(log1, from, rca) {
      if n :| from <= n < |log1| && log1[n].cmd == ExtCsd(rca) && log1[n].answer.err != 0 {
        assert log[n] == log1[n];
      }
    }
  }

  predicate Echo(a: Answer) { a.err == 0 && a.resp & 0xff == 0xaa }

  /** The conditions offered to the card. */
  function OfferedOcr(host: bv32, card: bv32, echoed: bool): bv32
  {
    if echoed then WithHighCapacity(Common(host, card)) else Common(host, card)
  }

  lemma OfferNotEmpty(host: bv32, card: bv32, echoed: bool)
    ensures OfferedOcr(host, card, echoed)
            == if echoed then WithHighCapacity(Common(host, card)) else Common(host, card)
    ensures Common(host, card) != 0 ==> OfferedOcr(host, card, echoed) != 0
  {
  }

  /** offer is the lowest of the scanned voltages in common, with the next one if
      that is common too; without any scanned voltage it is all of common. */
  ghost predicate LowestVoltage(common: bv32, offer: bv32)
  {
    && offer != 0
    && (if common & VOLTAGES == 0 then offer == common
        else exists level: bv32 :: IsLowest(common, level) && offer == common & (level | (level << 1)))
  }

  predicate IsLowest(common: bv32, level: bv32)
  {
    && level != 0 && level & (level - 1) == 0 && level & VOLTAGES != 0
    && common & level != 0 && common & (level - 1) & VOLTAGES == 0
  }

  lemma LowestLevel(common: bv32, level: bv32)
    requires 0x10 <= level < 0x80_0000 && level & (level - 1) == 0
    requires common & (level - 1) & VOLTAGES == 0 && common & level != 0
    ensures LowestVoltage(common, common & (level | (level << 1)))
  {
    assert IsLowest(common, level) && common & VOLTAGES != 0 && common & (level | (level << 1)) != 0;
  }

  lemma NextLevel(common: bv32, level: bv32)
    requires 0x10 <= level < 0x80_0000 && level & (level - 1) == 0
    requires common & (level - 1) & VOLTAGES == 0 && common & level == 0
    ensures
      var next := level << 1;
      && level < next <= 0x80_0000 && next & (next - 1) == 0 && common & (next - 1) & VOLTAGES == 0
  {
  }

  lemma NoLevel(common: bv32)
    requires common & (0x80_0000 - 1) & VOLTAGES == 0
    ensures common != 0 ==> LowestVoltage(common, common)
  {
  }

  /** The offer never goes beyond the common voltages, nor asks for high capacity
      without reason. */
  lemma OfferIsCommon(host: bv32, card: bv32, echoed: bool)
    ensures OfferedOcr(host, card, echoed) & !0x4000_0000 & !(host & card) == 0
    ensures OfferedOcr(host, card, echoed) & 0x4000_0000 != 0 <==> echoed || host & card & 0x4000_0000 != 0
    ensures Softc.OpCondArg(false, OfferedOcr(host, card, echoed)) & !0x6000_0000 & !(host & card) == 0
  {
  }
}
