/** The command bus of the card slot: what is sent and answered, and which card
    the exchanges so far have left selected. */
module CardBus {
  import opened Prelude

  /** What the driver asks of the host controller and the bus. */
  datatype Cmd =
    | GoIdle
    | OpCond(app: bool, arg: bv32)
    | AppCmd(rca: nat)
    | IfCond(high: bool)
    | AllSendCid
    | RelativeAddr(assign: bool, rca: nat)
    | Select(rca: nat)
    | SendCsd(rca: nat)
    | Decode(rca: nat)     // reading CSD and CID, which can fail like a command
    | SetUp(rca: nat)      // block length and bus set-up of one card
    | ExtCsd(rca: nat)     // reading EXT_CSD, if the MMC card has one
    | Power(ocr: bv32)
    | Clock(on: bool)

  /** And what comes back: an error code and the first response word. */
  datatype Answer = Answer(err: int, resp: bv32)

  datatype Exchange = Exchange(cmd: Cmd, answer: Answer)

  // ------------------------------------------------------------------------
  // The bus

  /** CMD7 with address 0 deselects; any other address selects. */
  function Selected(rca: nat): Option<nat> { if rca == 0 then None else Some(rca) }

  /** The card selected on the bus after one exchange; a command that fails is
      taken to have no effect. */
  function BusStep(bus: Option<nat>, e: Exchange): Option<nat>
  {
    if e.answer.err != 0 then bus
    else match e.cmd
         case Select(rca) => Selected(rca)
         case GoIdle => None
         case Power(ocr) => if ocr == 0 then None else bus
         case _ => bus
  }

  function BusAfter(log: seq<Exchange>): Option<nat>
  {
    if |log| == 0 then None else BusStep(BusAfter(log[..|log| - 1]), log[|log| - 1])
  }

  lemma BusAfterOne(log: seq<Exchange>, e: Exchange)
    ensures BusAfter(log + [e]) == BusStep(BusAfter(log), e)
  {
    assert (log + [e])[..|log|] == log;
  }

  /** An answered selection of a card. */
  predicate Selects(e: Exchange) { e.answer.err == 0 && e.cmd.Select? && e.cmd.rca != 0 }

  /** An answered command that leaves no card selected. */
  predicate Clears(e: Exchange)
  {
    e.answer.err == 0 && (e.cmd == Select(0) || e.cmd.GoIdle? || e.cmd == Power(0))
  }

  /** Every answered selection has been undone. */
  ghost predicate AllCleared(log: seq<Exchange>)
  {
    forall i :: 0 <= i < |log| && Selects(log[i]) ==> exists j :: i < j < |log| && Clears(log[j])
  }

  /** Nothing is selected on the bus exactly when, as far as the driver has been
      answered, every selection has been undone. */
  lemma {:induction false} BusIsFreeIff(log: seq<Exchange>)
    ensures BusAfter(log).None? <==> AllCleared(log)
    decreases |log|
  {
    if |log| > 0 {
      var n := |log| - 1;
      var before := log[..n];
      BusIsFreeIff(before);
      if Clears(log[n]) {
        assert AllCleared(log);
      } else if Selects(log[n]) {
        assert !AllCleared(log);
      } else {
        assert AllCleared(log) ==> AllCleared(before) by { SameClears(log); }
        assert AllCleared(before) ==> AllCleared(log) by { SameClears(log); }
      }
    }
  }

  /** A last exchange that neither selects nor clears changes nothing. */
  lemma SameClears(log: seq<Exchange>)
    requires |log| > 0 && !Clears(log[|log| - 1]) && !Selects(log[|log| - 1])
    ensures AllCleared(log) <==> AllCleared(log[..|log| - 1])
  {
    var before := log[..|log| - 1];
    forall i | 0 <= i < |before| && Selects(before[i])
      ensures (exists j :: i < j < |log| && Clears(log[j])) <==> (exists j :: i < j < |before| && Clears(before[j]))
    {
      assert log[i] == before[i];
      if j :| i < j < |log| && Clears(log[j]) { assert before[j] == log[j]; }
      if j :| i < j < |before| && Clears(before[j]) { assert log[j] == before[j]; }
    }
    if AllCleared(log) {
      forall i | 0 <= i < |before| && Selects(before[i]) ensures exists j :: i < j < |before| && Clears(before[j]) {
        assert Selects(log[i]);
      }
    }
    if AllCleared(before) {
      forall i | 0 <= i < |log| && Selects(log[i]) ensures exists j :: i < j < |log| && Clears(log[j]) {
        assert Selects(before[i]);
      }
    }
  }

  // ------------------------------------------------------------------------
  // Selection, as the driver believes it and on the bus

  /** The address of the card the driver believes selected (sc_card), and of the
      card selected on the bus. */
  datatype Selection = Selection(believed: Option<nat>, onBus: Option<nat>)

  /** What a successful command leaves selected. */
  function Outcome(target: Option<nat>): Option<nat>
  {
    if target.Some? then Selected(target.value) else None
  }

  /** The bus is where the last successful selection of the believed card left
      it. */
  predicate Tracks(s: Selection) { s.believed.Some? ==> s.onBus == Outcome(s.believed) }

  /** sdmmc_select_card, with err the answer to the command if one is sent. */
  function SelectStep(s: Selection, target: Option<nat>, err: int): Selection
  {
    if s.believed == target then s
    else if err == 0 then Selection(target, Outcome(target))
    else if target.None? then Selection(None, s.onBus)
    else s
  }

  /** After any selection the card the driver believes selected is the one on the
      bus if and only if its address is not 0. */
  lemma SelectKeepsAgreement(s: Selection, target: Option<nat>, err: int)
    requires Tracks(s)
    ensures
      var s' := SelectStep(s, target, err);
      Tracks(s') && (s'.believed.Some? ==> (s'.onBus == s'.believed <==> s'.believed.value != 0))
  {
  }

  /** An SD card chooses its own address.  One that answers 0 is deselected by
      the command that should select it, and believed selected. */
  lemma ZeroAddressIsNotSelected(bus: Option<nat>)
    ensures
      var s := SelectStep(Selection(None, bus), Some(0), 0);
      Tracks(s) && s.believed == Some(0) && s.onBus == None
  {
  }

  /** The driver skips a command when it believes the target selected.  That
      leaves the bus as a successful command would, if and only if there is a
      card to select or every answered selection so far has been undone. */
  lemma {:induction false} SkippingIsHarmlessIff(log: seq<Exchange>, target: Option<nat>, err: int)
    requires Tracks(Selection(target, BusAfter(log)))
    ensures SelectStep(Selection(target, BusAfter(log)), target, err).onBus == Outcome(target)
       <==> target.Some? || AllCleared(log)
  {
    BusIsFreeIff(log);
  }

  /** One failed deselection is enough. */
  lemma FailedDeselection(rca: nat, err: int)
    requires rca != 0 && err != 0
    ensures
      var s := SelectStep(Selection(Some(rca), Some(rca)), None, err);
      Tracks(s) && s.believed.None? && SelectStep(s, None, 0).onBus == Some(rca)
  {
  }
}
