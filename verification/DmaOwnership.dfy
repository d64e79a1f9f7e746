/** Who owns DMA memory: descriptors, their mappings registered by virtual
    address, and the goto-cleanup paths of one command. */
module DmaOwnership {
  import opened Prelude
  import opened StaticDictionary
  import HostCommand

  const MAX_DATA: nat := 0x2_0000
  const SD_IO_SEND_OP_COND: nat := 5

  /** The bookkeeping part of bus_dma_segment_t; 0 is the null pointer, a
      mapping is named by its address. */
  class DmaSegment {
    var memDesc: nat
    var memMap: int
    constructor () ensures memDesc == 0 && memMap == 0 { memDesc, memMap := 0, 0; }
  }

  /** A DMA map: the descriptor its DMA command is set to. */
  class DmaMap {
    var md: nat
    constructor () ensures md == 0 { md := 0; }
  }

  // What the system answers at each step.
  datatype AllocAnswer = Allocated | NoBuffer | NotPrepared | BadFirstSegment | BadLaterSegment
  datatype MapAnswer = MappedAt(va: int) | NotMapped
  datatype LoadAnswer = Loaded | TooSmall | SetFails(code: int) | GenFails(code: int)
  datatype BufferPlan = BufferPlan(alloc: AllocAnswer, mapping: MapAnswer, load: LoadAnswer)
  {
    predicate WellFormed()
    {
      && (mapping.MappedAt? ==> mapping.va != FREE)
      && (load.SetFails? || load.GenFails? ==> load.code != 0)
    }

    /** Every step of obtaining and loading the buffer succeeds. */
    predicate Good() { alloc.Allocated? && mapping.MappedAt? && load.Loaded? }

    /** The map is left set to a descriptor: loading got past that point and
        then failed, and the driver does not unload a map that failed to load. */
    predicate LeavesMapSet() { alloc.Allocated? && mapping.MappedAt? && load.GenFails? }
  }

  /** One choice of outcomes for a whole command; send, wait and exec are the
      error codes of the register-level steps. */
  datatype Plan = Plan(cmdBuf: BufferPlan, send: int, wait: int, xferSend: int,
                       bounceBuf: BufferPlan, bounceExec: int, admaLoad: LoadAnswer, admaExec: int)
  {
    predicate WellFormed()
    {
      && cmdBuf.WellFormed() && bounceBuf.WellFormed()
      && (admaLoad.SetFails? || admaLoad.GenFails? ==> admaLoad.code != 0)
    }

    /** The address each mapping gets is in use neither before nor twice. */
    predicate FreshAddresses(inUse: set<int>)
    {
      && (cmdBuf.mapping.MappedAt? ==> cmdBuf.mapping.va !in inUse)
      && (bounceBuf.mapping.MappedAt? ==> bounceBuf.mapping.va !in inUse)
      && (cmdBuf.mapping.MappedAt? && bounceBuf.mapping.MappedAt? ==> cmdBuf.mapping.va != bounceBuf.mapping.va)
    }
  }

  /** A command; flags are the response bits of c_flags, adma says that it comes
      with a loaded map of its own. */
  datatype Command = Command(opcode: nat, flags: nat, dataLen: nat, hasData: bool, adma: bool)

  /** A command sent and the outcomes of its steps. */
  datatype Work = Work(cmd: Command, plan: Plan)

  /** One attempt of a chunk: the data map is loaded, then commands are sent. */
  datatype Attempt = Attempt(load: LoadAnswer, works: seq<Work>)
  {
    predicate WellFormed()
    {
      && (load.SetFails? || load.GenFails? ==> load.code != 0)
      && forall w :: w in works ==> w.plan.WellFormed()
    }
  }

  /** A request: its buffer, and the attempts it takes. */
  datatype Request = Request(alloc: AllocAnswer, mapping: MapAnswer, attempts: seq<Attempt>)
  {
    predicate WellFormed()
    {
      && (mapping.MappedAt? ==> mapping.va != FREE)
      && forall a :: a in attempts ==> a.WellFormed()
    }

    predicate HasBuffer() { alloc.Allocated? && mapping.MappedAt? }

    function Loads(): seq<LoadAnswer> { if HasBuffer() then LoadsOf(attempts) else [] }

    /** Every mapping made gets an address not in use. */
    predicate FreshAddresses(inUse: set<int>)
    {
      && (mapping.MappedAt? ==> mapping.va !in inUse)
      && forall a :: a in attempts ==> forall w :: w in a.works ==>
           w.plan.FreshAddresses(inUse + if mapping.MappedAt? then {mapping.va} else {})
    }
  }

  /** How the loads of the data map ended. */
  function LoadsOf(attempts: seq<Attempt>): (ls: seq<LoadAnswer>)
    ensures |ls| == |attempts|
  {
    seq(|attempts|, i requires 0 <= i < |attempts| => attempts[i].load)
  }

  function AllLoads(requests: seq<Request>): seq<LoadAnswer>
  {
    if |requests| == 0 then [] else AllLoads(requests[..|requests| - 1]) + requests[|requests| - 1].Loads()
  }

  /** Some load got past setting the map and then failed, and no load after it has
      succeeded. */
  ghost predicate StaysSet(loads: seq<LoadAnswer>)
  {
    exists i: nat :: LeftBy(loads, i)
  }

  /** The load i has left the map set. */
  predicate LeftBy(loads: seq<LoadAnswer>, i: nat) { i < |loads| && loads[i].GenFails? && Loaded !in loads[i..] }

  lemma {:induction false} LeftByFirst(a: seq<LoadAnswer>, b: seq<LoadAnswer>, i: nat)
    requires i < |a|
    ensures LeftBy(a + b, i) <==> LeftBy(a, i) && Loaded !in b
  {
    assert (a + b)[i..] == a[i..] + b;
  }

  lemma {:induction false} LeftBySecond(a: seq<LoadAnswer>, b: seq<LoadAnswer>, i: nat)
    requires i < |b|
    ensures LeftBy(a + b, |a| + i) <==> LeftBy(b, i)
  {
    assert (a + b)[|a| + i..] == b[i..];
  }

  /** The map is set after more loads if it was and none has succeeded, or by one
      of them. */
  lemma {:induction false} StaysSetMore(a: seq<LoadAnswer>, b: seq<LoadAnswer>)
    ensures StaysSet(a + b) <==> StaysSet(b) || (StaysSet(a) && Loaded !in b)
  {
    hide LeftBy;
    if StaysSet(a + b) {
      var i: nat :| LeftBy(a + b, i);
      StillThere(a + b, i);
      if i < |a| { LeftByFirst(a, b, i); } else { LeftBySecond(a, b, i - |a|); }
    }
    if StaysSet(b) {
      var i: nat :| LeftBy(b, i);
      StillThere(b, i);
      LeftBySecond(a, b, i);
    }
    if StaysSet(a) && Loaded !in b {
      var i: nat :| LeftBy(a, i);
      StillThere(a, i);
      LeftByFirst(a, b, i);
    }
  }

  lemma StillThere(loads: seq<LoadAnswer>, i: nat)
    requires LeftBy(loads, i)
    ensures i < |loads|
  {
  }

  lemma NothingSet()
    ensures !StaysSet([])
  {
  }

  lemma {:induction false} StaysSetOne(l: LoadAnswer)
    ensures StaysSet([l]) <==> l.GenFails?
    ensures Loaded in [l] <==> l.Loaded?
  {
    assert [l][0..] == [l] && [l][0] == l;
    if l.GenFails? { assert LeftBy([l], 0); }
  }

  lemma {:induction false} LoadsMore(attempts: seq<Attempt>, i: nat)
    requires i < |attempts|
    ensures LoadsOf(attempts[..i + 1]) == LoadsOf(attempts[..i]) + [attempts[i].load]
  {
  }

  class DmaEngine {
    const vaSegs: StaticDictionary<DmaSegment?>
    var live: set<nat>      // descriptors allocated and not yet released
    var mappings: set<int>  // mapping objects created and not yet released
    var nextDesc: nat

    constructor ()
      ensures Valid() && fresh(vaSegs.keys) && fresh(vaSegs.values)
      ensures live == {} && mappings == {} && Mapped() == map[]
    {
      vaSegs := new StaticDictionary(null);
      live, mappings, nextDesc := {}, {}, 1;
    }

    ghost predicate Valid()
      reads this, vaSegs.keys
    {
      && vaSegs.Valid() && vaSegs.zero == null
      && 0 < nextDesc && FREE !in mappings
      && (forall d :: d in live ==> 0 < d < nextDesc)
    }

    ghost function Mapped(): map<int, DmaSegment?>
      requires vaSegs.Shape()
      reads vaSegs.keys, vaSegs.values
    {
      vaSegs.Map()
    }

    /** reg is what the dictionary has for the address, null for nothing. */
    ghost predicate Registered(va: int, reg: DmaSegment?)
      requires vaSegs.Shape()
      reads vaSegs.keys, vaSegs.values
    {
      if va in Mapped() then Mapped()[va] == reg else reg == null
    }

    /** bus_dmamem_alloc: a failing allocation releases what it created. */
    method DmamemAlloc(segs: DmaSegment, answer: AllocAnswer) returns (err: int)
      requires Valid()
      modifies this, segs
      ensures Valid()
      ensures err == 0 <==> answer.Allocated?
      ensures err == 0 ==>
        && segs.memDesc != 0 && segs.memDesc !in old(live) && live == old(live) + {segs.memDesc}
        && segs.memMap == 0
      ensures err != 0 ==> live == old(live) && unchanged(segs)
      ensures mappings == old(mappings)
    {
      if answer.NoBuffer? {
        return ENOMEM;
      }
      var memDesc := nextDesc;
      nextDesc := nextDesc + 1;
      live := live + {memDesc};
      if answer.NotPrepared? {
        live := live - {memDesc};
        return ENOMEM;
      }
      if answer.BadFirstSegment? {
        live := live - {memDesc};
        return ENOTSUP;
      }
      if answer.BadLaterSegment? {
        live := live - {memDesc};
        return ENOMEM;
      }
      segs.memDesc := memDesc;
      segs.memMap := 0;
      err := 0;
    }

    /** bus_dmamem_free. */
    method DmamemFree(segs: DmaSegment)
      requires Valid()
      modifies this, segs
      ensures Valid()
      ensures live == old(live) - {old(segs.memDesc)} && mappings == old(mappings)
      ensures segs.memDesc == 0 && segs.memMap == old(segs.memMap)
    {
      if segs.memDesc == 0 {
        return;
      }
      live := live - {segs.memDesc};
      segs.memDesc := 0;
    }

    /** bus_dmamem_map: the mapping is registered under its address; a full
        dictionary fails the call with the segment already marked as mapped, and
        nobody releases the mapping then. */
    method DmamemMap(segs: DmaSegment, answer: MapAnswer) returns (err: int, kva: int)
      requires Valid()
      requires answer.MappedAt? ==> answer.va != FREE && answer.va !in Mapped() && answer.va !in mappings
      modifies segs`memMap, `mappings, vaSegs.keys, vaSegs.values
      ensures Valid()
      ensures err == 0 <==>
        segs.memDesc != 0 && old(segs.memMap) == 0 && answer.MappedAt? && |old(Mapped())| < SLOTS
      ensures err == 0 ==>
        kva == answer.va && segs.memMap == kva && Mapped() == old(Mapped())[kva := segs]
      ensures err != 0 ==> Mapped() == old(Mapped())
      ensures mappings == old(mappings)
                          + if segs.memDesc != 0 && old(segs.memMap) == 0 && answer.MappedAt? then {answer.va} else {}
    {
      kva := 0;
      if segs.memDesc == 0 {
        return EINVAL, kva;
      }
      if segs.memMap != 0 {
        return ENOTSUP, kva;
      }
      if answer.NotMapped? {
        return ENOMEM, kva;
      }
      segs.memMap := answer.va;
      mappings := mappings + {answer.va};
      kva := answer.va;
      var ok := vaSegs.AddToList(kva, segs);
      err := if ok then 0 else ENOTSUP;
    }

    /** bus_dmamem_unmap: nothing happens for an unknown address or a segment
        without a mapping. */
    method DmamemUnmap(kva: int, ghost reg: DmaSegment?)
      requires Valid() && kva != FREE && Registered(kva, reg)
      requires (kva in Mapped() ==> reg != null)
      modifies `mappings, if reg == null then {} else {reg}, vaSegs.keys, vaSegs.values
      ensures Valid()
      ensures reg != null ==> reg.memDesc == old(reg.memDesc)
      ensures kva in old(Mapped()) ==> reg.memMap == 0
      ensures Mapped() == if kva in old(Mapped()) && old(reg.memMap) != 0
                          then old(Mapped()) - {kva} else old(Mapped())
      ensures mappings == if kva in old(Mapped()) then old(mappings) - {old(reg.memMap)} else old(mappings)
      ensures live == old(live) && nextDesc == old(nextDesc)
    {
      var found, segs := vaSegs.GetValueFromList(kva);
      if !found {
        return;
      }
      if segs.memMap == 0 {
        return;
      }
      mappings := mappings - {segs.memMap};
      segs.memMap := 0;
      var removed := vaSegs.RemoveFromList(kva);
    }

    /** A registration that a DMA map can be loaded from. */
    ghost predicate Loadable(va: int, reg: DmaSegment?)
      reads reg
    {
      va != 0 && reg != null && reg.memDesc != 0 && reg.memMap != 0
    }

    /** bus_dmamap_load, as far as it matters for ownership. */
    method DmamapLoad(dmap: DmaMap, va: int, ghost reg: DmaSegment?, answer: LoadAnswer) returns (err: int)
      requires Valid() && Registered(va, reg)
      requires answer.SetFails? || answer.GenFails? ==> answer.code != 0
      modifies dmap
      ensures err == 0 <==> Loadable(va, reg) && answer.Loaded?
      ensures dmap.md == if Loadable(va, reg) && (answer.Loaded? || answer.GenFails?)
                         then reg.memDesc else old(dmap.md)
    {
      if va == 0 {
        return EINVAL;
      }
      var found, segs := vaSegs.GetValueFromList(va);
      if !found {
        return ENOTSUP;
      }
      if segs == null {
        return EINVAL;
      }
      if segs.memDesc == 0 || segs.memMap == 0 {
        return EINVAL;
      }
      match answer {
        case TooSmall => err := ENOTSUP;
        case SetFails(code) => err := code;
        case GenFails(code) => dmap.md := segs.memDesc; err := code;
        case Loaded => dmap.md := segs.memDesc; err := 0;
      }
    }

    method DmamapUnload(dmap: DmaMap)
      modifies dmap
      ensures dmap.md == 0
    {
      dmap.md := 0;
    }

    /** A buffer obtained: allocated, then mapped, and freed again if it cannot be
        mapped.  The disk has it as dma_alloc; rtsx_xfer_bounce and
        rtsx_exec_command spell the same steps out with gotos. */
    method DmaAlloc(alloc: AllocAnswer, mapping: MapAnswer) returns (err: int, kva: int, segs: DmaSegment)
      requires Valid()
      requires mapping.MappedAt? ==> mapping.va != FREE && mapping.va !in Mapped() && mapping.va !in mappings
      modifies this, vaSegs.keys, vaSegs.values
      ensures Valid() && fresh(segs)
      ensures err == 0 <==> alloc.Allocated? && mapping.MappedAt? && |old(Mapped())| < SLOTS
      ensures err == 0 ==>
        && segs.memDesc != 0 && segs.memDesc !in old(live) && live == old(live) + {segs.memDesc}
        && segs.memMap == kva == mapping.va && Mapped() == old(Mapped())[kva := segs]
        && mappings == old(mappings) + {kva}
      ensures err != 0 ==>
        && live == old(live) && Mapped() == old(Mapped())
        && mappings == old(mappings) + if alloc.Allocated? && mapping.MappedAt? then {mapping.va} else {}
    {
      hide Contents, First, OnePerKey, FreeSlots;
      kva := 0;
      segs := new DmaSegment();
      err := DmamemAlloc(segs, alloc);
      if err != 0 {
        return;
      }
      err, kva := DmamemMap(segs, mapping);
      if err != 0 {
        DmamemFree(segs);
      }
    }

    /** And given back. */
    method DmaFree(kva: int, segs: DmaSegment)
      requires Valid() && kva != FREE && kva in Mapped() && Mapped()[kva] == segs
      requires segs.memMap == kva && segs.memDesc != 0
      modifies this, segs, vaSegs.keys, vaSegs.values
      ensures Valid()
      ensures live == old(live) - {old(segs.memDesc)}
      ensures Mapped() == old(Mapped()) - {kva} && mappings == old(mappings) - {kva}
    {
      hide Contents, First, OnePerKey, FreeSlots;
      DmamemUnmap(kva, segs);
      DmamemFree(segs);
    }

    /** rtsx_xfer_bounce. */
    method XferBounce(dmap: DmaMap, p: BufferPlan, exec: int) returns (err: int)
      requires Valid() && p.WellFormed()
      requires p.mapping.MappedAt? ==> p.mapping.va !in Mapped() && p.mapping.va !in mappings
      modifies this, vaSegs.keys, vaSegs.values, dmap
      ensures Valid() && live == old(live) && Mapped() == old(Mapped()) && old(mappings) <= mappings
      ensures |old(Mapped())| < SLOTS ==> mappings == old(mappings)
      ensures err == 0 <==> p.Good() && |old(Mapped())| < SLOTS && exec == 0
      ensures old(dmap.md) == 0 ==> (dmap.md != 0 <==> p.LeavesMapSet() && |old(Mapped())| < SLOTS)
    {
      hide Contents, First, OnePerKey, FreeSlots;
      var kva, segs;
      err, kva, segs := DmaAlloc(p.alloc, p.mapping);
      if err == 0 {
        err := DmamapLoad(dmap, kva, segs, p.load);
        if err == 0 {
          err := exec;
          DmamapUnload(dmap);
        }
        DmaFree(kva, segs);
      }
    }

    /** rtsx_xfer_adma: the descriptor buffer is mapped for the life of the
        driver; only the map is loaded and unloaded. */
    method XferAdma(dmap: DmaMap, admabuf: int, ghost reg: DmaSegment?, load: LoadAnswer, exec: int)
      returns (err: int)
      requires Valid() && Registered(admabuf, reg)
      requires load.SetFails? || load.GenFails? ==> load.code != 0
      modifies dmap
      ensures err == 0 <==> Loadable(admabuf, reg) && load.Loaded? && exec == 0
      ensures dmap.md == if !Loadable(admabuf, reg) then old(dmap.md)
                         else if load.Loaded? then 0
                         else if load.GenFails? then reg.memDesc else old(dmap.md)
    {
      err := DmamapLoad(dmap, admabuf, reg, load);
      if err != 0 {
        return;
      }
      err := exec;
      DmamapUnload(dmap);
    }

    /** When the data of a command gets across. */
    ghost predicate XferSucceeds(cmd: Command, admabuf: int, reg: DmaSegment?, p: Plan)
      requires vaSegs.Shape()
      reads vaSegs.keys, vaSegs.values, reg
    {
      && cmd.dataLen <= MAX_DATA && p.xferSend == 0
      && if cmd.adma then Loadable(admabuf, reg) && p.admaLoad.Loaded? && p.admaExec == 0
         else p.bounceBuf.Good() && |Mapped()| < SLOTS && p.bounceExec == 0
    }

    /** The transfer of a command gets as far as its map. */
    predicate Moves(cmd: Command, p: Plan) { cmd.dataLen <= MAX_DATA && p.xferSend == 0 }

    ghost function Desc(reg: DmaSegment?): nat
      reads reg
    {
      if reg == null then 0 else reg.memDesc
    }

    /** What the two data maps are set to after a command whose transfer gets to its
        map or not: the map of the other kind of transfer is left alone, and the
        right one is cleared, unless its load failed. */
    ghost predicate MapsAfter(adma: nat, adma0: nat, data: nat, data0: nat, moves: bool, isAdma: bool,
                              loadable: bool, desc: nat, p: Plan, room: bool)
    {
      && adma == (if !moves || !isAdma || !loadable then adma0
                  else if p.admaLoad.Loaded? then 0 else if p.admaLoad.GenFails? then desc else adma0)
      && (!moves || isAdma ==> data == data0)
      && (moves && !isAdma && data0 == 0 ==> (data != 0 <==> p.bounceBuf.LeavesMapSet() && room))
    }

    lemma NoTransfer(adma: nat, data: nat, isAdma: bool, loadable: bool, desc: nat, p: Plan, room: bool)
      ensures MapsAfter(adma, adma, data, data, false, isAdma, loadable, desc, p, room)
    {
    }

    /** The transfer part of a command with data. */
    method Xfer(cmd: Command, dataMap: DmaMap, admaMap: DmaMap, admabuf: int, ghost reg: DmaSegment?, p: Plan)
      returns (err: int)
      requires Valid() && p.WellFormed() && Registered(admabuf, reg)
      requires p.bounceBuf.mapping.MappedAt? ==>
        p.bounceBuf.mapping.va !in Mapped() && p.bounceBuf.mapping.va !in mappings
      requires dataMap != admaMap
      modifies this, vaSegs.keys, vaSegs.values, dataMap, admaMap
      ensures Valid() && live == old(live) && Mapped() == old(Mapped()) && old(mappings) <= mappings
      ensures |old(Mapped())| < SLOTS ==> mappings == old(mappings)
      ensures MapsAfter(admaMap.md, old(admaMap.md), dataMap.md, old(dataMap.md), Moves(cmd, p), cmd.adma,
                        old(Loadable(admabuf, reg)), old(Desc(reg)), p, |old(Mapped())| < SLOTS)
      ensures err == 0 <==> old(XferSucceeds(cmd, admabuf, reg, p))
    {
      if cmd.dataLen > MAX_DATA {
        return ENOMEM;
      }
      err := p.xferSend;
      if err != 0 {
        return;
      }
      if cmd.adma {
        err := XferAdma(admaMap, admabuf, reg, p.admaLoad, p.admaExec);
      } else {
        err := XferBounce(dataMap, p.bounceBuf, p.bounceExec);
      }
    }

    /** The command is answered and its data, if any, get across. */
    predicate Completes(cmd: Command, p: Plan, loadable: bool, room: bool)
    {
      && p.send == 0 && p.wait == 0
      && (cmd.hasData ==>
            && cmd.dataLen <= MAX_DATA && p.xferSend == 0
            && if cmd.adma then loadable && p.admaLoad.Loaded? && p.admaExec == 0
               else p.bounceBuf.Good() && room && p.bounceExec == 0)
    }

    /** The part of rtsx_exec_command that runs with the command buffer mapped:
        load, send, wait, transfer, unload. */
    method RunMapped(cmd: Command, cmdMap: DmaMap, dataMap: DmaMap, admaMap: DmaMap, kva: int, segs: DmaSegment,
                     admabuf: int, ghost reg: DmaSegment?, p: Plan) returns (err: int)
      requires Valid() && p.WellFormed() && Registered(admabuf, reg)
      requires Registered(kva, segs) && kva in Mapped() && Loadable(kva, segs)
      requires p.bounceBuf.mapping.MappedAt? ==>
        p.bounceBuf.mapping.va !in Mapped() && p.bounceBuf.mapping.va !in mappings
      requires cmdMap != dataMap && cmdMap != admaMap && dataMap != admaMap
      modifies this, vaSegs.keys, vaSegs.values, cmdMap, dataMap, admaMap
      ensures Valid() && live == old(live) && Mapped() == old(Mapped()) && old(mappings) <= mappings
      ensures |old(Mapped())| < SLOTS ==> mappings == old(mappings)
      ensures
        var moves := p.cmdBuf.load.Loaded? && p.send == 0 && p.wait == 0 && cmd.hasData && Moves(cmd, p);
        MapsAfter(admaMap.md, old(admaMap.md), dataMap.md, old(dataMap.md), moves, cmd.adma,
                        old(Loadable(admabuf, reg)), old(Desc(reg)), p, |old(Mapped())| < SLOTS)
      ensures err == 0 <==>
        p.cmdBuf.load.Loaded? && Completes(cmd, p, old(Loadable(admabuf, reg)), |old(Mapped())| < SLOTS)
      ensures old(cmdMap.md) == 0 ==> (cmdMap.md != 0 <==> p.cmdBuf.load.GenFails?)
    {
      err := DmamapLoad(cmdMap, kva, segs, p.cmdBuf.load);
      if err == 0 {
        err := p.send;
        if err == 0 {
          err := p.wait;
        }
        if err == 0 && cmd.hasData {
          err := Xfer(cmd, dataMap, admaMap, admabuf, reg, p);
        }
        DmamapUnload(cmdMap);
      }
    }

    /** A command the driver does not refuse outright. */
    predicate Accepted(cmd: Command, sdioSupport: bool)
    {
      (cmd.opcode == SD_IO_SEND_OP_COND ==> sdioSupport) && HostCommand.ResponseType(cmd.flags) != 0
    }

    /** rtsx_exec_command: whatever step fails, the registered mappings and the
        live descriptors afterwards are those before, and the command map is
        left set exactly when the driver failed to unload it. */
    method ExecCommand(cmd: Command, sdioSupport: bool, cmdMap: DmaMap, dataMap: DmaMap, admaMap: DmaMap,
                       admabuf: int, ghost reg: DmaSegment?, p: Plan) returns (err: int)
      requires Valid() && p.WellFormed() && Registered(admabuf, reg)
      requires p.FreshAddresses(Mapped().Keys + mappings + {admabuf})
      requires cmdMap != dataMap && cmdMap != admaMap && dataMap != admaMap
      modifies this, vaSegs.keys, vaSegs.values, cmdMap, dataMap, admaMap
      ensures Valid() && live == old(live) && Mapped() == old(Mapped()) && old(mappings) <= mappings
      ensures |old(Mapped())| + 1 < SLOTS ==> mappings == old(mappings)
      ensures
        var moves :=
          && Accepted(cmd, sdioSupport) && p.cmdBuf.Good() && |old(Mapped())| < SLOTS
          && p.send == 0 && p.wait == 0 && cmd.hasData && Moves(cmd, p);
        MapsAfter(admaMap.md, old(admaMap.md), dataMap.md, old(dataMap.md), moves, cmd.adma,
                        old(Loadable(admabuf, reg)), old(Desc(reg)), p, |old(Mapped())| + 1 < SLOTS)
      ensures err == 0 <==>
        && Accepted(cmd, sdioSupport)
        && p.cmdBuf.Good() && |old(Mapped())| < SLOTS && p.send == 0 && p.wait == 0
        && (cmd.hasData ==>
              && cmd.dataLen <= MAX_DATA && p.xferSend == 0
              && if cmd.adma then old(Loadable(admabuf, reg)) && p.admaLoad.Loaded? && p.admaExec == 0
                 else p.bounceBuf.Good() && |old(Mapped())| + 1 < SLOTS && p.bounceExec == 0)
      ensures old(cmdMap.md) == 0 ==>
        (cmdMap.md != 0 <==> Accepted(cmd, sdioSupport) && p.cmdBuf.LeavesMapSet() && |old(Mapped())| < SLOTS)
    {
      hide HostCommand.ResponseType, Contents, First, OnePerKey;
      if cmd.opcode == SD_IO_SEND_OP_COND && !sdioSupport {
        return ENOTSUP;
      }
      var rspType := HostCommand.ResponseType(cmd.flags);
      if rspType == 0 {
        return EINVAL;
      }
      err := RunBuffered(cmd, cmdMap, dataMap, admaMap, admabuf, reg, p);
    }

    /** The rest of rtsx_exec_command: the command buffer is allocated, mapped,
        used, unmapped and freed. */
    method RunBuffered(cmd: Command, cmdMap: DmaMap, dataMap: DmaMap, admaMap: DmaMap,
                       admabuf: int, ghost reg: DmaSegment?, p: Plan) returns (err: int)
      requires Valid() && p.WellFormed() && Registered(admabuf, reg)
      requires p.FreshAddresses(Mapped().Keys + mappings + {admabuf})
      requires cmdMap != dataMap && cmdMap != admaMap && dataMap != admaMap
      modifies this, vaSegs.keys, vaSegs.values, cmdMap, dataMap, admaMap
      ensures Valid() && live == old(live) && Mapped() == old(Mapped()) && old(mappings) <= mappings
      ensures |old(Mapped())| + 1 < SLOTS ==> mappings == old(mappings)
      ensures
        var moves :=
          && p.cmdBuf.Good() && |old(Mapped())| < SLOTS
          && p.send == 0 && p.wait == 0 && cmd.hasData && Moves(cmd, p);
        MapsAfter(admaMap.md, old(admaMap.md), dataMap.md, old(dataMap.md), moves, cmd.adma,
                        old(Loadable(admabuf, reg)), old(Desc(reg)), p, |old(Mapped())| + 1 < SLOTS)
      ensures err == 0 <==>
        && p.cmdBuf.Good() && |old(Mapped())| < SLOTS
        && Completes(cmd, p, old(Loadable(admabuf, reg)), |old(Mapped())| + 1 < SLOTS)
      ensures old(cmdMap.md) == 0 ==> (cmdMap.md != 0 <==> p.cmdBuf.LeavesMapSet() && |old(Mapped())| < SLOTS)
    {
      hide Contents, First, OnePerKey, FreeSlots, MapsAfter, Moves, Desc, Completes;
      var kva, segs;
      err, kva, segs := DmaAlloc(p.cmdBuf.alloc, p.cmdBuf.mapping);
      if err == 0 {
        err := RunMapped(cmd, cmdMap, dataMap, admaMap, kva, segs, admabuf, reg, p);
        DmaFree(kva, segs);
      } else {
        NoTransfer(admaMap.md, dataMap.md, cmd.adma, Loadable(admabuf, reg), Desc(reg), p, |Mapped()| + 1 < SLOTS);
      }
    }

    // ----------------------------------------------------------------------
    // Whole requests

    /** When a command succeeds, as far as it does not depend on the dictionary. */
    ghost predicate Succeeds(w: Work, sdioSupport: bool, admabuf: int, reg: DmaSegment?)
      reads reg
    {
      && Accepted(w.cmd, sdioSupport) && w.plan.cmdBuf.Good() && w.plan.send == 0 && w.plan.wait == 0
      && (w.cmd.hasData ==>
            && w.cmd.dataLen <= MAX_DATA && w.plan.xferSend == 0
            && if w.cmd.adma then Loadable(admabuf, reg) && w.plan.admaLoad.Loaded? && w.plan.admaExec == 0
               else w.plan.bounceBuf.Good() && w.plan.bounceExec == 0)
    }

    /** The commands of one attempt.  With two free slots the dictionary never
        fails any of them. */
    method RunWorks(works: seq<Work>, sdioSupport: bool, cmdMap: DmaMap, dataMap: DmaMap, admaMap: DmaMap,
                    admabuf: int, ghost reg: DmaSegment?) returns (errs: seq<int>)
      requires Valid() && Registered(admabuf, reg) && |Mapped()| + 2 <= SLOTS
      requires forall w :: w in works ==>
        w.plan.WellFormed() && w.plan.FreshAddresses(Mapped().Keys + mappings + {admabuf})
      requires cmdMap != dataMap && cmdMap != admaMap && dataMap != admaMap
      modifies this, vaSegs.keys, vaSegs.values, cmdMap, dataMap, admaMap
      ensures Valid() && live == old(live) && Mapped() == old(Mapped()) && mappings == old(mappings)
      ensures |errs| == |works|
      ensures forall i :: 0 <= i < |works| ==> (errs[i] == 0 <==> Succeeds(works[i], sdioSupport, admabuf, reg))
    {
      hide Contents, First, OnePerKey, FreeSlots, HostCommand.ResponseType;
      errs := [];
      for i := 0 to |works|
        invariant Valid() && live == old(live) && Mapped() == old(Mapped()) && mappings == old(mappings)
        invariant |errs| == i
        invariant forall k :: 0 <= k < i ==> (errs[k] == 0 <==> Succeeds(works[k], sdioSupport, admabuf, reg))
      {
        assert works[i] in works;
        var err := ExecCommand(works[i].cmd, sdioSupport, cmdMap, dataMap, admaMap, admabuf, reg, works[i].plan);
        errs := errs + [err];
      }
    }

    /** One attempt: sdmmc_mem_read_block or sdmmc_mem_write_block with the data
        map loaded from the request's buffer. */
    method RunAttempt(a: Attempt, sdioSupport: bool, dmap: DmaMap, cmdMap: DmaMap, dataMap: DmaMap, admaMap: DmaMap,
                      kva: int, segs: DmaSegment, admabuf: int, ghost reg: DmaSegment?) returns (errs: seq<int>)
      requires Valid() && Registered(admabuf, reg) && |Mapped()| + 2 <= SLOTS
      requires Registered(kva, segs) && Loadable(kva, segs)
      requires a.WellFormed()
      requires forall w :: w in a.works ==> w.plan.FreshAddresses(Mapped().Keys + mappings + {admabuf})
      requires cmdMap != dataMap && cmdMap != admaMap && dataMap != admaMap && dmap !in {cmdMap, dataMap, admaMap}
      modifies this, vaSegs.keys, vaSegs.values, dmap, cmdMap, dataMap, admaMap
      ensures Valid() && live == old(live) && Mapped() == old(Mapped()) && mappings == old(mappings)
      ensures dmap.md == if a.load.Loaded? then 0 else if a.load.GenFails? then segs.memDesc else old(dmap.md)
      ensures if a.load.Loaded? then |errs| == |a.works| else errs == []
      ensures forall i :: 0 <= i < |errs| ==> (errs[i] == 0 <==> Succeeds(a.works[i], sdioSupport, admabuf, reg))
    {
      hide Contents, First, OnePerKey, FreeSlots, Accepted;
      errs := [];
      var err := DmamapLoad(dmap, kva, segs, a.load);
      if err == 0 {
        errs := RunWorks(a.works, sdioSupport, cmdMap, dataMap, admaMap, admabuf, reg);
        DmamapUnload(dmap);
      }
    }

    /** All attempts of a request.  The data map ends up set exactly if it stays so
        from before or from a load that failed too late. */
    method RunAttempts(attempts: seq<Attempt>, sdioSupport: bool, dmap: DmaMap, cmdMap: DmaMap, dataMap: DmaMap,
                       admaMap: DmaMap, kva: int, segs: DmaSegment, admabuf: int, ghost reg: DmaSegment?)
      returns (errs: seq<seq<int>>)
      requires Valid() && Registered(admabuf, reg) && |Mapped()| + 2 <= SLOTS
      requires Registered(kva, segs) && Loadable(kva, segs)
      requires forall a :: a in attempts ==> a.WellFormed()
      requires forall a :: a in attempts ==> forall w :: w in a.works ==>
        w.plan.FreshAddresses(Mapped().Keys + mappings + {admabuf})
      requires cmdMap != dataMap && cmdMap != admaMap && dataMap != admaMap && dmap !in {cmdMap, dataMap, admaMap}
      modifies this, vaSegs.keys, vaSegs.values, dmap, cmdMap, dataMap, admaMap
      ensures Valid() && live == old(live) && Mapped() == old(Mapped()) && mappings == old(mappings)
      ensures dmap.md != 0 <==> StaysSet(LoadsOf(attempts)) || (old(dmap.md) != 0 && Loaded !in LoadsOf(attempts))
      ensures |errs| == |attempts|
      ensures forall i :: 0 <= i < |errs| ==>
        && |errs[i]| == (if attempts[i].load.Loaded? then |attempts[i].works| else 0)
        && forall k :: 0 <= k < |errs[i]| ==>
             (errs[i][k] == 0 <==> Succeeds(attempts[i].works[k], sdioSupport, admabuf, reg))
    {
      hide Contents, First, OnePerKey, FreeSlots, Accepted, Succeeds, StaysSet, LoadsOf, Mapped;
      errs := [];
      NothingSet();
      assert attempts[..0] == [] && LoadsOf(attempts[..0]) == [];
      for i := 0 to |attempts|
        invariant Valid() && live == old(live) && Mapped() == old(Mapped()) && mappings == old(mappings)
        invariant dmap.md != 0 <==>
          StaysSet(LoadsOf(attempts[..i])) || (old(dmap.md) != 0 && Loaded !in LoadsOf(attempts[..i]))
        invariant |errs| == i
        invariant forall j :: 0 <= j < i ==>
          && |errs[j]| == (if attempts[j].load.Loaded? then |attempts[j].works| else 0)
          && forall k :: 0 <= k < |errs[j]| ==>
               (errs[j][k] == 0 <==> Succeeds(attempts[j].works[k], sdioSupport, admabuf, reg))
      {
        var e := RunAttempt(attempts[i], sdioSupport, dmap, cmdMap, dataMap, admaMap, kva, segs, admabuf, reg);
        errs := errs + [e];
        LoadsMore(attempts, i);
        StaysSetOne(attempts[i].load);
        StaysSetMore(LoadsOf(attempts[..i]), [attempts[i].load]);
      }
      assert attempts[..|attempts|] == attempts;
    }

    /** A request from dma_alloc to dma_free: on every way through it the
        registrations, the descriptors and the mappings afterwards are those
        before, and with three free slots the dictionary is never the step that
        fails. */
    method RunRequest(r: Request, sdioSupport: bool, dmap: DmaMap, cmdMap: DmaMap, dataMap: DmaMap, admaMap: DmaMap,
                      admabuf: int, ghost reg: DmaSegment?) returns (err: int, errs: seq<seq<int>>)
      requires Valid() && Registered(admabuf, reg) && |Mapped()| + 3 <= SLOTS
      requires r.WellFormed() && r.FreshAddresses(Mapped().Keys + mappings + {admabuf})
      requires cmdMap != dataMap && cmdMap != admaMap && dataMap != admaMap && dmap !in {cmdMap, dataMap, admaMap}
      modifies this, vaSegs.keys, vaSegs.values, dmap, cmdMap, dataMap, admaMap
      ensures Valid() && live == old(live) && Mapped() == old(Mapped()) && mappings == old(mappings)
      ensures err == 0 <==> r.HasBuffer()
      ensures dmap.md != 0 <==> StaysSet(r.Loads()) || (old(dmap.md) != 0 && Loaded !in r.Loads())
      ensures |errs| == if err == 0 then |r.attempts| else 0
      ensures forall i :: 0 <= i < |errs| ==>
        && |errs[i]| == (if r.attempts[i].load.Loaded? then |r.attempts[i].works| else 0)
        && forall k :: 0 <= k < |errs[i]| ==>
             (errs[i][k] == 0 <==> Succeeds(r.attempts[i].works[k], sdioSupport, admabuf, reg))
    {
      hide Contents, First, OnePerKey, FreeSlots, Accepted, Succeeds, StaysSet, LoadsOf;
      errs := [];
      NothingSet();
      var kva, segs;
      err, kva, segs := DmaAlloc(r.alloc, r.mapping);
      if err == 0 {
        errs := RunAttempts(r.attempts, sdioSupport, dmap, cmdMap, dataMap, admaMap, kva, segs, admabuf, reg);
        DmaFree(kva, segs);
      }
    }

    /** One request after the other. */
    method RunRequests(requests: seq<Request>, sdioSupport: bool, dmap: DmaMap, cmdMap: DmaMap, dataMap: DmaMap,
                       admaMap: DmaMap, admabuf: int, ghost reg: DmaSegment?) returns (errs: seq<int>)
      requires Valid() && Registered(admabuf, reg) && |Mapped()| + 3 <= SLOTS
      requires forall r :: r in requests ==> r.WellFormed() && r.FreshAddresses(Mapped().Keys + mappings + {admabuf})
      requires cmdMap != dataMap && cmdMap != admaMap && dataMap != admaMap && dmap !in {cmdMap, dataMap, admaMap}
      modifies this, vaSegs.keys, vaSegs.values, dmap, cmdMap, dataMap, admaMap
      ensures Valid() && live == old(live) && Mapped() == old(Mapped()) && mappings == old(mappings)
      ensures dmap.md != 0 <==> StaysSet(AllLoads(requests)) || (old(dmap.md) != 0 && Loaded !in AllLoads(requests))
      ensures |errs| == |requests|
      ensures forall i :: 0 <= i < |errs| ==>
        (errs[i] == 0 <==> requests[i].HasBuffer())
    {
      hide Contents, First, OnePerKey, FreeSlots, Accepted, Succeeds, Mapped, StaysSet;
      errs := [];
      NothingSet();
      for i := 0 to |requests|
        invariant dmap.md != 0 <==>
          StaysSet(AllLoads(requests[..i])) || (old(dmap.md) != 0 && Loaded !in AllLoads(requests[..i]))
        invariant Valid() && |errs| == i
        invariant live == old(live) && Mapped() == old(Mapped()) && mappings == old(mappings)
        invariant forall k :: 0 <= k < i ==>
          (errs[k] == 0 <==> requests[k].HasBuffer())
      {
        assert requests[i] in requests;
        var err, es := RunRequest(requests[i], sdioSupport, dmap, cmdMap, dataMap, admaMap, admabuf, reg);
        errs := errs + [err];
        assert requests[..i + 1][..i] == requests[..i];
        StaysSetMore(AllLoads(requests[..i]), requests[i].Loads());
      }
      assert requests[..|requests|] == requests;
    }

    /** The descriptor buffer in rtsx_attach: it stays mapped, unless the bus
        driver cannot be attached. */
    method AttachAdma(alloc: AllocAnswer, mapping: MapAnswer, busFound: bool)
      returns (ok: bool, admabuf: int, segs: DmaSegment)
      requires Valid() && mappings == {} && Mapped() == map[]
      requires mapping.MappedAt? ==> mapping.va != FREE
      modifies this, vaSegs.keys, vaSegs.values
      ensures Valid() && fresh(segs)
      ensures ok <==> alloc.Allocated? && mapping.MappedAt? && busFound
      ensures ok ==>
        && admabuf == mapping.va && mappings == {admabuf} && Mapped() == map[admabuf := segs]
        && segs.memDesc != 0 && live == old(live) + {segs.memDesc}
      ensures !ok ==> live == old(live) && mappings == {} && Mapped() == map[]
    {
      hide Contents, First, OnePerKey, FreeSlots;
      var err;
      err, admabuf, segs := DmaAlloc(alloc, mapping);
      ok := err == 0 && busFound;
      if err == 0 && !busFound {
        DmaFree(admabuf, segs);
      }
    }
  }

  /** The driver from its attach on: however many requests it serves, between
      them exactly the descriptor buffer is mapped and live, and no request ever
      finds the dictionary full. */
  method RunDriver(alloc: AllocAnswer, mapping: MapAnswer, busFound: bool, sdioSupport: bool, requests: seq<Request>)
    returns (engine: DmaEngine, dmap: DmaMap, ok: bool, errs: seq<int>)
    requires mapping.MappedAt? ==> mapping.va != FREE
    requires forall r :: r in requests ==>
      r.WellFormed() && r.FreshAddresses(if mapping.MappedAt? then {mapping.va} else {})
    ensures fresh(engine) && engine.Valid()
    ensures ok <==> alloc.Allocated? && mapping.MappedAt? && busFound
    ensures |errs| == if ok then |requests| else 0
    ensures forall i :: 0 <= i < |errs| ==>
      (errs[i] == 0 <==> requests[i].HasBuffer())
    ensures dmap.md != 0 <==> ok && StaysSet(AllLoads(requests))
    ensures |engine.live| == |engine.mappings| == |engine.Mapped()| == if ok then 1 else 0
  {
    hide Contents, First, OnePerKey, FreeSlots, DmaEngine.Accepted, DmaEngine.Succeeds;
    engine := new DmaEngine();
    var admabuf, segs;
    ok, admabuf, segs := engine.AttachAdma(alloc, mapping, busFound);
    errs := [];
    dmap := new DmaMap();
    if !ok {
      return;
    }
    var cmdMap := new DmaMap();
    var dataMap := new DmaMap();
    var admaMap := new DmaMap();
    assert engine.Mapped().Keys + engine.mappings + {admabuf} == {admabuf};
    errs := engine.RunRequests(requests, sdioSupport, dmap, cmdMap, dataMap, admaMap, admabuf, segs);
  }

  /** A command whose buffer cannot be cut into segments: nothing is live any
      more, but the command map is still set to the released descriptor. */
  method MapLeftSet() returns (engine: DmaEngine, cmdMap: DmaMap)
    ensures engine.live == {} && cmdMap.md != 0
  {
    engine := new DmaEngine();
    cmdMap := new DmaMap();
    var dataMap := new DmaMap();
    var admaMap := new DmaMap();
    var none := BufferPlan(NoBuffer, NotMapped, TooSmall);
    var plan := Plan(BufferPlan(Allocated, MappedAt(0x1000), GenFails(EIO)), 0, 0, 0,
                     none, 0, TooSmall, 0);
    var err := engine.ExecCommand(Command(13, 0x1c00, 0, false, false), false, cmdMap, dataMap, admaMap, 0, null, plan);
  }
}
