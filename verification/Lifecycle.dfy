/** The card lifecycle as a transition system: the task thread, the interrupt
    handler, power management, the disk's I/O requests and the driver's detach
    all take atomic steps on shared state; every theorem is about every run. */
module Lifecycle {
  import opened Prelude

  datatype Task = Discover | Io(id: nat)

  /** Where the task thread stands. */
  datatype Pc =
    | Restart                   // before sdmmc_needs_discover at the top
    | LoopTest                  // the lock is held: while (!sc_dying)
    | ForTest                   // the lock is held: TAILQ_FIRST
    | Asleep(notified: bool)    // in tsleep; the lock is released
    | Fetched(task: Task)       // head read, lock dropped, before sdmmc_del_task
    | Taken(task: Task)         // off the queue, before task->func
    | Detecting                 // discover task, before card_detect
    | Sampled(present: bool)    // after card_detect
    | AttachStart | Attaching   // in sdmmc_card_attach
    | Detaching                 // discover task, before sdmmc_card_detach
    | IoTask(id: nat)
    | ExitTest | ExitDetach     // after the loop
    | DyingTest | ClearPresent | ResetDying
    | Exited

  datatype DiskEvent = DiskAttach | DiskDetach

  datatype DetachPc = DetachIdle | DetachWaiting | DetachDone

  datatype ResumePc = ResumeIdle | ResumeFlagSet | ResumeNotified

  /** The task queue with its history. */
  datatype Queue = Queue(
    tasks: seq<Task>,        // sc_tskq
    onqueue: set<Task>,      // tasks whose onqueue flag is set
    added: seq<Task>,        // history: sdmmc_add_task
    started: seq<Task>,      // history: task->func
    nextIo: nat)

  /** What the bus driver knows of the card. */
  datatype Slot = Slot(
    present: bool,           // SMF_CARD_PRESENT
    attached: bool,          // SMF_CARD_ATTACHED
    memMode: bool,           // SMF_MEM_MODE
    events: seq<DiskEvent>)  // history: sdmmc_scsi_attach, sdmmc_scsi_detach

  /** History of the requests that have run: read_task_impl_ calls the client's
      completion, unless it finds no function 0 and returns without it. */
  datatype Requests = Requests(completed: seq<nat>, dropped: seq<nat>)

  datatype State = State(
    hw: bool,                // RTSX_F_CARD_PRESENT, the controller's view
    slot: Slot,
    q: Queue,
    req: Requests,
    dying: int,              // sc_dying
    pc: Pc,
    notifiers: nat,          // interrupt handlers that have changed hw and not yet queued
    resume: ResumePc,
    detach: DetachPc,
    dmapLive: bool)          // sc_dmap

  function Init(hw: bool): State
  {
    State(hw, Slot(false, false, false, []), Queue([], {}, [], [], 0), Requests([], []), 0, Restart, 0,
          ResumeIdle, DetachIdle, true)
  }

  /** How an attach attempt ends: some step fails, or the card has memory, or it
      only has I/O functions. */
  datatype Outcome = Fails(memMode: bool) | Memory | IoOnly

  datatype Label =
    | Insert | Eject | Notify
    | Suspend | ResumeRead(exist: bool) | ResumeQueue | ResumeWake
    | Submit
    | DetachBegin | DetachPoll | DetachFinish
    | Worker(outcome: Outcome)

  /** Nobody else can take the global lock. */
  predicate HoldsLock(pc: Pc) { pc.LoopTest? || pc.ForTest? }

  /** wakeup(&sc_tskq). */
  function Woken(pc: Pc): Pc { if pc.Asleep? then Asleep(true) else pc }

  /** sdmmc_add_task. */
  function AddTask(q: Queue, t: Task): Queue
  {
    q.(tasks := q.tasks + [t], onqueue := q.onqueue + {t}, added := q.added + [t])
  }

  /** sdmmc_needs_discover, its test and its insertion in one step. */
  function NeedsDiscover(s: State): State
  {
    if Discover in s.q.onqueue then s else s.(q := AddTask(s.q, Discover), pc := Woken(s.pc))
  }

  /** sdmmc_card_detach, as far as flags and the disk go. */
  function CardDetach(c: Slot): Slot
  {
    if c.attached then c.(attached := false, events := if c.memMode then c.events + [DiskDetach] else c.events) else c
  }

  /** The second half of sdmmc_card_attach. */
  function CardAttach(c: Slot, o: Outcome): Slot
  {
    match o
    case Fails(m) => CardDetach(c.(memMode := m))
    case Memory => c.(memMode := true, attached := true, events := c.events + [DiskAttach])
    case IoOnly => c.(memMode := false, attached := true)
  }

  /** read_task_impl_: function 0 is there while a card is attached. */
  function Serve(r: Requests, id: nat, attached: bool): Requests
  {
    if attached then r.(completed := r.completed + [id]) else r.(dropped := r.dropped + [id])
  }

  /** One step of sdmmc_task_thread. */
  function WorkerStep(s: State, o: Outcome): Option<State>
  {
    match s.pc
    case Restart => Some(NeedsDiscover(s).(pc := LoopTest))
    case LoopTest => Some(s.(pc := if s.dying == 0 then ForTest else ExitTest))
    case ForTest => Some(s.(pc := if |s.q.tasks| > 0 then Fetched(s.q.tasks[0]) else Asleep(false)))
    case Asleep(notified) => if notified then Some(s.(pc := LoopTest)) else None
    case Fetched(t) =>
      if |s.q.tasks| == 0 then None
      else Some(s.(q := s.q.(tasks := s.q.tasks[1..], onqueue := s.q.onqueue - {t}), pc := Taken(t)))
    case Taken(t) =>
      Some(s.(q := s.q.(started := s.q.started + [t]), pc := if t.Discover? then Detecting else IoTask(t.id)))
    case Detecting => Some(s.(pc := Sampled(s.hw)))
    case Sampled(p) =>
      if p && !s.slot.present then Some(s.(slot := s.slot.(present := true), pc := AttachStart))
      else if !p && s.slot.present then Some(s.(slot := s.slot.(present := false), pc := Detaching))
      else Some(s.(pc := ForTest))
    case AttachStart => Some(s.(slot := s.slot.(attached := false), pc := Attaching))
    case Attaching => Some(s.(slot := CardAttach(s.slot, o), pc := ForTest))
    case Detaching => Some(s.(slot := CardDetach(s.slot), pc := ForTest))
    case IoTask(id) => Some(s.(req := Serve(s.req, id, s.slot.attached), pc := ForTest))
    case ExitTest => Some(s.(pc := if s.slot.present then ExitDetach else DyingTest))
    case ExitDetach => Some(s.(slot := CardDetach(s.slot), pc := DyingTest))
    case DyingTest => Some(s.(pc := if s.dying == -1 then ClearPresent else Exited))
    case ClearPresent => Some(s.(slot := s.slot.(present := false), pc := ResetDying))
    case ResetDying => Some(s.(dying := 0, pc := Restart))
    case Exited => None
  }

  function Next(s: State, l: Label): Option<State>
  {
    match l
    // rtsx_intr: an insertion is acted on only if it is news; an ejection always.
    case Insert => if s.hw then None else Some(s.(hw := true, notifiers := s.notifiers + 1))
    case Eject => Some(s.(hw := false, notifiers := s.notifiers + 1))
    case Notify =>
      if s.notifiers == 0 || HoldsLock(s.pc) then None
      else Some(NeedsDiscover(s).(notifiers := s.notifiers - 1))
    // sdmmc_activate and rtsx_activate.
    case Suspend => Some(if s.slot.present then s.(dying := -1) else s)
    case ResumeRead(exist) =>
      if s.resume != ResumeIdle then None else Some(s.(hw := exist, resume := ResumeFlagSet))
    case ResumeQueue =>
      if s.resume != ResumeFlagSet || HoldsLock(s.pc) then None
      else Some(NeedsDiscover(s).(resume := ResumeNotified))
    case ResumeWake =>
      if s.resume != ResumeNotified then None else Some(s.(pc := Woken(s.pc), resume := ResumeIdle))
    // doAsyncReadWrite queues a task of its own.
    case Submit =>
      if HoldsLock(s.pc) then None
      else Some(s.(q := AddTask(s.q, Io(s.q.nextIo)).(nextIo := s.q.nextIo + 1), pc := Woken(s.pc)))
    // sdmmc_detach.
    case DetachBegin => if s.detach != DetachIdle then None else Some(s.(dying := 1, detach := DetachWaiting))
    case DetachPoll => if s.detach != DetachWaiting || s.pc.Exited? then None else Some(s.(pc := Woken(s.pc)))
    case DetachFinish =>
      if s.detach != DetachWaiting || !s.pc.Exited? then None
      else Some(s.(dmapLive := false, detach := DetachDone))
    case Worker(o) => WorkerStep(s, o)
  }

  function Run(s: State, ls: seq<Label>): Option<State>
    decreases |ls|
  {
    if |ls| == 0 then Some(s)
    else
      var n := Next(s, ls[0]);
      if n.None? then None else Run(n.value, ls[1..])
  }

  // ------------------------------------------------------------------------
  // The queue: FIFO, exactly once, no lost wakeup

  /** The task taken off the queue and not yet started. */
  function InHand(pc: Pc): seq<Task>
  {
    if pc.Taken? then [pc.task] else []
  }

  ghost predicate NoRepeats(q: seq<Task>)
  {
    forall i, j :: 0 <= i < j < |q| ==> q[i] != q[j]
  }

  ghost predicate QueueInv(q: Queue, pc: Pc)
  {
    && q.added == q.started + InHand(pc) + q.tasks
    && q.onqueue == (set t | t in q.tasks)
    && NoRepeats(q.tasks)
    && (forall t :: t in q.tasks && t.Io? ==> t.id < q.nextIo)
    && (pc.Fetched? ==> |q.tasks| > 0 && q.tasks[0] == pc.task)
    && (pc == Asleep(false) ==> q.tasks == [])
  }

  lemma {:induction false} AddKeepsQueue(q: Queue, pc: Pc, t: Task, next: nat)
    requires QueueInv(q, pc) && t !in q.onqueue && !HoldsLock(pc) && q.nextIo <= next && (t.Io? ==> t.id < next)
    ensures QueueInv(AddTask(q, t).(nextIo := next), Woken(pc))
  {
    assert q.started + InHand(pc) + (q.tasks + [t]) == q.added + [t];
  }

  lemma {:induction false} TakeKeepsQueue(q: Queue, t: Task)
    requires QueueInv(q, Fetched(t))
    ensures QueueInv(q.(tasks := q.tasks[1..], onqueue := q.onqueue - {t}), Taken(t))
  {
    assert q.tasks == [t] + q.tasks[1..];
    assert q.started + [] + q.tasks == q.started + [t] + q.tasks[1..];
  }

  lemma {:induction false} StartKeepsQueue(q: Queue, t: Task, pc': Pc)
    requires QueueInv(q, Taken(t)) && InHand(pc') == [] && !pc'.Fetched? && pc' != Asleep(false)
    ensures QueueInv(q.(started := q.started + [t]), pc')
  {
    assert q.started + [t] + q.tasks == (q.started + [t]) + [] + q.tasks;
  }

  /** Steps that touch neither the queue nor the task in hand. */
  lemma {:induction false} MoveKeepsQueue(q: Queue, pc: Pc, pc': Pc)
    requires QueueInv(q, pc) && InHand(pc) == InHand(pc') && (pc'.Fetched? ==> pc' == pc)
    requires pc' == Asleep(false) ==> q.tasks == []
    ensures QueueInv(q, pc')
  {
  }

  lemma {:induction false} LookKeepsQueue(q: Queue, pc': Pc)
    requires QueueInv(q, ForTest) && pc' == if |q.tasks| > 0 then Fetched(q.tasks[0]) else Asleep(false)
    ensures QueueInv(q, pc')
  {
  }

  lemma {:induction false} SubmitKeepsQueue(q: Queue, pc: Pc)
    requires QueueInv(q, pc) && !HoldsLock(pc)
    ensures QueueInv(AddTask(q, Io(q.nextIo)).(nextIo := q.nextIo + 1), Woken(pc))
  {
    AddKeepsQueue(q, pc, Io(q.nextIo), q.nextIo + 1);
  }

  lemma {:induction false} DiscoverKeepsQueue(s: State)
    requires QueueInv(s.q, s.pc) && !HoldsLock(s.pc)
    ensures QueueInv(NeedsDiscover(s).q, NeedsDiscover(s).pc)
  {
    if Discover !in s.q.onqueue { AddKeepsQueue(s.q, s.pc, Discover, s.q.nextIo); }
  }

  lemma {:induction false} QueueWorker(s: State, o: Outcome)
    requires QueueInv(s.q, s.pc) && WorkerStep(s, o).Some?
    ensures QueueInv(WorkerStep(s, o).value.q, WorkerStep(s, o).value.pc)
  {
    hide QueueInv, CardAttach, CardDetach;
    var s' := WorkerStep(s, o).value;
    if s.pc.Restart? {
      DiscoverKeepsQueue(s);
      MoveKeepsQueue(NeedsDiscover(s).q, s.pc, s'.pc);
    } else if s.pc.ForTest? {
      LookKeepsQueue(s.q, s'.pc);
    } else if s.pc.Fetched? {
      TakeKeepsQueue(s.q, s.pc.task);
    } else if s.pc.Taken? {
      StartKeepsQueue(s.q, s.pc.task, s'.pc);
    } else {
      ElsewhereQueueStays(s, o);
      MoveKeepsQueue(s.q, s.pc, s'.pc);
    }
  }

  lemma {:induction false} ElsewhereQueueStays(s: State, o: Outcome)
    requires WorkerStep(s, o).Some?
    requires !s.pc.Restart? && !s.pc.ForTest? && !s.pc.Fetched? && !s.pc.Taken?
    ensures
      var s' := WorkerStep(s, o).value;
      s'.q == s.q && InHand(s'.pc) == [] && !s'.pc.Fetched? && s'.pc != Asleep(false)
  {
  }

  lemma {:induction false} QueueStep(s: State, l: Label)
    requires QueueInv(s.q, s.pc) && Next(s, l).Some?
    ensures QueueInv(Next(s, l).value.q, Next(s, l).value.pc)
  {
    hide QueueInv, WorkerStep;
    match l {
      case Worker(o) => QueueWorker(s, o);
      case Submit => SubmitKeepsQueue(s.q, s.pc);
      case Notify => DiscoverKeepsQueue(s);
      case ResumeQueue => DiscoverKeepsQueue(s);
      case _ => MoveKeepsQueue(s.q, s.pc, Woken(s.pc));
    }
  }

  // ------------------------------------------------------------------------
  // No card change is lost

  /** Somebody stands just before queueing a discover task, or one is queued. */
  predicate Noticed(s: State)
  {
    Discover in s.q.tasks || s.notifiers > 0 || s.resume.ResumeFlagSet?
  }

  /** The thread is on its way to look at hw afresh: a discover task that has not
      sampled yet, or the rediscovery after a suspend. */
  predicate WillLook(pc: Pc)
  {
    pc.Restart? || pc == Taken(Discover) || pc.Detecting? || Leaving(pc)
  }

  /** The thread has left its loop. */
  predicate Leaving(pc: Pc)
  {
    pc.ExitTest? || pc.ExitDetach? || pc.DyingTest? || pc.ClearPresent? || pc.ResetDying?
  }

  /** A difference between the controller and the bus driver is noticed, about to
      be looked at, or just being removed by a discover task that has sampled the
      current state and not yet committed it.  A stale sample is itself noticed. */
  predicate NoLoss(hw: bool, present: bool, pc: Pc, noticed: bool)
  {
    && (hw != present ==> noticed || WillLook(pc) || pc == Sampled(hw))
    && (pc == Sampled(!hw) ==> noticed)
  }

  predicate ShutdownInv(pc: Pc, dying: int, detach: DetachPc, dmapLive: bool)
  {
    && (dying == -1 || dying == 0 || dying == 1)
    && (detach.DetachIdle? ==> dying != 1 && !pc.Exited?)
    && (Leaving(pc) && detach.DetachIdle? ==> dying == -1)
    && (pc.ExitTest? || pc.ExitDetach? || pc.DyingTest? ==> dying != 0)
    && (detach.DetachDone? <==> !dmapLive)
    && (!dmapLive ==> pc.Exited?)
  }

  predicate PresenceInv(s: State)
  {
    s.detach.DetachIdle? ==> NoLoss(s.hw, s.slot.present, s.pc, Noticed(s))
  }

  lemma {:induction false} ShutdownWorker(s: State, o: Outcome)
    requires ShutdownInv(s.pc, s.dying, s.detach, s.dmapLive) && WorkerStep(s, o).Some?
    ensures
      var s' := WorkerStep(s, o).value;
      ShutdownInv(s'.pc, s'.dying, s'.detach, s'.dmapLive)
  {
    hide CardAttach, CardDetach;
  }

  lemma {:induction false} ShutdownStep(s: State, l: Label)
    requires ShutdownInv(s.pc, s.dying, s.detach, s.dmapLive) && Next(s, l).Some?
    ensures
      var s' := Next(s, l).value;
      ShutdownInv(s'.pc, s'.dying, s'.detach, s'.dmapLive)
  {
    hide WorkerStep;
    if l.Worker? { ShutdownWorker(s, l.outcome); }
  }

  /** Only taking the discover task off the queue ends its being noticed. */
  lemma {:induction false} NoticedLasts(s: State, l: Label)
    requires Next(s, l).Some? && Noticed(s) && !(l.Worker? && s.pc.Fetched?)
    requires QueueInv(s.q, s.pc)
    ensures Noticed(Next(s, l).value)
  {
    hide NoRepeats, CardAttach, CardDetach;
    var s' := Next(s, l).value;
    assert Discover in s.q.tasks ==> Discover in s'.q.tasks;
  }

  lemma {:induction false} PresenceFetched(s: State, o: Outcome)
    requires QueueInv(s.q, s.pc) && s.pc.Fetched? && WorkerStep(s, o).Some? && PresenceInv(s)
    ensures PresenceInv(WorkerStep(s, o).value)
  {
    hide NoRepeats, CardAttach, CardDetach;
    assert s.q.tasks == [s.pc.task] + s.q.tasks[1..];
  }

  lemma {:induction false} PresenceRestart(s: State, o: Outcome)
    requires QueueInv(s.q, s.pc) && s.pc.Restart? && PresenceInv(s)
    ensures PresenceInv(WorkerStep(s, o).value)
  {
    hide NoRepeats, CardAttach, CardDetach;
  }

  lemma {:induction false} PresenceElsewhere(s: State, o: Outcome)
    requires !s.pc.Fetched? && !s.pc.Restart? && WorkerStep(s, o).Some?
    requires Noticed(s) ==> Noticed(WorkerStep(s, o).value)
    requires ShutdownInv(s.pc, s.dying, s.detach, s.dmapLive) && PresenceInv(s)
    ensures PresenceInv(WorkerStep(s, o).value)
  {
    hide Noticed, CardAttach, CardDetach, Serve, AddTask, NeedsDiscover;
    KeepsPresent(s.slot, o);
  }

  lemma {:induction false} PresenceWorker(s: State, o: Outcome)
    requires QueueInv(s.q, s.pc) && WorkerStep(s, o).Some?
    requires ShutdownInv(s.pc, s.dying, s.detach, s.dmapLive) && PresenceInv(s)
    ensures PresenceInv(WorkerStep(s, o).value)
  {
    hide QueueInv, ShutdownInv, PresenceInv, WorkerStep, Noticed;
    if s.pc.Fetched? {
      PresenceFetched(s, o);
    } else if s.pc.Restart? {
      PresenceRestart(s, o);
    } else {
      if Noticed(s) { NoticedLasts(s, Worker(o)); }
      PresenceElsewhere(s, o);
    }
  }

  lemma KeepsPresent(c: Slot, o: Outcome)
    ensures CardAttach(c, o).present == c.present && CardDetach(c).present == c.present
  {
  }

  lemma {:induction false} PresenceStep(s: State, l: Label)
    requires QueueInv(s.q, s.pc) && Next(s, l).Some?
    requires ShutdownInv(s.pc, s.dying, s.detach, s.dmapLive) && PresenceInv(s)
    ensures PresenceInv(Next(s, l).value)
  {
    hide QueueInv, WorkerStep;
    if l.Worker? {
      PresenceWorker(s, l.outcome);
    } else if Noticed(s) {
      NoticedLasts(s, l);
    }
  }

  // ------------------------------------------------------------------------
  // The disk

  /** Attach, detach, attach, ... */
  ghost predicate Alternates(e: seq<DiskEvent>)
  {
    forall i :: 0 <= i < |e| ==> e[i] == if i % 2 == 0 then DiskAttach else DiskDetach
  }

  /** A disk is there. */
  predicate DiskThere(e: seq<DiskEvent>) { |e| % 2 == 1 }

  /** Places the thread only reaches with no card attached. */
  predicate NothingAttached(pc: Pc)
  {
    pc.AttachStart? || pc.Attaching? || pc.DyingTest? || pc.ClearPresent? || pc.ResetDying? || pc.Restart? || pc.Exited?
  }

  ghost predicate DiskInv(c: Slot, pc: Pc)
  {
    && Alternates(c.events)
    && (DiskThere(c.events) <==> c.attached && c.memMode)
    && (c.attached ==> c.present || pc.Detaching?)
    && (NothingAttached(pc) ==> !c.attached)
    && (pc.AttachStart? || pc.Attaching? ==> c.present)
    && (pc.ResetDying? ==> !c.present)
  }

  lemma AttachKeepsDisk(c: Slot, o: Outcome)
    requires DiskInv(c, Attaching)
    ensures DiskInv(CardAttach(c, o), ForTest)
  {
  }

  lemma DetachKeepsDisk(c: Slot, pc: Pc)
    requires DiskInv(c, pc) && (pc.Detaching? || pc.ExitDetach?)
    ensures DiskInv(CardDetach(c), ForTest) && !CardDetach(c).attached
  {
  }

  lemma {:induction false} DiskWorker(s: State, o: Outcome)
    requires DiskInv(s.slot, s.pc) && WorkerStep(s, o).Some?
    ensures DiskInv(WorkerStep(s, o).value.slot, WorkerStep(s, o).value.pc)
  {
    hide Alternates, DiskThere, CardAttach, CardDetach, AddTask, Serve;
    if s.pc.Attaching? {
      AttachKeepsDisk(s.slot, o);
    } else if s.pc.Detaching? || s.pc.ExitDetach? {
      DetachKeepsDisk(s.slot, s.pc);
    }
  }

  lemma {:induction false} DiskStep(s: State, l: Label)
    requires DiskInv(s.slot, s.pc) && Next(s, l).Some?
    ensures DiskInv(Next(s, l).value.slot, Next(s, l).value.pc)
  {
    hide WorkerStep, Alternates, DiskThere;
    if l.Worker? { DiskWorker(s, l.outcome); }
  }

  // ------------------------------------------------------------------------
  // Requests

  /** No request is added twice. */
  ghost predicate FreshRequests(q: Queue)
  {
    && (forall i, j :: 0 <= i < j < |q.added| && q.added[i].Io? ==> q.added[i] != q.added[j])
    && (forall t :: t in q.added && t.Io? ==> t.id < q.nextIo)
  }

  ghost predicate Unrepeated(r: Requests)
  {
    && (forall i, j :: 0 <= i < j < |r.completed| ==> r.completed[i] != r.completed[j])
    && (forall i, j :: 0 <= i < j < |r.dropped| ==> r.dropped[i] != r.dropped[j])
    && (forall id :: id in r.completed ==> id !in r.dropped)
  }

  predicate Ended(r: Requests, id: nat) { id in r.completed || id in r.dropped }

  /** The requests that have ended are those started before, each once. */
  ghost predicate RequestInv(q: Queue, pc: Pc, r: Requests)
  {
    && FreshRequests(q) && Unrepeated(r)
    && (forall id :: Io(id) in q.started <==> Ended(r, id) || pc == IoTask(id))
    && (pc.IoTask? ==> !Ended(r, pc.id))
  }

  lemma {:induction false} AddKeepsRequests(q: Queue, pc: Pc, r: Requests, t: Task, next: nat)
    requires RequestInv(q, pc, r) && (t.Discover? ==> next == q.nextIo)
    requires t.Io? ==> t.id == q.nextIo && next == q.nextIo + 1
    ensures RequestInv(AddTask(q, t).(nextIo := next), Woken(pc), r)
  {
  }

  lemma {:induction false} StartKeepsRequests(q: Queue, r: Requests, t: Task)
    requires RequestInv(q, Taken(t), r) && QueueInv(q, Taken(t))
    ensures RequestInv(q.(started := q.started + [t]), if t.Discover? then Detecting else IoTask(t.id), r)
  {
    if t.Io? {
      assert q.added[|q.started|] == t;
      assert forall i :: 0 <= i < |q.started| ==> q.added[i] == q.started[i];
    }
  }

  lemma {:induction false} ServeKeepsRequests(q: Queue, r: Requests, id: nat, attached: bool)
    requires RequestInv(q, IoTask(id), r)
    ensures RequestInv(q, ForTest, Serve(r, id, attached))
  {
    var r' := Serve(r, id, attached);
    forall i: nat ensures Ended(r', i) <==> Ended(r, i) || i == id {
    }
  }

  lemma {:induction false} MoveKeepsRequests(q: Queue, q': Queue, pc: Pc, pc': Pc, r: Requests)
    requires RequestInv(q, pc, r) && (pc == pc' || (!pc.IoTask? && !pc'.IoTask?))
    requires q'.added == q.added && q'.started == q.started && q'.nextIo == q.nextIo
    ensures RequestInv(q', pc', r)
  {
  }

  lemma {:induction false} DiscoverKeepsRequests(s: State)
    requires RequestInv(s.q, s.pc, s.req)
    ensures RequestInv(NeedsDiscover(s).q, NeedsDiscover(s).pc, s.req)
  {
    if Discover !in s.q.onqueue { AddKeepsRequests(s.q, s.pc, s.req, Discover, s.q.nextIo); }
  }

  lemma {:induction false} RequestWorker(s: State, o: Outcome)
    requires RequestInv(s.q, s.pc, s.req) && QueueInv(s.q, s.pc) && WorkerStep(s, o).Some?
    ensures
      var s' := WorkerStep(s, o).value;
      RequestInv(s'.q, s'.pc, s'.req)
  {
    hide RequestInv, QueueInv, Serve, CardAttach, CardDetach;
    var s' := WorkerStep(s, o).value;
    if s.pc.Restart? {
      DiscoverKeepsRequests(s);
      MoveKeepsRequests(NeedsDiscover(s).q, s'.q, s.pc, s'.pc, s.req);
    } else if s.pc.Taken? {
      StartKeepsRequests(s.q, s.req, s.pc.task);
    } else if s.pc.IoTask? {
      ServeKeepsRequests(s.q, s.req, s.pc.id, s.slot.attached);
    } else {
      ElsewhereRequestsStay(s, o);
      MoveKeepsRequests(s.q, s'.q, s.pc, s'.pc, s.req);
    }
  }

  lemma {:induction false} ElsewhereRequestsStay(s: State, o: Outcome)
    requires WorkerStep(s, o).Some? && !s.pc.Restart? && !s.pc.Taken? && !s.pc.IoTask?
    ensures
      var s' := WorkerStep(s, o).value;
      && s'.req == s.req && !s'.pc.IoTask?
      && s'.q.added == s.q.added && s'.q.started == s.q.started && s'.q.nextIo == s.q.nextIo
  {
    hide CardAttach, CardDetach;
  }

  lemma {:induction false} RequestStep(s: State, l: Label)
    requires RequestInv(s.q, s.pc, s.req) && QueueInv(s.q, s.pc) && Next(s, l).Some?
    ensures
      var s' := Next(s, l).value;
      RequestInv(s'.q, s'.pc, s'.req)
  {
    hide RequestInv, QueueInv, WorkerStep;
    match l {
      case Worker(o) => RequestWorker(s, o);
      case Submit => AddKeepsRequests(s.q, s.pc, s.req, Io(s.q.nextIo), s.q.nextIo + 1);
      case Notify => DiscoverKeepsRequests(s);
      case ResumeQueue => DiscoverKeepsRequests(s);
      case _ => MoveKeepsRequests(s.q, s.q, s.pc, Woken(s.pc), s.req);
    }
  }

  // ------------------------------------------------------------------------
  // Every run

  ghost predicate Inv(s: State)
  {
    && QueueInv(s.q, s.pc)
    && ShutdownInv(s.pc, s.dying, s.detach, s.dmapLive)
    && PresenceInv(s)
    && DiskInv(s.slot, s.pc)
    && RequestInv(s.q, s.pc, s.req)
  }

  lemma {:induction false} StepKeepsInv(s: State, l: Label)
    requires Inv(s) && Next(s, l).Some?
    ensures Inv(Next(s, l).value)
  {
    hide QueueInv, ShutdownInv, PresenceInv, DiskInv, RequestInv, Next;
    RequestStep(s, l);
    QueueStep(s, l);
    ShutdownStep(s, l);
    PresenceStep(s, l);
    DiskStep(s, l);
  }

  lemma {:induction false} RunKeepsInv(s: State, ls: seq<Label>)
    requires Inv(s) && Run(s, ls).Some?
    ensures Inv(Run(s, ls).value)
    decreases |ls|
  {
    hide Inv, Next;
    if |ls| > 0 {
      StepKeepsInv(s, ls[0]);
      RunKeepsInv(Next(s, ls[0]).value, ls[1..]);
    }
  }

  /** The state a run from attach time ends in. */
  ghost predicate Reached(s: State)
  {
    exists hw, ls :: Run(Init(hw), ls) == Some(s)
  }

  lemma ReachedInv(s: State)
    requires Reached(s)
    ensures Inv(s)
  {
    var hw, ls :| Run(Init(hw), ls) == Some(s);
    RunKeepsInv(Init(hw), ls);
  }

  /** No insertion or removal is lost, through interrupts, suspend, resume and the
      restart of the thread; a thread at rest agrees with the controller. */
  lemma NoCardChangeIsLost(s: State)
    requires Reached(s) && s.detach.DetachIdle?
    ensures s.hw != s.slot.present ==> Noticed(s) || WillLook(s.pc) || s.pc == Sampled(s.hw)
    ensures s.pc == Asleep(false) && s.notifiers == 0 && !s.resume.ResumeFlagSet? ==> s.hw == s.slot.present
  {
    hide DiskInv;
    ReachedInv(s);
  }

  /** Every task added has been started, is in hand or is queued, in that order;
      the onqueue flags are exact; the thread is never asleep with work to do and
      no wakeup on the way. */
  lemma QueueIsFifoExactlyOnce(s: State)
    requires Reached(s)
    ensures s.q.added == s.q.started + InHand(s.pc) + s.q.tasks
    ensures forall t :: t in s.q.onqueue <==> t in s.q.tasks
    ensures NoRepeats(s.q.tasks)
    ensures s.pc == Asleep(false) ==> s.q.tasks == []
  {
    ReachedInv(s);
  }

  /** The thread at rest is woken only by a new task, the end of a resume, or a
      detach that is waiting for it. */
  lemma {:induction false} WokenForAReason(s: State, l: Label)
    requires s.pc == Asleep(false) && Next(s, l).Some? && Next(s, l).value.pc != s.pc
    ensures
      var s' := Next(s, l).value;
      && s'.pc == Asleep(true)
      && (|s'.q.tasks| > |s.q.tasks| || l == ResumeWake || (l == DetachPoll && s.detach.DetachWaiting?))
  {
    hide CardAttach, CardDetach, Serve;
  }

  /** Disk attach and detach alternate, starting with attach; between tasks a card
      is attached only if present; no disk is left when the thread ends. */
  lemma DisksAlternate(s: State)
    requires Reached(s)
    ensures Alternates(s.slot.events)
    ensures DiskThere(s.slot.events) <==> s.slot.attached && s.slot.memMode
    ensures s.slot.attached && !s.pc.Detaching? ==> s.slot.present
    ensures s.pc.Exited? ==> !s.slot.attached && !DiskThere(s.slot.events)
  {
    ReachedInv(s);
  }

  /** The DMA map is destroyed only after the thread has finished. */
  lemma DmapOutlivesThread(s: State)
    requires Reached(s) && !s.dmapLive
    ensures s.pc.Exited? && s.detach.DetachDone?
  {
    ReachedInv(s);
  }

  /** Every request that has been started has been completed once, or dropped
      once, or is running; no other request has ended. */
  lemma StartedRequestsEndOnce(s: State)
    requires Reached(s)
    ensures Unrepeated(s.req)
    ensures forall id :: Io(id) in s.q.started <==> Ended(s.req, id) || s.pc == IoTask(id)
    ensures s.pc.IoTask? ==> !Ended(s.req, s.pc.id)
  {
    ReachedInv(s);
  }

  /** A running request is completed, whatever happens meanwhile and afterwards,
      if and only if a card is attached when it starts. */
  lemma {:induction false} CompletedIffAttached(s: State, id: nat, ls: seq<Label>)
    requires Inv(s) && s.pc == IoTask(id) && Run(s, ls).Some? && Run(s, ls).value.pc != IoTask(id)
    ensures
      var r := Run(s, ls).value.req;
      && (id in r.completed <==> s.slot.attached)
      && (id in r.dropped <==> !s.slot.attached)
    decreases |ls|
  {
    hide QueueInv, ShutdownInv, PresenceInv, DiskInv, Next;
    var s1 := Next(s, ls[0]).value;
    StepKeepsInv(s, ls[0]);
    RunningStep(s, id, ls[0]);
    if s1.pc == IoTask(id) {
      CompletedIffAttached(s1, id, ls[1..]);
    } else {
      EndedStays(s1, ls[1..], id);
      RunKeepsInv(s1, ls[1..]);
    }
  }

  lemma {:induction false} RunningStep(s: State, id: nat, l: Label)
    requires s.pc == IoTask(id) && Next(s, l).Some?
    ensures
      var s' := Next(s, l).value;
      if s'.pc == IoTask(id) then s'.slot.attached == s.slot.attached
      else if s.slot.attached then id in s'.req.completed else id in s'.req.dropped
  {
    hide CardAttach, CardDetach, AddTask;
  }

  lemma {:induction false} EndedStays(s: State, ls: seq<Label>, id: nat)
    requires Run(s, ls).Some?
    ensures id in s.req.completed ==> id in Run(s, ls).value.req.completed
    ensures id in s.req.dropped ==> id in Run(s, ls).value.req.dropped
    decreases |ls|
  {
    if |ls| > 0 {
      hide Next;
      EndedStep(s, ls[0], id);
      EndedStays(Next(s, ls[0]).value, ls[1..], id);
    }
  }

  lemma {:induction false} EndedStep(s: State, l: Label, id: nat)
    requires Next(s, l).Some?
    ensures id in s.req.completed ==> id in Next(s, l).value.req.completed
    ensures id in s.req.dropped ==> id in Next(s, l).value.req.dropped
  {
    hide CardAttach, CardDetach, AddTask;
  }

  /** Once the thread has ended nothing is started any more: the requests still
      queued then, and all submitted later, never complete. */
  lemma {:induction false} NothingRunsAfterExit(s: State, ls: seq<Label>)
    requires s.pc.Exited? && Run(s, ls).Some?
    ensures
      var s' := Run(s, ls).value;
      s'.pc.Exited? && s'.q.started == s.q.started && s'.req == s.req && s.q.tasks <= s'.q.tasks
    decreases |ls|
  {
    if |ls| > 0 {
      hide Next;
      ExitedStep(s, ls[0]);
      NothingRunsAfterExit(Next(s, ls[0]).value, ls[1..]);
    }
  }

  lemma {:induction false} ExitedStep(s: State, l: Label)
    requires s.pc.Exited? && Next(s, l).Some?
    ensures
      var s' := Next(s, l).value;
      s'.pc.Exited? && s'.q.started == s.q.started && s'.req == s.req && s.q.tasks <= s'.q.tasks
  {
  }

  // ------------------------------------------------------------------------
  // When detaching ends

  /** sc_dying == 1 has been or will be overwritten: by the thread, which is about
      to reset a suspend's -1, or already by a suspend. */
  predicate Overwritten(s: State)
  {
    s.dying != 1 || s.pc.ClearPresent? || s.pc.ResetDying?
  }

  lemma {:induction false} OverwrittenStays(s: State, l: Label)
    requires s.detach.DetachWaiting? && !s.pc.Exited? && Overwritten(s) && Next(s, l).Some?
    requires ShutdownInv(s.pc, s.dying, s.detach, s.dmapLive)
    ensures
      var s' := Next(s, l).value;
      s'.detach.DetachWaiting? && !s'.pc.Exited? && Overwritten(s')
  {
    hide CardAttach, CardDetach, AddTask;
  }

  /** Then the thread never exits and the detach never returns, in any run. */
  lemma {:induction false} OverwrittenForEver(s: State, ls: seq<Label>)
    requires s.detach.DetachWaiting? && !s.pc.Exited? && Overwritten(s) && Run(s, ls).Some?
    requires ShutdownInv(s.pc, s.dying, s.detach, s.dmapLive)
    ensures Run(s, ls).value.detach.DetachWaiting? && !Run(s, ls).value.pc.Exited?
    decreases |ls|
  {
    hide Next, ShutdownInv, Overwritten;
    if |ls| > 0 {
      OverwrittenStays(s, ls[0]);
      ShutdownStep(s, ls[0]);
      OverwrittenForEver(Next(s, ls[0]).value, ls[1..]);
    }
  }

  /** How far the thread is from its end once sc_dying is 1: before the restart,
      in the loop, after it; tasks left; steps within one task. */
  function Phase(pc: Pc): nat
  {
    if pc.Restart? then 2 else if pc.LoopTest? || Leaving(pc) || pc.Exited? then 0 else 1
  }

  function Rank(pc: Pc): nat
  {
    match pc
    case Taken(_) => 9
    case Detecting => 8
    case Sampled(_) => 7
    case AttachStart => 6
    case Attaching => 5
    case Detaching => 5
    case IoTask(_) => 5
    case LoopTest => 4
    case ForTest => 4
    case Fetched(_) => 3
    case ExitTest => 3
    case ExitDetach => 2
    case Asleep(notified) => if notified then 1 else 2
    case DyingTest => 1
    case _ => 0
  }

  /** The next step of the detaching thread and the task thread. */
  function FinishStep(pc: Pc, o: Outcome): Label
  {
    if pc == Asleep(false) then DetachPoll else if pc.Exited? then DetachFinish else Worker(o)
  }

  /** One step nearer to the end. */
  predicate Progress(s: State, s': State)
  {
    || Phase(s'.pc) < Phase(s.pc)
    || (Phase(s'.pc) == Phase(s.pc)
        && if Phase(s.pc) == 1 then |s'.q.tasks| < |s.q.tasks|
                                    || (|s'.q.tasks| == |s.q.tasks| && Rank(s'.pc) < Rank(s.pc))
           else Rank(s'.pc) < Rank(s.pc))
  }

  lemma {:induction false} FinishStepProgresses(s: State, o: Outcome)
    requires QueueInv(s.q, s.pc) && s.detach.DetachWaiting? && s.dying == 1
    requires !s.pc.ClearPresent? && !s.pc.ResetDying? && !s.pc.Exited?
    ensures Next(s, FinishStep(s.pc, o)).Some?
    ensures
      var s' := Next(s, FinishStep(s.pc, o)).value;
      && s'.detach.DetachWaiting? && s'.dying == 1 && !s'.pc.ClearPresent? && !s'.pc.ResetDying?
      && Progress(s, s')
  {
    hide CardAttach, CardDetach, Serve, AddTask;
    if Phase(s.pc) == 1 {
      FinishInLoop(s, o);
    }
  }

  lemma {:induction false} FinishInLoop(s: State, o: Outcome)
    requires (s.pc.Fetched? ==> |s.q.tasks| > 0) && s.detach.DetachWaiting? && s.dying == 1 && Phase(s.pc) == 1
    ensures Next(s, FinishStep(s.pc, o)).Some?
    ensures
      var s' := Next(s, FinishStep(s.pc, o)).value;
      && s'.detach.DetachWaiting? && s'.dying == 1 && !s'.pc.ClearPresent? && !s'.pc.ResetDying?
      && Progress(s, s')
  {
    hide CardAttach, CardDetach, Serve, NeedsDiscover, WorkerStep;
    if s.pc != Asleep(false) { WorkerInLoop(s, o); }
  }

  lemma {:induction false} WorkerInLoop(s: State, o: Outcome)
    requires (s.pc.Fetched? ==> |s.q.tasks| > 0) && Phase(s.pc) == 1 && s.pc != Asleep(false)
    ensures WorkerStep(s, o).Some?
    ensures
      var s' := WorkerStep(s, o).value;
      && s'.detach == s.detach && s'.dying == s.dying && !s'.pc.ClearPresent? && !s'.pc.ResetDying?
      && Progress(s, s')
  {
    hide CardAttach, CardDetach, Serve, NeedsDiscover;
  }

  lemma FinishStepIs(pc: Pc, o: Outcome)
    ensures FinishStep(pc, o) in {DetachPoll, DetachFinish, Worker(o)}
  {
  }

  /** Only the two threads move, and step k of the task thread has outcome
      outs(n + k). */
  ghost predicate TwoThreads(ls: seq<Label>, outs: nat -> Outcome, n: nat)
  {
    forall k :: 0 <= k < |ls| ==> ls[k] == DetachPoll || ls[k] == DetachFinish || ls[k] == Worker(outs(n + k))
  }

  /** Otherwise the two threads alone complete the detach, whatever the outcomes
      of the attach attempts on the way. */
  lemma {:induction false} DetachFinishes(s: State, outs: nat -> Outcome, n: nat) returns (ls: seq<Label>)
    requires QueueInv(s.q, s.pc) && s.detach.DetachWaiting?
    requires s.pc.Exited? || (s.dying == 1 && !s.pc.ClearPresent? && !s.pc.ResetDying?)
    ensures TwoThreads(ls, outs, n)
    ensures Run(s, ls).Some? && Run(s, ls).value.detach.DetachDone?
    decreases Phase(s.pc), if Phase(s.pc) == 1 then |s.q.tasks| else 0, Rank(s.pc)
  {
    hide QueueInv;
    if s.pc.Exited? {
      ls := [DetachFinish];
      assert ls[1..] == [];
    } else {
      hide Next, Phase, Rank, FinishStep;
      FinishStepProgresses(s, outs(n));
      var l := FinishStep(s.pc, outs(n));
      QueueStep(s, l);
      var rest := DetachFinishes(Next(s, l).value, outs, n + 1);
      ls := [l] + rest;
      assert ls[1..] == rest;
      FinishStepIs(s.pc, outs(n));
      forall k | 0 <= k < |ls|
        ensures ls[k] == DetachPoll || ls[k] == DetachFinish || ls[k] == Worker(outs(n + k))
      {
        if k > 0 { assert ls[k] == rest[k - 1]; }
      }
    }
  }

  /** The run completes the detach. */
  predicate Completes(s: State, ls: seq<Label>)
  {
    Run(s, ls).Some? && Run(s, ls).value.detach.DetachDone?
  }

  /** The two threads complete the detach under these outcomes. */
  ghost predicate CompletesUnder(s: State, outs: nat -> Outcome)
  {
    exists ls :: TwoThreads(ls, outs, 0) && Completes(s, ls)
  }

  /** If nobody overwrites sc_dying, a started detach is completed by the two
      threads under all outcomes; if somebody has, it is completed by no run at
      all, whoever moves.  So it must not find the thread between its test of -1
      and its reset, and no suspend with a card present may come later. */
  lemma DetachCompletesIff(s: State)
    requires Reached(s) && s.detach.DetachWaiting?
    ensures s.pc.Exited? || !Overwritten(s) <==> forall outs: nat -> Outcome :: CompletesUnder(s, outs)
    ensures s.pc.Exited? || !Overwritten(s) <==> exists ls :: Completes(s, ls)
  {
    ReachedInv(s);
    if s.pc.Exited? || !Overwritten(s) {
      forall outs: nat -> Outcome ensures CompletesUnder(s, outs) {
        var ls := DetachFinishes(s, outs, 0);
        assert TwoThreads(ls, outs, 0) && Completes(s, ls);
      }
      var ls := DetachFinishes(s, n => IoOnly, 0);
      assert Completes(s, ls);
    } else {
      forall ls ensures !Completes(s, ls) {
        if Run(s, ls).Some? { OverwrittenForEver(s, ls); }
      }
      assert !CompletesUnder(s, n => IoOnly);
    }
  }

  lemma {:induction false} RunAppend(s: State, ls: seq<Label>, ls': seq<Label>)
    requires Run(s, ls).Some?
    ensures Run(s, ls + ls') == Run(Run(s, ls).value, ls')
    decreases |ls|
  {
    hide Next;
    if |ls| == 0 {
      assert ls + ls' == ls';
    } else {
      assert (ls + ls')[1..] == ls[1..] + ls';
      RunAppend(Next(s, ls[0]).value, ls[1..], ls');
    }
  }

  /** No suspend of the run finds a card present. */
  predicate EmptySuspends(s: State, ls: seq<Label>)
  {
    forall k :: 0 <= k < |ls| && ls[k] == Suspend && Run(s, ls[..k]).Some? ==> !Run(s, ls[..k]).value.slot.present
  }

  lemma {:induction false} EmptySuspendsTail(s: State, ls: seq<Label>)
    requires |ls| > 0 && EmptySuspends(s, ls) && Next(s, ls[0]).Some?
    ensures ls[0] == Suspend ==> !s.slot.present
    ensures EmptySuspends(Next(s, ls[0]).value, ls[1..])
  {
    hide Next;
    assert ls[..0] == [] && Run(s, []) == Some(s);
    var s1 := Next(s, ls[0]).value;
    forall k | 0 <= k < |ls| - 1 ensures Run(s, ls[..k + 1]) == Run(s1, ls[1..][..k]) && ls[1..][k] == ls[k + 1] {
      assert ls[..k + 1][0] == ls[0] && ls[..k + 1][1..] == ls[1..][..k];
    }
  }

  lemma {:induction false} EmptySuspendStep(s: State, l: Label)
    requires Next(s, l).Some? && (l == Suspend ==> !s.slot.present)
    ensures s.dying != -1 ==> Next(s, l).value.dying != -1
    ensures s.detach.DetachWaiting? && !Overwritten(s) ==>
      Next(s, l).value.pc.Exited? || (Next(s, l).value.detach.DetachWaiting? && !Overwritten(Next(s, l).value))
  {
    hide CardAttach, CardDetach, Serve, AddTask;
  }

  /** A suspend of an empty slot asks for nothing: as long as no suspend finds a
      card, sc_dying does not become -1. */
  lemma {:induction false} EmptySuspendsAreHarmless(s: State, ls: seq<Label>)
    requires Run(s, ls).Some? && s.dying != -1 && EmptySuspends(s, ls)
    ensures Run(s, ls).value.dying != -1
    decreases |ls|
  {
    hide Next, EmptySuspends;
    if |ls| > 0 {
      EmptySuspendsTail(s, ls);
      EmptySuspendStep(s, ls[0]);
      EmptySuspendsAreHarmless(Next(s, ls[0]).value, ls[1..]);
    }
  }

  /** A standing detach request stands until the thread has ended, unless a
      suspend finds a card present. */
  lemma {:induction false} RequestStands(s: State, ls: seq<Label>)
    requires Run(s, ls).Some? && EmptySuspends(s, ls)
    requires s.pc.Exited? || (s.detach.DetachWaiting? && !Overwritten(s))
    ensures
      var s' := Run(s, ls).value;
      s'.pc.Exited? || (s'.detach.DetachWaiting? && !Overwritten(s'))
    decreases |ls|
  {
    hide Next, EmptySuspends, Overwritten;
    if |ls| > 0 {
      EmptySuspendsTail(s, ls);
      if s.pc.Exited? { ExitedStep(s, ls[0]); } else { EmptySuspendStep(s, ls[0]); }
      RequestStands(Next(s, ls[0]).value, ls[1..]);
    }
  }

  /** So the detach of a driver whose card is never found by a suspend is
      completed after any run, by the two threads and under all outcomes. */
  lemma DetachSurvivesSuspends(s: State, ls: seq<Label>)
    requires Reached(s) && s.detach.DetachWaiting? && !Overwritten(s)
    requires Run(s, ls).Some? && EmptySuspends(s, ls) && Run(s, ls).value.detach.DetachWaiting?
    ensures forall outs: nat -> Outcome :: CompletesUnder(Run(s, ls).value, outs)
  {
    hide Overwritten, EmptySuspends, Next, CompletesUnder;
    RequestStands(s, ls);
    RunReached(s, ls);
    DetachCompletesIff(Run(s, ls).value);
  }

  lemma RunReached(s: State, ls: seq<Label>)
    requires Reached(s) && Run(s, ls).Some?
    ensures Reached(Run(s, ls).value)
  {
    var hw, before :| Run(Init(hw), before) == Some(s);
    RunAppend(Init(hw), before, ls);
  }

  // ------------------------------------------------------------------------
  // When a suspend is served

  // A card may be swapped while the machine sleeps, which no presence bit tells.
  // The suspend therefore sets sc_dying to -1: the thread is to leave its loop,
  // detach the card and discover afresh.  Only the outer loop tests sc_dying.

  /** The thread has no task to do before it next tests sc_dying or sleeps.  (With
      the lock held at the end of the queue nothing can be queued any more; but a
      wakeup takes no lock, and one that comes now is lost.) */
  predicate OutsideTasks(s: State)
  {
    Outer(s.pc) || (s.pc.ForTest? && s.q.tasks == [] && s.resume != ResumeNotified)
  }

  predicate Outer(pc: Pc)
  {
    pc.Restart? || pc.LoopTest? || pc.Asleep? || Leaving(pc) || pc.Exited?
  }

  /** The thread sleeps, and the card is the one from before the suspend. */
  predicate Unserved(s: State) { s.dying == -1 && s.pc == Asleep(false) }

  /** As long as a suspend is not served the thread does no task; once it has been
      woken it stays awake. */
  predicate Serving(s: State, woken: bool)
  {
    s.dying == -1 ==> OutsideTasks(s) && (woken ==> Outer(s.pc) && s.pc != Asleep(false))
  }

  lemma {:induction false} ServingStep(s: State, l: Label, woken: bool)
    requires Serving(s, woken) && Next(s, l).Some? && l != Suspend
    ensures Serving(Next(s, l).value, woken || l == ResumeWake)
    ensures Next(s, l).value.dying == -1 ==> s.dying == -1 && Next(s, l).value.q.started == s.q.started
  {
    hide CardAttach, CardDetach, Serve;
  }

  lemma {:induction false} ServingRun(s: State, ls: seq<Label>, woken: bool)
    requires Serving(s, woken) && Run(s, ls).Some? && Suspend !in ls
    ensures Serving(Run(s, ls).value, woken || ResumeWake in ls)
    ensures Run(s, ls).value.dying == -1 ==> s.dying == -1 && Run(s, ls).value.q.started == s.q.started
    decreases |ls|
  {
    hide Next, Serving;
    if |ls| > 0 {
      ServingStep(s, ls[0], woken);
      ServingRun(Next(s, ls[0]).value, ls[1..], woken || ls[0] == ResumeWake);
      assert ResumeWake in ls <==> ls[0] == ResumeWake || ResumeWake in ls[1..];
    }
  }

  /** A run of the machine's sleep and resume, and of everything else but another
      suspend. */
  predicate Resumes(ls: seq<Label>) { Suspend !in ls && ResumeWake in ls }

  /** The run ends with the thread asleep and the suspend forgotten. */
  predicate Forgets(s: State, ls: seq<Label>)
  {
    Run(s, ls).Some? && Unserved(Run(s, ls).value)
  }

  /** The thread at work can finish its tasks and fall asleep before anybody else
      moves. */
  lemma {:induction false} WorksOff(s: State) returns (ls: seq<Label>)
    requires QueueInv(s.q, s.pc) && Phase(s.pc) == 1 && !s.pc.Asleep?
    ensures Suspend !in ls && Run(s, ls).Some?
    ensures Run(s, ls).value.pc == Asleep(false) && Run(s, ls).value.dying == s.dying
    decreases |s.q.tasks|, Rank(s.pc)
  {
    hide QueueInv, Next, WorkerStep, Rank;
    var w := Worker(IoOnly);
    WorkingStep(s, IoOnly);
    QueueStep(s, w);
    var s1 := Next(s, w).value;
    if s1.pc == Asleep(false) {
      ls := [w];
      assert ls[1..] == [];
    } else {
      var rest := WorksOff(s1);
      ls := [w] + rest;
      assert ls[1..] == rest;
    }
  }

  lemma {:induction false} WorkingStep(s: State, o: Outcome)
    requires QueueInv(s.q, s.pc) && Phase(s.pc) == 1 && !s.pc.Asleep?
    ensures Next(s, Worker(o)).Some?
    ensures
      var s' := Next(s, Worker(o)).value;
      && s'.dying == s.dying && Phase(s'.pc) == 1 && (s'.pc.Asleep? ==> s'.pc == Asleep(false))
      && (|s'.q.tasks| < |s.q.tasks| || (|s'.q.tasks| == |s.q.tasks| && Rank(s'.pc) < Rank(s.pc)))
  {
    hide CardAttach, CardDetach, Serve;
    assert s.pc.Fetched? ==> |s.q.tasks| > 0;
    hide QueueInv;
  }

  /** What is left of a resume, while the thread is at work without the lock. */
  function RestOfResume(r: ResumePc): seq<Label>
  {
    match r
    case ResumeIdle => [ResumeRead(true), ResumeQueue, ResumeWake]
    case ResumeFlagSet => [ResumeQueue, ResumeWake]
    case ResumeNotified => [ResumeWake]
  }

  lemma {:induction false} ResumeMeanwhile(s: State)
    requires QueueInv(s.q, s.pc) && !Outer(s.pc) && !s.pc.ForTest?
    ensures Run(s, RestOfResume(s.resume)).Some?
    ensures
      var s' := Run(s, RestOfResume(s.resume)).value;
      s'.pc == s.pc && s'.dying == s.dying && QueueInv(s'.q, s'.pc)
    ensures Resumes(RestOfResume(s.resume))
    decreases |RestOfResume(s.resume)|
  {
    hide QueueInv;
    var ls := RestOfResume(s.resume);
    if s.resume.ResumeIdle? {
      var s1 := s.(hw := true, resume := ResumeFlagSet);
      assert ls[0] == ResumeRead(true) && Next(s, ls[0]) == Some(s1);
      assert ls[1..] == RestOfResume(ResumeFlagSet);
      ResumeMeanwhile(s1);
    } else if s.resume.ResumeFlagSet? {
      DiscoverKeepsQueue(s);
      var s1 := NeedsDiscover(s).(resume := ResumeNotified);
      assert ls[0] == ResumeQueue && Next(s, ls[0]) == Some(s1) && s1.pc == s.pc;
      assert ls[1..] == RestOfResume(ResumeNotified);
      ResumeMeanwhile(s1);
    } else {
      assert ls[0] == ResumeWake && ls[1..] == [];
    }
  }

  /** A thread at work forgets the suspend, if the resume is over before the
      thread is through with its tasks. */
  lemma {:induction false} AtWorkForgets(s: State) returns (ls: seq<Label>)
    requires QueueInv(s.q, s.pc) && !OutsideTasks(s) && s.dying == -1
    ensures Resumes(ls) && Forgets(s, ls)
    decreases s.pc.ForTest?
  {
    if s.pc.ForTest? && s.q.tasks == [] {
      ls := [ResumeWake, Worker(IoOnly)];
      assert ls[1..] == [Worker(IoOnly)] && ls[1..][1..] == [];
    } else if s.pc.ForTest? {
      var w := Worker(IoOnly);
      QueueStep(s, w);
      var s1 := Next(s, w).value;
      var rest := AtWorkForgets(s1);
      ls := [w] + rest;
      assert ls[1..] == rest && ls[0] == w;
    } else {
      ResumeMeanwhile(s);
      var first := RestOfResume(s.resume);
      var rest := WorksOff(Run(s, first).value);
      RunAppend(s, first, rest);
      ls := first + rest;
    }
  }

  /** A suspend is served whatever happens, if and only if it finds the thread
      outside its tasks: then no run through a whole resume ends with the thread
      asleep and the suspend forgotten.  Otherwise there is such a run. */
  lemma SuspendIsServedIff(s: State)
    requires Reached(s) && s.slot.present
    ensures Next(s, Suspend) == Some(s.(dying := -1))
    ensures OutsideTasks(s) <==> forall ls :: Resumes(ls) ==> !Forgets(s.(dying := -1), ls)
  {
    hide Reached;
    ReachedInv(s);
    var s1 := s.(dying := -1);
    if OutsideTasks(s) {
      forall ls | Resumes(ls) ensures !Forgets(s1, ls) {
        if Run(s1, ls).Some? { ServingRun(s1, ls, false); }
      }
    } else {
      var ls := AtWorkForgets(s1);
      assert Resumes(ls) && Forgets(s1, ls);
    }
  }

  /** The card is gone from the bus driver, and a discovery comes next. */
  predicate StartsAfresh(s: State)
  {
    s.dying == 0 && s.pc.Restart? && !s.slot.present && !s.slot.attached
  }

  /** Steps of the thread from there to here. */
  function OuterRank(pc: Pc): nat
  {
    match pc
    case Restart => 7
    case Asleep(_) => 7
    case LoopTest => 6
    case ExitTest => 5
    case ExitDetach => 4
    case DyingTest => 3
    case ClearPresent => 2
    case ResetDying => 1
    case _ => 0
  }

  lemma {:induction false} OuterStep(s: State, o: Outcome)
    requires Outer(s.pc) && s.pc != Asleep(false) && !s.pc.Exited? && s.dying == -1
    ensures Next(s, Worker(o)).Some?
    ensures
      var s' := Next(s, Worker(o)).value;
      if s.pc.ResetDying? then s'.dying == 0 && s'.pc.Restart? && s'.slot == s.slot
      else Outer(s'.pc) && s'.pc != Asleep(false) && !s'.pc.Exited? && s'.dying == -1
           && OuterRank(s'.pc) < OuterRank(s.pc)
  {
    hide CardAttach, CardDetach, Serve, AddTask;
  }

  lemma {:induction false} StartsAfreshSoon(s: State, o: Outcome) returns (ls: seq<Label>)
    requires Outer(s.pc) && s.pc != Asleep(false) && !s.pc.Exited? && s.dying == -1
    requires DiskInv(s.slot, s.pc)
    ensures forall l :: l in ls ==> l == Worker(o)
    ensures Run(s, ls).Some? && StartsAfresh(Run(s, ls).value)
    decreases OuterRank(s.pc)
  {
    hide Next, Alternates, Outer, OuterRank;
    var w := Worker(o);
    OuterStep(s, o);
    DiskStep(s, w);
    var s1 := Next(s, w).value;
    if s.pc.ResetDying? {
      ls := [w];
      assert ls[1..] == [];
    } else {
      var rest := StartsAfreshSoon(s1, o);
      ls := [w] + rest;
      assert ls[1..] == rest;
    }
  }

  predicate StartsAfreshAt(s: State, ls: seq<Label>, n: nat)
  {
    n <= |ls| && Run(s, ls[..n]).Some? && StartsAfresh(Run(s, ls[..n]).value)
  }

  /** sc_dying is reset only where the thread starts afresh. */
  lemma {:induction false} ResetStep(s: State, l: Label)
    requires DiskInv(s.slot, s.pc) && s.dying != 0 && Next(s, l).Some? && Next(s, l).value.dying == 0
    ensures StartsAfresh(Next(s, l).value)
  {
    hide CardAttach, CardDetach, Serve, AddTask;
  }

  lemma {:induction false} ResetRun(s: State, ls: seq<Label>) returns (n: nat)
    requires DiskInv(s.slot, s.pc) && s.dying != 0 && Run(s, ls).Some? && Run(s, ls).value.dying == 0
    ensures StartsAfreshAt(s, ls, n)
    decreases |ls|
  {
    hide Next, DiskInv, StartsAfresh;
    var s1 := Next(s, ls[0]).value;
    if s1.dying == 0 {
      ResetStep(s, ls[0]);
      n := 1;
      assert ls[..1][1..] == [] && Run(s1, []) == Some(s1);
      assert Run(s, ls[..1]) == Some(s1);
    } else {
      DiskStep(s, ls[0]);
      var k := ResetRun(s1, ls[1..]);
      n := k + 1;
      assert ls[..n][0] == ls[0] && ls[..n][1..] == ls[1..][..k];
      assert Run(s, ls[..n]) == Run(s1, ls[1..][..k]);
    }
  }

  /** What serving a suspend means: the thread does no task with the old card, and
      once woken it detaches the card and starts afresh by its own steps, unless a
      detach of the driver ends it. */
  lemma ServedMeans(s: State, ls: seq<Label>, o: Outcome) returns (rest: seq<Label>)
    requires Reached(s) && s.slot.present && OutsideTasks(s)
    requires Resumes(ls) && Run(s.(dying := -1), ls).Some?
    ensures
      var s' := Run(s.(dying := -1), ls).value;
      s'.dying == -1 ==>
        && s'.q.started == s.q.started
        && (s'.pc.Exited? || (Run(s', rest).Some? && StartsAfresh(Run(s', rest).value)))
    ensures Run(s.(dying := -1), ls).value.dying == 0 ==> exists n: nat :: StartsAfreshAt(s.(dying := -1), ls, n)
    ensures forall l :: l in rest ==> l == Worker(o)
  {
    hide Reached;
    var s1 := s.(dying := -1);
    var s' := Run(s1, ls).value;
    rest := [];
    ServingRun(s1, ls, false);
    ReachedInv(s);
    StepKeepsInv(s, Suspend);
    if s'.dying == -1 && !s'.pc.Exited? {
      RunKeepsInv(s1, ls);
      rest := StartsAfreshSoon(s', o);
    }
    if s'.dying == 0 {
      var n := ResetRun(s1, ls);
    }
  }

  // ------------------------------------------------------------------------
  // Runs that happen

  lemma ReachedNext(s: State, l: Label)
    requires Reached(s) && Next(s, l).Some?
    ensures Reached(Next(s, l).value)
  {
    hide Next;
    var hw, ls :| Run(Init(hw), ls) == Some(s);
    RunSnoc(Init(hw), ls, l);
  }

  lemma {:induction false} RunSnoc(s: State, ls: seq<Label>, l: Label)
    requires Run(s, ls).Some? && Next(Run(s, ls).value, l).Some?
    ensures Run(s, ls + [l]) == Next(Run(s, ls).value, l)
    decreases |ls|
  {
    hide Next;
    if |ls| == 0 {
      assert [l][1..] == [];
    } else {
      assert (ls + [l])[1..] == ls[1..] + [l];
      RunSnoc(Next(s, ls[0]).value, ls[1..], l);
    }
  }

  /** It does happen: a card is found, the driver is detached, and a suspend comes
      before the thread has noticed. */
  lemma DetachCanBeOverwritten()
    ensures exists s :: Reached(s) && s.detach.DetachWaiting? && !s.pc.Exited? && Overwritten(s)
  {
    hide Reached;
    CardAttached();
    ReachedNext(WithCard(), DetachBegin);
    var s := Next(WithCard(), DetachBegin).value;
    ReachedNext(s, Suspend);
    assert Overwritten(Next(s, Suspend).value);
  }

  /** A card has been found and attached, and the thread sleeps. */
  function WithCard(): State
  {
    State(true, Slot(true, true, true, [DiskAttach]), Queue([], {}, [Discover], [Discover], 0), Requests([], []),
          0, Asleep(false), 0, ResumeIdle, DetachIdle, true)
  }

  lemma CardAttached()
    ensures Reached(WithCard())
  {
    hide Reached;
    InitReached(true);
    var s1 := WorkerReached(Init(true));
    var s2 := WorkerReached(s1);
    var s3 := WorkerReached(s2);
    var s4 := WorkerReached(s3);
    var s5 := WorkerReached(s4);
    var s6 := WorkerReached(s5);
    var s7 := WorkerReached(s6);
    var s8 := WorkerReached(s7);
    var s9 := WorkerReached(s8);
    var s10 := WorkerReached(s9);
    assert s10 == WithCard();
  }

  lemma WorkerReached(s: State) returns (s': State)
    requires Reached(s) && WorkerStep(s, Memory).Some?
    ensures Reached(s') && s' == WorkerStep(s, Memory).value
  {
    hide Reached;
    ReachedNext(s, Worker(Memory));
    s' := WorkerStep(s, Memory).value;
  }

  /** The card has been removed and a request submitted, and the thread has just
      detached the card. */
  function CardGone(): State
  {
    State(false, Slot(false, false, true, [DiskAttach, DiskDetach]),
          Queue([Io(0)], {Io(0)}, [Discover, Discover, Io(0)], [Discover, Discover], 1), Requests([], []),
          0, ForTest, 0, ResumeIdle, DetachIdle, true)
  }

  lemma CardRemoved()
    ensures Reached(CardGone())
  {
    hide Reached;
    CardAttached();
    ReachedNext(WithCard(), Eject);
    var s1 := Next(WithCard(), Eject).value;
    ReachedNext(s1, Notify);
    var s2 := Next(s1, Notify).value;
    ReachedNext(s2, Submit);
    var s3 := Next(s2, Submit).value;
    var s4 := WorkerReached(s3);
    var s5 := WorkerReached(s4);
    var s6 := WorkerReached(s5);
    var s7 := WorkerReached(s6);
    var s8 := WorkerReached(s7);
    var s9 := WorkerReached(s8);
    var s10 := WorkerReached(s9);
    var s11 := WorkerReached(s10);
    assert s11 == CardGone();
  }

  /** A request queued behind the discover task that finds the card gone is
      dropped. */
  lemma RequestCanBeDropped()
    ensures exists s :: Reached(s) && s.req.dropped == [0] && s.req.completed == []
                        && s.slot.events == [DiskAttach, DiskDetach] && s.detach.DetachIdle?
  {
    hide Reached;
    CardRemoved();
    var s1 := WorkerReached(CardGone());
    var s2 := WorkerReached(s1);
    var s3 := WorkerReached(s2);
    var s4 := WorkerReached(s3);
    assert s4.req == Requests([], [0]);
  }

  /** A request that wakes the thread of a driver just being detached is still
      queued when the thread ends. */
  lemma RequestCanBeLeftQueued()
    ensures exists s :: Reached(s) && s.pc.Exited? && s.q.tasks == [Io(0)]
  {
    hide Reached;
    CardAttached();
    ReachedNext(WithCard(), Submit);
    var s1 := Next(WithCard(), Submit).value;
    ReachedNext(s1, DetachBegin);
    var s2 := Next(s1, DetachBegin).value;
    var s3 := WorkerReached(s2);
    var s4 := WorkerReached(s3);
    var s5 := WorkerReached(s4);
    var s6 := WorkerReached(s5);
    var s7 := WorkerReached(s6);
    assert s7.q.tasks == [Io(0)];
  }

  /** The thread is busy with a request. */
  function BusyWithRequest(): State
  {
    State(true, Slot(true, true, true, [DiskAttach]), Queue([], {}, [Discover, Io(0)], [Discover, Io(0)], 1),
          Requests([], []), 0, IoTask(0), 0, ResumeIdle, DetachIdle, true)
  }

  lemma RequestStarted()
    ensures Reached(BusyWithRequest())
  {
    hide Reached;
    CardAttached();
    ReachedNext(WithCard(), Submit);
    var s1 := Next(WithCard(), Submit).value;
    var s2 := WorkerReached(s1);
    var s3 := WorkerReached(s2);
    var s4 := WorkerReached(s3);
    var s5 := WorkerReached(s4);
    var s6 := WorkerReached(s5);
    assert s6 == BusyWithRequest();
  }

  /** The machine has slept and resumed meanwhile. */
  function SleptMeanwhile(): State
  {
    BusyWithRequest().(
      q := Queue([Discover], {Discover}, [Discover, Io(0), Discover], [Discover, Io(0)], 1), dying := -1)
  }

  lemma SleptWhileBusy()
    ensures Reached(SleptMeanwhile())
  {
    hide Reached;
    RequestStarted();
    ReachedNext(BusyWithRequest(), Suspend);
    var s1 := Next(BusyWithRequest(), Suspend).value;
    ReachedNext(s1, ResumeRead(true));
    var s2 := Next(s1, ResumeRead(true)).value;
    ReachedNext(s2, ResumeQueue);
    var s3 := Next(s2, ResumeQueue).value;
    ReachedNext(s3, ResumeWake);
    assert Next(s3, ResumeWake).value == SleptMeanwhile();
  }

  /** The machine sleeps and resumes while the thread is busy with a request: the
      thread goes to sleep with the suspend forgotten, nobody is on the way to wake
      it, and the card from before the suspend is still attached, swapped or not. */
  lemma SwappedCardCanBeMissed()
    ensures exists s :: Reached(s) && s.detach.DetachIdle? && Unserved(s) && s.notifiers == 0 && s.resume.ResumeIdle?
                        && s.q.tasks == [] && s.slot.attached && s.slot.events == [DiskAttach]
  {
    hide Reached;
    SleptWhileBusy();
    var s1 := WorkerReached(SleptMeanwhile());
    var s2 := WorkerReached(s1);
    var s3 := WorkerReached(s2);
    var s4 := WorkerReached(s3);
    var s5 := WorkerReached(s4);
    var s6 := WorkerReached(s5);
    var s7 := WorkerReached(s6);
    assert s7.pc == Asleep(false) && s7.dying == -1;
  }

  lemma InitReached(hw: bool)
    ensures Reached(Init(hw))
  {
    assert Run(Init(hw), []) == Some(Init(hw));
  }
}
