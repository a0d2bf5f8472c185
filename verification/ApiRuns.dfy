/** Runs of the API server: any number of tasks broadcast or reply at the same time,
    interleaved at every lock operation, every encode and every single send call. */
module ApiRuns {
  import opened Prelude
  import opened FrameCodec
  import opened ApiServer

  datatype Job = Broadcast(msg: Message) | Reply(to: Fd, msg: Message)

  /** Where a task is: waiting for the transmit mutex, holding it, having encoded
      into the shared buffer, sending, or done. `sent` counts bytes of the frame
      already taken by the socket of `targets[0]`. */
  datatype Phase = Waiting | Locked | Encoded | Sending(targets: seq<Fd>, sent: nat) | Finished

  datatype Task = Task(job: Job, phase: Phase)

  /** One critical section that sends: history, in the order the mutex was held. */
  datatype Round = Round(sender: TaskId, msg: Message, targets: seq<Fd>, broadcast: bool)

  datatype Server = Server(
    slots: seq<int>,
    owner: Option<TaskId>,
    tasks: map<TaskId, Task>,
    buf: seq<byte>,
    wire: map<Fd, seq<byte>>,
    broken: set<Fd>,
    log: seq<Round>)

  const INIT := Server([-1, -1, -1, -1], None, map[], [], map[], {}, [])

  datatype Step =
    | Begin(t: TaskId, job: Job)
    | Take(t: TaskId)
    | Encode(t: TaskId)
    | Snapshot(t: TaskId)
    | Transmit(t: TaskId, k: nat)
    | Fail(t: TaskId)
    | Give(t: TaskId)
    | Accept(fd: Fd)
    | Leave(fd: Fd)

  predicate InPhase(s: Server, t: TaskId, p: Phase) {
    t in s.tasks && s.tasks[t].phase == p
  }

  predicate IsSending(s: Server, t: TaskId) {
    t in s.tasks && s.tasks[t].phase.Sending?
  }

  /** The frame under way, taken from the shared buffer. */
  function Frame(s: Server, t: TaskId): (f: seq<byte>)
    requires t in s.tasks
    ensures |f| > 0
  {
    FrameBytes(s.tasks[t].job.msg.msgType, s.buf)
  }

  /** Steps that can happen. Encoders write at most the payload area; descriptors are
      handles that are never issued twice; the mutex is free or held. */
  predicate Enabled(s: Server, step: Step) {
    match step
    case Begin(t, job) =>
      && t !in s.tasks && Carriable(job.msg, MAX_MESSAGE_SIZE)
      && (job.Reply? ==> job.to in s.wire)
    case Take(t) => InPhase(s, t, Waiting) && s.owner == None
    case Encode(t) => InPhase(s, t, Locked)
    case Snapshot(t) => InPhase(s, t, Encoded)
    case Transmit(t, k) =>
      && IsSending(s, t) && s.tasks[t].phase.targets != []
      && s.tasks[t].phase.sent + k <= |Frame(s, t)| && k > 0
    case Fail(t) => IsSending(s, t) && s.tasks[t].phase.targets != []
    case Give(t) => IsSending(s, t) && s.tasks[t].phase.targets == []
    case Accept(fd) => fd !in s.wire
    case Leave(fd) => fd in s.slots
  }

  /** Whom a round goes to. An encoder that produced nothing drops the message. */
  function TargetsOf(s: Server, job: Job): seq<Fd> {
    match job
    case Broadcast(msg) => if msg.payload == [] then [] else Clients(s.slots)
    case Reply(to, _) => [to]
  }

  function SetPhase(s: Server, t: TaskId, p: Phase): map<TaskId, Task>
    requires t in s.tasks
  {
    s.tasks[t := s.tasks[t].(phase := p)]
  }

  function Apply(s: Server, step: Step): Server
    requires Enabled(s, step)
  {
    match step
    case Begin(t, job) => s.(tasks := s.tasks[t := Task(job, Waiting)])
    case Take(t) => s.(owner := Some(t), tasks := SetPhase(s, t, Locked))
    case Encode(t) => s.(buf := s.tasks[t].job.msg.payload, tasks := SetPhase(s, t, Encoded))
    case Snapshot(t) =>
      var job := s.tasks[t].job;
      var targets := TargetsOf(s, job);
      s.(tasks := SetPhase(s, t, Sending(targets, 0)),
         log := s.log + [Round(t, job.msg, targets, job.Broadcast?)])
    case Transmit(t, k) =>
      var p := s.tasks[t].phase;
      var fd := p.targets[0];
      var bytes := if fd in s.wire then s.wire[fd] else [];
      s.(wire := s.wire[fd := bytes + Frame(s, t)[p.sent..p.sent + k]],
         tasks := SetPhase(s, t, if p.sent + k == |Frame(s, t)| then Sending(p.targets[1..], 0)
                                 else Sending(p.targets, p.sent + k)))
    case Fail(t) =>
      var p := s.tasks[t].phase;
      s.(broken := s.broken + {p.targets[0]}, tasks := SetPhase(s, t, Sending(p.targets[1..], 0)))
    case Give(t) => s.(owner := None, tasks := SetPhase(s, t, Finished))
    case Accept(fd) =>
      if HasFreeSlot(s.slots) then s.(slots := RegisterIn(s.slots, fd), wire := s.wire[fd := []]) else s
    case Leave(fd) => s.(slots := UnregisterIn(s.slots, fd))
  }

  ghost predicate IsRun(states: seq<Server>, steps: seq<Step>) {
    && |states| == |steps| + 1
    && forall i :: 0 <= i < |steps| ==> Enabled(states[i], steps[i]) && states[i + 1] == Apply(states[i], steps[i])
  }

  lemma RunStep(states: seq<Server>, steps: seq<Step>, i: nat)
    requires IsRun(states, steps) && i + 1 < |states|
    ensures i < |steps| && Enabled(states[i], steps[i]) && states[i + 1] == Apply(states[i], steps[i])
  {
  }

  /** The messages of the rounds that went to `fd`, in order. */
  function MessagesFor(log: seq<Round>, fd: Fd): seq<Message> {
    if log == [] then []
    else
      var before := MessagesFor(log[..|log| - 1], fd);
      var last := log[|log| - 1];
      if fd in last.targets then before + [last.msg] else before
  }

  /** A round is still on its way to `fd`. */
  predicate Pending(s: Server, fd: Fd) {
    && s.owner.Some?
    && IsSending(s, s.owner.value)
    && fd in s.tasks[s.owner.value].phase.targets
  }

  /** The rounds whose frames `fd` has been given completely. */
  function Completed(s: Server, fd: Fd): seq<Round> {
    if Pending(s, fd) && s.log != [] then s.log[..|s.log| - 1] else s.log
  }

  /** The part of the current frame that `fd` already has. */
  function InFlight(s: Server, fd: Fd): seq<byte> {
    if Pending(s, fd) && s.tasks[s.owner.value].phase.targets[0] == fd
       && s.tasks[s.owner.value].phase.sent <= |Frame(s, s.owner.value)|
    then Frame(s, s.owner.value)[..s.tasks[s.owner.value].phase.sent]
    else []
  }

  // -------------------------------------------------------------- invariant

  ghost predicate TasksOk(s: Server) {
    && (forall t :: t in s.tasks ==>
          && Carriable(s.tasks[t].job.msg, MAX_MESSAGE_SIZE)
          && (s.tasks[t].job.Reply? ==> s.tasks[t].job.to in s.wire)
          && (s.tasks[t].phase == Waiting || s.tasks[t].phase == Finished <==> s.owner != Some(t)))
    && (s.owner.Some? ==> s.owner.value in s.tasks)
  }

  /** What the holder of the mutex has done so far. */
  ghost predicate OwnerOk(s: Server) {
    s.owner.Some? && s.owner.value in s.tasks ==>
      var task := s.tasks[s.owner.value];
      && (task.phase.Encoded? || task.phase.Sending? ==> s.buf == task.job.msg.payload)
      && (task.phase.Sending? ==>
            && Distinct(task.phase.targets)
            && (forall fd :: fd in task.phase.targets ==> fd in s.wire)
            && task.phase.sent < |Frame(s, s.owner.value)|
            && (task.phase.targets == [] ==> task.phase.sent == 0)
            && s.log != [] && s.log[|s.log| - 1].msg == task.job.msg
            && s.log[|s.log| - 1].sender == s.owner.value
            && (forall fd :: fd in task.phase.targets ==> fd in s.log[|s.log| - 1].targets))
  }

  ghost predicate SlotsOk(s: Server) {
    && TableOk(s.slots)
    && forall fd: Fd :: fd in s.slots ==> fd in s.wire
  }

  ghost predicate LogOk(s: Server) {
    forall i, fd :: 0 <= i < |s.log| && fd in s.log[i].targets ==> fd in s.wire
  }

  ghost predicate LogCarriable(s: Server) {
    forall i :: 0 <= i < |s.log| ==> Carriable(s.log[i].msg, MAX_MESSAGE_SIZE)
  }

  /** The socket of `fd` has taken exactly the frames of its completed rounds and
      a beginning of the one under way. */
  ghost predicate WireOk(s: Server, fd: Fd) {
    fd in s.wire && fd !in s.broken ==>
      s.wire[fd] == Frames(MessagesFor(Completed(s, fd), fd)) + InFlight(s, fd)
  }

  /** A round is its sender's own message, to the client a reply is for. */
  ghost predicate RoundIs(r: Round, task: Task) {
    && r.msg == task.job.msg && r.broadcast == task.job.Broadcast?
    && (task.job.Reply? ==> r.targets == [task.job.to])
    && HasSent(task.phase)
  }

  ghost predicate SentBy(log: seq<Round>, t: TaskId) {
    exists i :: 0 <= i < |log| && log[i].sender == t
  }

  /** Every task that got as far as sending has exactly one round. */
  ghost predicate RoundsOk(log: seq<Round>, tasks: map<TaskId, Task>) {
    && (forall i, j :: 0 <= i < j < |log| ==> log[i].sender != log[j].sender)
    && (forall i :: 0 <= i < |log| ==> log[i].sender in tasks && RoundIs(log[i], tasks[log[i].sender]))
    && (forall t :: t in tasks && HasSent(tasks[t].phase) ==> SentBy(log, t))
  }

  predicate HasSent(p: Phase) {
    p.Sending? || p.Finished?
  }

  ghost predicate Inv(s: Server) {
    && TasksOk(s) && OwnerOk(s) && SlotsOk(s) && LogOk(s) && LogCarriable(s) && RoundsOk(s.log, s.tasks)
    && forall fd :: fd in s.wire ==> WireOk(s, fd)
  }

  lemma InitInv()
    ensures Inv(INIT)
  {
  }

  lemma StepTasks(s: Server, step: Step)
    requires Inv(s) && Enabled(s, step)
    ensures TasksOk(Apply(s, step))
  {
    hide FrameBytes, Frame, RegisterIn, UnregisterIn, Clients, HasFreeSlot, Carriable, WireOk, OwnerOk, LogOk, LogCarriable, SlotsOk, RoundsOk;
  }

  lemma StepSlots(s: Server, step: Step)
    requires Inv(s) && Enabled(s, step)
    ensures SlotsOk(Apply(s, step))
  {
    hide FrameBytes;
    match step {
      case Accept(fd) => RegisterEffect(s.slots, fd);
      case Leave(fd) => UnregisterEffect(s.slots, fd);
      case _ =>
    }
  }

  lemma TargetsKnown(s: Server, job: Job)
    requires SlotsOk(s) && (job.Reply? ==> job.to in s.wire)
    ensures Distinct(TargetsOf(s, job))
    ensures forall fd :: fd in TargetsOf(s, job) ==> fd in s.wire
  {
    ClientsMembers(s.slots);
    ClientsDistinct(s.slots);
  }

  lemma StepOwner(s: Server, step: Step)
    requires Inv(s) && Enabled(s, step)
    ensures OwnerOk(Apply(s, step))
  {
    hide FrameBytes, RegisterIn, UnregisterIn, Clients, HasFreeSlot, Carriable, WireOk, LogOk, LogCarriable, RoundsOk, TableOk;
    match step {
      case Begin(t, job) =>
      case Take(t) =>
      case Encode(t) =>
      case Snapshot(t) =>
        TargetsKnown(s, s.tasks[t].job);
      case Transmit(t, k) =>
        var targets := s.tasks[t].phase.targets;
        assert forall fd :: fd in targets[1..] ==> fd in targets;
        assert Distinct(targets[1..]);
      case Fail(t) =>
        var targets := s.tasks[t].phase.targets;
        assert forall fd :: fd in targets[1..] ==> fd in targets;
        assert Distinct(targets[1..]);
      case Give(t) =>
      case Accept(fd) =>
      case Leave(fd) =>
    }
  }

  lemma StepLog(s: Server, step: Step)
    requires Inv(s) && Enabled(s, step)
    ensures LogOk(Apply(s, step)) && LogCarriable(Apply(s, step))
  {
    if step.Snapshot? {
      TargetsKnown(s, s.tasks[step.t].job);
    }
    hide TargetsOf, FrameBytes, RegisterIn, UnregisterIn, Clients, WireOk;
  }

  /** A step that adds no round leaves every sender's job and sent-ness alone. */
  lemma SendersKept(s: Server, step: Step, t: TaskId)
    requires TasksOk(s) && Enabled(s, step) && t in s.tasks
    ensures t in Apply(s, step).tasks && Apply(s, step).tasks[t].job == s.tasks[t].job
    ensures HasSent(Apply(s, step).tasks[t].phase) <==>
            HasSent(s.tasks[t].phase) || step == Snapshot(t)
  {
    hide FrameBytes, Frame, RegisterIn, UnregisterIn, Clients, Carriable, HasFreeSlot;
  }

  /** Nobody's job or sent-ness changes except those in `late`, which are new senders. */
  ghost predicate Kept(tasks: map<TaskId, Task>, tasks': map<TaskId, Task>, late: set<TaskId>) {
    && (forall t :: t in tasks ==> t in tasks' && tasks'[t].job == tasks[t].job)
    && (forall t :: t in tasks' && HasSent(tasks'[t].phase) ==>
          (t in tasks && HasSent(tasks[t].phase)) || t in late)
    && (forall t :: t in tasks && HasSent(tasks[t].phase) ==> HasSent(tasks'[t].phase))
  }

  lemma RoundsKept(log: seq<Round>, tasks: map<TaskId, Task>, tasks': map<TaskId, Task>)
    requires RoundsOk(log, tasks) && Kept(tasks, tasks', {})
    ensures RoundsOk(log, tasks')
  {
  }

  lemma RoundsAdded(log: seq<Round>, tasks: map<TaskId, Task>, r: Round, tasks': map<TaskId, Task>)
    requires RoundsOk(log, tasks) && Kept(tasks, tasks', {r.sender})
    requires r.sender in tasks && !HasSent(tasks[r.sender].phase) && RoundIs(r, tasks'[r.sender])
    ensures RoundsOk(log + [r], tasks')
  {
    var log' := log + [r];
    forall t | t in tasks' && HasSent(tasks'[t].phase)
      ensures SentBy(log', t)
    {
      if t == r.sender {
        assert log'[|log|].sender == t;
      } else {
        var i :| 0 <= i < |log| && log[i].sender == t;
        assert log'[i].sender == t;
      }
    }
  }

  lemma StepRounds(s: Server, step: Step)
    requires Inv(s) && Enabled(s, step)
    ensures RoundsOk(Apply(s, step).log, Apply(s, step).tasks)
  {
    hide FrameBytes, Frame, RegisterIn, UnregisterIn, Clients, WireOk, OwnerOk, LogOk, LogCarriable, SlotsOk, RoundsOk;
    var s' := Apply(s, step);
    forall t | t in s.tasks
      ensures t in s'.tasks && s'.tasks[t].job == s.tasks[t].job
      ensures HasSent(s'.tasks[t].phase) <==> HasSent(s.tasks[t].phase) || step == Snapshot(t)
    {
      SendersKept(s, step, t);
    }
    if step.Snapshot? {
      RoundsAdded(s.log, s.tasks, s'.log[|s.log|], s'.tasks);
    } else {
      RoundsKept(s.log, s.tasks, s'.tasks);
    }
  }

  lemma {:induction false} NeverTargeted(log: seq<Round>, fd: Fd)
    requires forall i :: 0 <= i < |log| ==> fd !in log[i].targets
    ensures MessagesFor(log, fd) == []
  {
    if log != [] {
      NeverTargeted(log[..|log| - 1], fd);
    }
  }

  lemma MessagesForSnoc(log: seq<Round>, r: Round, fd: Fd)
    ensures MessagesFor(log + [r], fd) ==
            if fd in r.targets then MessagesFor(log, fd) + [r.msg] else MessagesFor(log, fd)
  {
    assert (log + [r])[..|log + [r]| - 1] == log;
  }

  lemma SnapshotWire(s: Server, t: TaskId, fd: Fd)
    requires Inv(s) && Enabled(s, Snapshot(t)) && fd in s.wire
    ensures WireOk(Apply(s, Snapshot(t)), fd)
  {
    hide FrameBytes, Frames, MessagesFor, RegisterIn, UnregisterIn, Clients, Carriable;
    var s' := Apply(s, Snapshot(t));
    assert WireOk(s, fd);
    assert !Pending(s, fd);
    MessagesForSnoc(s.log, s'.log[|s.log|], fd);
    assert s'.log[..|s'.log| - 1] == s.log;
    assert InFlight(s', fd) == [];
  }

  /** What holds of the client a frame is being sent to. */
  lemma CurrentTarget(s: Server, t: TaskId)
    requires Inv(s) && IsSending(s, t) && s.tasks[t].phase.targets != []
    ensures var p, fd := s.tasks[t].phase, s.tasks[t].phase.targets[0];
            && s.owner == Some(t) && fd in s.wire && fd !in p.targets[1..] && s.log != []
            && fd in s.log[|s.log| - 1].targets && s.log[|s.log| - 1].msg == s.tasks[t].job.msg
            && s.buf == s.tasks[t].job.msg.payload && p.sent <= |Frame(s, t)|
            && (fd !in s.broken ==>
                  s.wire[fd] == Frames(MessagesFor(s.log[..|s.log| - 1], fd)) + Frame(s, t)[..p.sent])
  {
    hide FrameBytes, Frame, Frames, MessagesFor, Carriable, SlotsOk, LogOk, LogCarriable, RoundsOk;
    var fd := s.tasks[t].phase.targets[0];
    assert WireOk(s, fd) && Pending(s, fd);
  }

  /** What sending changes for that client. */
  lemma AfterTransmit(s: Server, t: TaskId, k: nat)
    requires Enabled(s, Transmit(t, k)) && s.owner == Some(t) && s.log != []
    requires s.tasks[t].phase.targets[0] in s.wire
    requires s.tasks[t].phase.targets[0] !in s.tasks[t].phase.targets[1..]
    ensures var p, fd, f := s.tasks[t].phase, s.tasks[t].phase.targets[0], Frame(s, t);
            var s' := Apply(s, Transmit(t, k));
            && fd in s'.wire && s'.wire[fd] == s.wire[fd] + f[p.sent..p.sent + k]
            && s'.broken == s.broken
            && (p.sent + k == |f| ==> Completed(s', fd) == s.log && InFlight(s', fd) == [])
            && (p.sent + k < |f| ==>
                  Completed(s', fd) == s.log[..|s.log| - 1] && InFlight(s', fd) == f[..p.sent + k])
  {
    hide FrameBytes, Carriable;
  }

  lemma Stretch<T>(head: seq<T>, f: seq<T>, sent: nat, k: nat)
    requires sent + k <= |f|
    ensures head + f[..sent] + f[sent..sent + k] == head + f[..sent + k]
    ensures sent + k == |f| ==> head + f[..sent + k] == head + f
  {
    assert f[..sent] + f[sent..sent + k] == f[..sent + k];
    assert head + f[..sent] + f[sent..sent + k] == head + (f[..sent] + f[sent..sent + k]);
    assert sent + k == |f| ==> f[..sent + k] == f;
  }

  /** The socket of the current target takes the rest of the frame. */
  lemma LastBytes(s: Server, t: TaskId, k: nat)
    requires Inv(s) && Enabled(s, Transmit(t, k))
    requires s.tasks[t].phase.sent + k == |Frame(s, t)|
    ensures WireOk(Apply(s, Transmit(t, k)), s.tasks[t].phase.targets[0])
  {
    hide Inv, Apply, Frame, FrameBytes, Frames, MessagesFor, Carriable, Completed, InFlight;
    CurrentTarget(s, t);
    AfterTransmit(s, t, k);
    var fd, before, f := s.tasks[t].phase.targets[0], s.log[..|s.log| - 1], Frame(s, t);
    assert s.log == before + [s.log[|s.log| - 1]];
    MessagesForSnoc(before, s.log[|s.log| - 1], fd);
    FramesSnoc(MessagesFor(before, fd), s.tasks[t].job.msg);
    Stretch(Frames(MessagesFor(before, fd)), f, s.tasks[t].phase.sent, k);
    WholeFrame(s, t);
    assert Frames(MessagesFor(s.log, fd)) + [] == Frames(MessagesFor(s.log, fd));
  }

  lemma WholeFrame(s: Server, t: TaskId)
    requires t in s.tasks && s.buf == s.tasks[t].job.msg.payload
    ensures Frame(s, t) == FrameBytes(s.tasks[t].job.msg.msgType, s.tasks[t].job.msg.payload)
  {
  }

  lemma SomeBytes(s: Server, t: TaskId, k: nat)
    requires Inv(s) && Enabled(s, Transmit(t, k))
    requires s.tasks[t].phase.sent + k < |Frame(s, t)|
    ensures WireOk(Apply(s, Transmit(t, k)), s.tasks[t].phase.targets[0])
  {
    hide Inv, Apply, Frame, FrameBytes, Frames, MessagesFor, Carriable, Completed, InFlight;
    CurrentTarget(s, t);
    AfterTransmit(s, t, k);
    var fd, before := s.tasks[t].phase.targets[0], s.log[..|s.log| - 1];
    Stretch(Frames(MessagesFor(before, fd)), Frame(s, t), s.tasks[t].phase.sent, k);
  }

  /** Clients other than the current target see nothing of a send. */
  lemma OtherWire(s: Server, step: Step, fd: Fd)
    requires Inv(s) && Enabled(s, step) && fd in s.wire
    requires step.Transmit? || step.Fail?
    requires fd != s.tasks[step.t].phase.targets[0]
    ensures WireOk(Apply(s, step), fd)
  {
    hide Inv, Apply, FrameBytes, Frames, MessagesFor, Carriable, Pending, Completed, InFlight;
    SenderOwns(s, step, fd);
    SameView(s, step, fd);
  }

  lemma SenderOwns(s: Server, step: Step, fd: Fd)
    requires Inv(s) && Enabled(s, step) && fd in s.wire && (step.Transmit? || step.Fail?)
    ensures s.owner == Some(step.t) && WireOk(s, fd)
  {
    hide FrameBytes, Frame, WireOk, OwnerOk, SlotsOk, LogOk, LogCarriable, RoundsOk;
  }

  lemma SameView(s: Server, step: Step, fd: Fd)
    requires Enabled(s, step) && fd in s.wire && (step.Transmit? || step.Fail?)
    requires s.owner == Some(step.t) && fd != s.tasks[step.t].phase.targets[0]
    ensures var s' := Apply(s, step);
            && fd in s'.wire && s'.wire[fd] == s.wire[fd] && (fd in s'.broken <==> fd in s.broken)
            && Completed(s', fd) == Completed(s, fd) && InFlight(s', fd) == InFlight(s, fd) == []
  {
    hide FrameBytes, Frame, Carriable;
    var targets := s.tasks[step.t].phase.targets;
    assert targets == [targets[0]] + targets[1..];
    assert Pending(Apply(s, step), fd) <==> Pending(s, fd);
  }

  lemma QuietWire(s: Server, step: Step, fd: Fd)
    requires Inv(s) && Enabled(s, step) && fd in s.wire
    requires !step.Transmit? && !step.Fail? && !step.Snapshot?
    ensures WireOk(Apply(s, step), fd)
  {
    hide FrameBytes, Frames, MessagesFor, Carriable, RegisterIn, UnregisterIn, Clients;
    assert WireOk(s, fd);
    var s' := Apply(s, step);
    assert Pending(s', fd) <==> Pending(s, fd);
    assert InFlight(s', fd) == InFlight(s, fd);
  }

  lemma StepWire(s: Server, step: Step, fd: Fd)
    requires Inv(s) && Enabled(s, step) && fd in Apply(s, step).wire
    ensures WireOk(Apply(s, step), fd)
  {
    if fd !in s.wire && step.Accept? {
      NeverTargeted(s.log, fd);
    } else if step.Snapshot? {
      SnapshotWire(s, step.t, fd);
    } else if step.Transmit? || step.Fail? {
      hide WireOk, FrameBytes, Frames, MessagesFor;
      if fd != s.tasks[step.t].phase.targets[0] {
        OtherWire(s, step, fd);
      } else if step.Transmit? {
        if s.tasks[step.t].phase.sent + step.k == |Frame(s, step.t)| {
          LastBytes(s, step.t, step.k);
        } else {
          SomeBytes(s, step.t, step.k);
        }
      } else {
        BrokenWire(s, step.t);
      }
    } else {
      QuietWire(s, step, fd);
    }
  }

  lemma BrokenWire(s: Server, t: TaskId)
    requires Enabled(s, Fail(t))
    ensures WireOk(Apply(s, Fail(t)), s.tasks[t].phase.targets[0])
  {
    hide FrameBytes, Frames, MessagesFor;
  }

  lemma StepInv(s: Server, step: Step)
    requires Inv(s) && Enabled(s, step)
    ensures Inv(Apply(s, step))
  {
    StepTasks(s, step);
    StepOwner(s, step);
    StepSlots(s, step);
    StepLog(s, step);
    StepRounds(s, step);
    forall fd | fd in Apply(s, step).wire
      ensures WireOk(Apply(s, step), fd)
    {
      StepWire(s, step, fd);
    }
    hide TasksOk, OwnerOk, SlotsOk, LogOk, LogCarriable, RoundsOk, WireOk, Enabled, Apply;
  }

  lemma {:induction false} RunInv(states: seq<Server>, steps: seq<Step>, i: nat)
    requires IsRun(states, steps) && Inv(states[0]) && i < |states|
    ensures Inv(states[i])
  {
    if i > 0 {
      RunInv(states, steps, i - 1);
      RunStep(states, steps, i - 1);
      StepInv(states[i - 1], steps[i - 1]);
    }
  }

  // --------------------------------------------------------------- theorems

  /** At most one task at a time is between taking and giving the mutex, and what it
      sends from the shared buffer is its own message. */
  lemma MutualExclusion(states: seq<Server>, steps: seq<Step>, i: nat, t: TaskId, u: TaskId)
    requires IsRun(states, steps) && states[0] == INIT && i < |states|
    requires t in states[i].tasks && u in states[i].tasks
    requires states[i].tasks[t].phase.Sending?
    requires u == t || states[i].tasks[u].phase.Locked? || states[i].tasks[u].phase.Encoded?
             || states[i].tasks[u].phase.Sending?
    ensures u == t && states[i].buf == states[i].tasks[t].job.msg.payload
  {
    InitInv();
    RunInv(states, steps, i);
  }

  lemma {:induction false} MessagesCarriable(log: seq<Round>, fd: Fd)
    requires forall i :: 0 <= i < |log| ==> Carriable(log[i].msg, MAX_MESSAGE_SIZE)
    ensures forall m :: m in MessagesFor(log, fd) ==> Carriable(m, MAX_MESSAGE_SIZE)
  {
    if log != [] {
      MessagesCarriable(log[..|log| - 1], fd);
    }
  }

  lemma InFlightCutShort(s: Server, fd: Fd)
    requires Inv(s)
    ensures InFlight(s, fd) == [] || CutShort(InFlight(s, fd), MAX_MESSAGE_SIZE)
  {
    if InFlight(s, fd) != [] {
      var m := s.tasks[s.owner.value].job.msg;
      var k := s.tasks[s.owner.value].phase.sent;
      hide FrameBytes;
      assert Carriable(m, MAX_MESSAGE_SIZE) && k < |FrameBytes(m.msgType, m.payload)|;
      assert InFlight(s, fd) == FrameBytes(m.msgType, m.payload)[..k];
    }
  }

  /** In every interleaving, whatever a client with no failed send has received so
      far reads as exactly the messages of the rounds completed towards it, in the
      order those rounds held the mutex, with nothing behind them but a wait. */
  lemma ClientsReadTheirMessages(states: seq<Server>, steps: seq<Step>, i: nat, fd: Fd, clean: bool)
    requires IsRun(states, steps) && states[0] == INIT && i < |states|
    requires fd in states[i].wire && fd !in states[i].broken
    ensures ReadAll(states[i].wire[fd], clean, 2048) ==
            Reading(MessagesFor(Completed(states[i], fd), fd), Ending(clean))
  {
    InitInv();
    RunInv(states, steps, i);
    var s := states[i];
    hide ReadAll, MessagesFor, Frames;
    assert WireOk(s, fd);
    MessagesCarriable(Completed(s, fd), fd);
    InFlightCutShort(s, fd);
    StreamRoundTrip(MessagesFor(Completed(s, fd), fd), InFlight(s, fd), clean, MAX_MESSAGE_SIZE);
  }

  // Order of broadcasts

  /** The broadcast messages among the rounds that went to `fd`. */
  function BroadcastsFor(log: seq<Round>, fd: Fd): seq<Message> {
    if log == [] then []
    else
      var before := BroadcastsFor(log[..|log| - 1], fd);
      var last := log[|log| - 1];
      if last.broadcast && fd in last.targets then before + [last.msg] else before
  }

  /** Every broadcast with something to say. */
  function AllBroadcasts(log: seq<Round>): seq<Message> {
    if log == [] then []
    else
      var before := AllBroadcasts(log[..|log| - 1]);
      var last := log[|log| - 1];
      if last.broadcast && last.msg.payload != [] then before + [last.msg] else before
  }

  lemma LogGrows(s: Server, step: Step)
    requires Enabled(s, step)
    ensures var log' := Apply(s, step).log;
            log' == s.log || (step.Snapshot? && |log'| == |s.log| + 1 && log'[..|s.log|] == s.log)
  {
  }

  lemma BroadcastSnoc(log: seq<Round>, r: Round, fd: Fd)
    ensures BroadcastsFor(log + [r], fd) ==
            BroadcastsFor(log, fd) + (if r.broadcast && fd in r.targets then [r.msg] else [])
    ensures AllBroadcasts(log + [r]) ==
            AllBroadcasts(log) + (if r.broadcast && r.msg.payload != [] then [r.msg] else [])
  {
    assert (log + [r])[..|log + [r]| - 1] == log;
  }

  lemma StepReaches(s: Server, step: Step, fd: Fd, from: nat)
    requires Enabled(s, step) && fd in s.slots && from <= |s.log|
    requires BroadcastsFor(s.log[from..], fd) == AllBroadcasts(s.log[from..])
    ensures from <= |Apply(s, step).log|
    ensures BroadcastsFor(Apply(s, step).log[from..], fd) == AllBroadcasts(Apply(s, step).log[from..])
  {
    hide BroadcastsFor, AllBroadcasts, FrameBytes, Clients, RegisterIn, UnregisterIn;
    LogGrows(s, step);
    if step.Snapshot? {
      var log' := Apply(s, step).log;
      var last := log'[|s.log|];
      assert log'[from..] == s.log[from..] + [last];
      BroadcastSnoc(s.log[from..], last, fd);
      ClientsMembers(s.slots);
    }
  }

  lemma NothingYet(s: Server, fd: Fd)
    ensures BroadcastsFor(s.log[|s.log|..], fd) == AllBroadcasts(s.log[|s.log|..])
  {
  }

  /** A client registered in every state of a stretch of a run gets every broadcast
      of that stretch, in mutex order. */
  lemma {:induction false} RegisteredGetsAll(states: seq<Server>, steps: seq<Step>, i: nat, j: nat, fd: Fd)
    requires IsRun(states, steps) && states[0] == INIT && i <= j < |states|
    requires forall k :: i <= k <= j ==> fd in states[k].slots
    ensures |states[i].log| <= |states[j].log|
    ensures BroadcastsFor(states[j].log[|states[i].log|..], fd) == AllBroadcasts(states[j].log[|states[i].log|..])
    decreases j
  {
    hide *;
    NothingYet(states[i], fd);
    if i < j {
      RegisteredGetsAll(states, steps, i, j - 1, fd);
      InitInv();
      RunInv(states, steps, j - 1);
      RunStep(states, steps, j - 1);
      StepReaches(states[j - 1], steps[j - 1], fd, |states[i].log|);
    }
  }

  /** Any two clients registered throughout see the same broadcasts in the same order. */
  lemma SameOrder(states: seq<Server>, steps: seq<Step>, i: nat, j: nat, a: Fd, b: Fd)
    requires IsRun(states, steps) && states[0] == INIT && i <= j < |states|
    requires forall k :: i <= k <= j ==> a in states[k].slots && b in states[k].slots
    ensures |states[i].log| <= |states[j].log|
    ensures BroadcastsFor(states[j].log[|states[i].log|..], a) == BroadcastsFor(states[j].log[|states[i].log|..], b)
  {
    RegisteredGetsAll(states, steps, i, j, a);
    RegisteredGetsAll(states, steps, i, j, b);
  }

  /** A finished reply was sent to the client it answers in one round of its own, and, unless that
      client's socket has failed, the client reads it in its place. */
  lemma RepliesArrive(states: seq<Server>, steps: seq<Step>, i: nat, t: TaskId, clean: bool) returns (round: nat)
    requires IsRun(states, steps) && states[0] == INIT && i < |states|
    requires t in states[i].tasks && states[i].tasks[t].job.Reply? && states[i].tasks[t].phase.Finished?
    ensures round < |states[i].log| && states[i].log[round].sender == t
    ensures states[i].log[round].targets == [states[i].tasks[t].job.to]
    ensures states[i].log[round].msg == states[i].tasks[t].job.msg
    ensures forall k :: 0 <= k < |states[i].log| && states[i].log[k].sender == t ==> k == round
    ensures states[i].log[..round + 1] <= Completed(states[i], states[i].tasks[t].job.to)
    ensures var to := states[i].tasks[t].job.to;
            to in states[i].wire && to !in states[i].broken ==>
              var read := ReadAll(states[i].wire[to], clean, MAX_MESSAGE_SIZE);
              var place := |MessagesFor(states[i].log[..round], to)|;
              place < |read.messages| && read.messages[place] == states[i].tasks[t].job.msg
    ensures states[i].tasks[t].job.to in states[i].wire
  {
    hide Inv, IsRun, Completed, ReadAll, MessagesFor;
    InitInv();
    RunInv(states, steps, i);
    round := ReplyRound(states[i], t);
    var s, to := states[i], states[i].tasks[t].job.to;
    ReplyToKnown(s, t);
    if to !in s.broken {
      ClientsReadTheirMessages(states, steps, i, to, clean);
      hide *;
      InItsPlace(s.log, Completed(s, to), round, to);
    }
  }

  /** The message of a round for `fd` stands behind those of the rounds before it. */
  lemma InItsPlace(log: seq<Round>, done: seq<Round>, round: nat, fd: Fd)
    requires round < |log| && log[..round + 1] <= done && fd in log[round].targets
    ensures var place := |MessagesFor(log[..round], fd)|;
            place < |MessagesFor(done, fd)| && MessagesFor(done, fd)[place] == log[round].msg
  {
    hide MessagesFor;
    var first, rest := log[..round], done[round + 1..];
    assert log[..round + 1] == first + [log[round]];
    assert done == first + [log[round]] + rest;
    MessagesForSnoc(first, log[round], fd);
    MessagesForAppend(first + [log[round]], rest, fd);
  }

  lemma {:induction false} MessagesForAppend(a: seq<Round>, b: seq<Round>, fd: Fd)
    ensures MessagesFor(a + b, fd) == MessagesFor(a, fd) + MessagesFor(b, fd)
    decreases |b|
  {
    if b == [] {
      assert a + b == a;
    } else {
      var n := |b| - 1;
      MessagesForAppend(a, b[..n], fd);
      assert (a + b)[..|a + b| - 1] == a + b[..n];
    }
  }

  lemma ReplyToKnown(s: Server, t: TaskId)
    requires Inv(s) && t in s.tasks && s.tasks[t].job.Reply?
    ensures s.tasks[t].job.to in s.wire
  {
    hide WireOk, OwnerOk, SlotsOk, LogOk, LogCarriable, RoundsOk;
  }

  lemma ReplyRound(s: Server, t: TaskId) returns (round: nat)
    requires Inv(s) && t in s.tasks && s.tasks[t].job.Reply? && s.tasks[t].phase.Finished?
    ensures round < |s.log| && s.log[round].sender == t
    ensures s.log[round].targets == [s.tasks[t].job.to] && s.log[round].msg == s.tasks[t].job.msg
    ensures forall k :: 0 <= k < |s.log| && s.log[k].sender == t ==> k == round
    ensures s.log[..round + 1] <= Completed(s, s.tasks[t].job.to)
  {
    hide FrameBytes, WireOk, SlotsOk, LogOk, LogCarriable;
    assert SentBy(s.log, t);
    round :| 0 <= round < |s.log| && s.log[round].sender == t;
    assert Pending(s, s.tasks[t].job.to) ==> s.log[|s.log| - 1].sender == s.owner.value != t;
  }

  // ------------------------------------------------------------ who is registered, and who is sent what

  /** The listener accepts `fd` at step `j` while fewer than four clients are registered. */
  ghost predicate Admitted(states: seq<Server>, steps: seq<Step>, j: nat, fd: Fd) {
    && j < |steps| && j < |states|
    && steps[j] == Accept(fd) && |Clients(states[j].slots)| < 4
  }

  /** Admitted at some step before `i`, and not gone since. */
  ghost predicate Stays(states: seq<Server>, steps: seq<Step>, i: nat, fd: Fd) {
    exists j: nat :: j < i && Admitted(states, steps, j, fd)
                     && forall k :: j < k < i && k < |steps| ==> steps[k] != Leave(fd)
  }

  ghost predicate FourSlots(s: Server) {
    |s.slots| == 4
  }

  lemma {:induction false} TableSize(states: seq<Server>, steps: seq<Step>, i: nat)
    requires IsRun(states, steps) && states[0] == INIT && i < |states|
    ensures FourSlots(states[i])
  {
    if i > 0 {
      TableSize(states, steps, i - 1);
      RunStep(states, steps, i - 1);
      InitInv();
      RunInv(states, steps, i - 1);
      hide IsRun;
      SizeStep(states[i - 1], steps[i - 1]);
    }
  }

  lemma SizeStep(s: Server, step: Step)
    requires Inv(s) && Enabled(s, step) && FourSlots(s)
    ensures FourSlots(Apply(s, step))
  {
    hide Frame, FrameBytes;
    match step {
      case Accept(fd) => RegisterEffect(s.slots, fd);
      case Leave(fd) => UnregisterEffect(s.slots, fd);
      case _ =>
    }
  }

  /** Over every run: a client is registered if and only if it was accepted while fewer than four were,
      and has not left since. */
  lemma {:induction false} RegisteredIff(states: seq<Server>, steps: seq<Step>, i: nat, fd: Fd)
    requires IsRun(states, steps) && states[0] == INIT && i < |states|
    ensures fd in states[i].slots <==> Stays(states, steps, i, fd)
  {
    if i > 0 {
      hide IsRun, Inv, FourSlots, Stays, Admitted, Apply;
      RegisteredIff(states, steps, i - 1, fd);
      RunStep(states, steps, i - 1);
      InitInv();
      RunInv(states, steps, i - 1);
      TableSize(states, steps, i - 1);
      RegisteredStep(states[i - 1], steps[i - 1], fd);
      StaysStep(states, steps, i, fd);
      AdmittedIs(states, steps, i - 1, fd);
    } else {
      hide IsRun;
    }
  }

  lemma AdmittedIs(states: seq<Server>, steps: seq<Step>, j: nat, fd: Fd)
    requires j < |steps| && j < |states|
    ensures Admitted(states, steps, j, fd) <==> steps[j] == Accept(fd) && |Clients(states[j].slots)| < 4
  {
  }

  lemma StaysStep(states: seq<Server>, steps: seq<Step>, i: nat, fd: Fd)
    requires 0 < i <= |steps| && i <= |states|
    ensures Stays(states, steps, i, fd) <==>
            || Admitted(states, steps, i - 1, fd)
            || (Stays(states, steps, i - 1, fd) && steps[i - 1] != Leave(fd))
  {
    hide Admitted;
    if Stays(states, steps, i - 1, fd) && steps[i - 1] != Leave(fd) {
      var j: nat :| j < i - 1 && Admitted(states, steps, j, fd)
                    && forall k :: j < k < i - 1 && k < |steps| ==> steps[k] != Leave(fd);
    }
    if Stays(states, steps, i, fd) {
      var j: nat :| j < i && Admitted(states, steps, j, fd)
                    && forall k :: j < k < i && k < |steps| ==> steps[k] != Leave(fd);
      assert j < i - 1 ==> steps[i - 1] != Leave(fd);
    }
  }

  lemma RegisteredStep(s: Server, step: Step, fd: Fd)
    requires Inv(s) && Enabled(s, step) && FourSlots(s)
    ensures fd in Apply(s, step).slots <==>
            (step == Accept(fd) && |Clients(s.slots)| < 4) || (fd in s.slots && step != Leave(fd))
  {
    hide Frame, FrameBytes, WireOk, OwnerOk, LogOk, LogCarriable, RoundsOk, TasksOk;
    RoomIff(s.slots);
    match step {
      case Accept(a) =>
        assert a !in s.slots;
        RegisterEffect(s.slots, a);
      case Leave(a) => UnregisterEffect(s.slots, a);
      case _ =>
    }
    hide HasFreeSlot, Clients, RegisterIn, UnregisterIn;
  }

  /** Step `k` takes the snapshot of round `r`. */
  ghost predicate Begins(states: seq<Server>, steps: seq<Step>, k: nat, r: nat) {
    && k < |steps| < |states| && steps[k].Snapshot?
    && steps[k].t in states[k].tasks && |states[k].log| == r
  }

  /** Every round was begun by one step, with that task's message, for whom it was then to go to. */
  lemma {:induction false} RoundBegun(states: seq<Server>, steps: seq<Step>, i: nat, r: nat) returns (k: nat)
    requires IsRun(states, steps) && states[0] == INIT && i < |states| && r < |states[i].log|
    ensures k < i && Begins(states, steps, k, r)
    ensures var job := states[k].tasks[steps[k].t].job;
            && states[i].log[r] == Round(steps[k].t, job.msg, TargetsOf(states[k], job), job.Broadcast?)
  {
    RunStep(states, steps, i - 1);
    hide IsRun, TargetsOf;
    LogGrows(states[i - 1], steps[i - 1]);
    if r < |states[i - 1].log| {
      k := RoundBegun(states, steps, i - 1, r);
      assert states[i].log[r] == states[i - 1].log[r];
    } else {
      k := i - 1;
    }
  }

  /** Over every run, a round sends a broadcast with something to say exactly to the clients that were
      accepted, with room for them, before its snapshot and had not left by then; a reply to its client only. */
  lemma RoundGoesTo(states: seq<Server>, steps: seq<Step>, i: nat, r: nat, fd: Fd) returns (k: nat)
    requires IsRun(states, steps) && states[0] == INIT && i < |states| && r < |states[i].log|
    ensures k < i && Begins(states, steps, k, r)
    ensures var job, round := states[k].tasks[steps[k].t].job, states[i].log[r];
            && round.msg == job.msg && round.broadcast == job.Broadcast?
            && (job.Reply? ==> round.targets == [job.to])
            && (job.Broadcast? && job.msg.payload == [] ==> round.targets == [])
            && (job.Broadcast? && job.msg.payload != [] ==> (fd in round.targets <==> Stays(states, steps, k, fd)))
  {
    k := RoundBegun(states, steps, i, r);
    RegisteredIff(states, steps, k, fd);
    ClientsMembers(states[k].slots);
    hide IsRun, Stays, Clients;
  }

  /** A task is in a round of its own exactly once it has taken its snapshot: so a broadcast that has
      finished was a round, and went where rounds go. */
  lemma BroadcastsAreRounds(states: seq<Server>, steps: seq<Step>, i: nat, t: TaskId) returns (r: nat)
    requires IsRun(states, steps) && states[0] == INIT && i < |states|
    requires t in states[i].tasks && states[i].tasks[t].job.Broadcast? && states[i].tasks[t].phase.Finished?
    ensures r < |states[i].log| && states[i].log[r].sender == t
    ensures states[i].log[r].msg == states[i].tasks[t].job.msg && states[i].log[r].broadcast
    ensures forall k :: 0 <= k < |states[i].log| && states[i].log[k].sender == t ==> k == r
  {
    InitInv();
    RunInv(states, steps, i);
    hide IsRun, TasksOk, OwnerOk, WireOk, SlotsOk, LogOk, LogCarriable;
    assert SentBy(states[i].log, t);
    r :| 0 <= r < |states[i].log| && states[i].log[r].sender == t;
  }

  /** A send to `fd` fails at step `j`. */
  ghost predicate FailsTo(states: seq<Server>, steps: seq<Step>, j: nat, fd: Fd) {
    && j < |steps| < |states| && steps[j].Fail? && IsSending(states[j], steps[j].t)
    && states[j].tasks[steps[j].t].phase.targets != [] && states[j].tasks[steps[j].t].phase.targets[0] == fd
  }

  /** Over every run a socket is broken if and only if a send to it has failed. */
  lemma {:induction false} BrokenIff(states: seq<Server>, steps: seq<Step>, i: nat, fd: Fd)
    requires IsRun(states, steps) && states[0] == INIT && i < |states|
    ensures fd in states[i].broken <==> exists j: nat :: j < i && FailsTo(states, steps, j, fd)
  {
    if i > 0 {
      BrokenIff(states, steps, i - 1, fd);
      RunStep(states, steps, i - 1);
      hide IsRun;
      BreakStep(states[i - 1], steps[i - 1], fd);
      assert FailsTo(states, steps, i - 1, fd) <==> BreaksTo(states[i - 1], steps[i - 1], fd);
      hide FailsTo, BreaksTo, Apply;
    }
  }

  ghost predicate BreaksTo(s: Server, step: Step, fd: Fd) {
    && step.Fail? && IsSending(s, step.t)
    && s.tasks[step.t].phase.targets != [] && s.tasks[step.t].phase.targets[0] == fd
  }

  lemma BreakStep(s: Server, step: Step, fd: Fd)
    requires Enabled(s, step)
    ensures fd in Apply(s, step).broken <==> fd in s.broken || BreaksTo(s, step, fd)
  {
    hide Frame, FrameBytes;
  }

  // -------------------------------------------------------------------- nobody is stuck

  /** What the holder of the mutex can do next: every short count of what is left of its frame included. */
  ghost predicate CanGoOn(s: Server, t: TaskId)
    requires t in s.tasks
  {
    match s.tasks[t].phase
    case Locked => Enabled(s, Step.Encode(t))
    case Encoded => Enabled(s, Snapshot(t))
    case Sending(targets, sent) =>
      if targets == [] then Enabled(s, Give(t))
      else
        && sent < |Frame(s, t)| && Enabled(s, Fail(t))
        && forall k: nat :: Enabled(s, Transmit(t, k)) <==> 1 <= k <= |Frame(s, t)| - sent
    case _ => false
  }

  /** In every reachable state the mutex can be taken by any task that waits, or its holder can go on; tasks
      begin and descriptors come and go at any time. */
  lemma NobodyIsStuck(states: seq<Server>, steps: seq<Step>, i: nat, t: TaskId)
    requires IsRun(states, steps) && states[0] == INIT && i < |states|
    ensures var s := states[i];
            && (t in s.tasks && !s.tasks[t].phase.Finished? ==>
                  if s.owner == None then Enabled(s, Take(t))
                  else s.owner.value in s.tasks && CanGoOn(s, s.owner.value))
            && (forall msg :: t !in s.tasks && Carriable(msg, 2048) ==> Enabled(s, Begin(t, Broadcast(msg))))
            && (forall fd: Fd :: fd !in s.wire ==> Enabled(s, Accept(fd)))
            && (forall fd: Fd :: fd in s.slots ==> Enabled(s, Leave(fd)))
  {
    InitInv();
    RunInv(states, steps, i);
    hide IsRun, FrameBytes, Carriable, WireOk, LogOk, LogCarriable, RoundsOk, SlotsOk;
  }
}
