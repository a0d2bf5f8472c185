/** Runs of the connection pool: API tasks claim, issue and give up connects while
    the NimBLE host task delivers link events, with the mutex released in between
    and every report sent after its slot has changed. */
module ConnectionRuns {
  import opened Prelude
  import opened ConnectionPool

  type TaskId = nat

  datatype Report = Up | Down

  /** An API task inside `connect`, past the claim. */
  datatype ApiPc =
    | Issuing(at: nat, client: ClientId, session: Session)
    | NotIssued(at: nat, session: Session)
    | Telling(cb: Session)

  /** `outstanding` are the clients with an attempt or a link in progress. `decided`
      is history: the reports owed to each session, fixed when its slot changed;
      `told` are those that its callback has received. */
  datatype System = System(
    slots: seq<Slot>,
    nextClient: ClientId,
    outstanding: set<ClientId>,
    tasks: map<TaskId, ApiPc>,
    host: Option<(Session, Report)>,
    nextSession: Session,
    decided: map<Session, seq<Report>>,
    told: map<Session, seq<Report>>)

  const INIT := System([EMPTY, EMPTY, EMPTY, EMPTY], 0, {}, map[], None, 0, map[], map[])

  datatype Step =
    | Connect(t: TaskId, a: Address, addressType: nat)
    | Issue(t: TaskId, ok: bool)
    | GiveUp(t: TaskId)
    | Tell(t: TaskId)
    | HostConnect(c: ClientId)
    | HostEnd(c: ClientId)
    | HostTell
    | Disconnect(a: Address)

  /** A link event comes only while the client has an attempt or link outstanding, and
      the host task delivers one report before it handles the next event. */
  predicate Enabled(s: System, step: Step) {
    match step
    case Connect(t, _, _) => t !in s.tasks
    case Issue(t, _) => t in s.tasks && s.tasks[t].Issuing?
    case GiveUp(t) => t in s.tasks && s.tasks[t].NotIssued? && s.tasks[t].at < |s.slots|
    case Tell(t) => t in s.tasks && s.tasks[t].Telling? && s.tasks[t].cb in s.told
    case HostConnect(c) => c in s.outstanding && s.host == None
    case HostEnd(c) => c in s.outstanding && s.host == None
    case HostTell => s.host.Some? && s.host.value.0 in s.told
    case Disconnect(_) => true
  }

  function Decide(s: System, session: Session, r: Report): map<Session, seq<Report>> {
    s.decided[session := (if session in s.decided then s.decided[session] else []) + [r]]
  }

  function Apply(s: System, step: Step): System
    requires Enabled(s, step)
  {
    match step
    case Connect(t, a, addressType) =>
      if !Accepts(s.slots, a) then s
      else
        var k := FindFree(s.slots, 0);
        var slot := Claimed(s.slots[k], a, addressType, s.nextSession, s.nextClient);
        s.(slots := s.slots[k := slot],
           nextClient := s.nextClient + (if s.slots[k].client == None then 1 else 0),
           tasks := s.tasks[t := Issuing(k, slot.client.value, s.nextSession)],
           nextSession := s.nextSession + 1,
           decided := s.decided[s.nextSession := []],
           told := s.told[s.nextSession := []])
    case Issue(t, ok) =>
      var pc := s.tasks[t];
      if ok then s.(outstanding := s.outstanding + {pc.client}, tasks := s.tasks - {t})
      else s.(tasks := s.tasks[t := NotIssued(pc.at, pc.session)])
    case GiveUp(t) =>
      var k := s.tasks[t].at;
      var cb := s.slots[k].session;
      var s' := s.(slots := s.slots[k := Freed(s.slots[k])]);
      if cb.Some? then s'.(decided := Decide(s, cb.value, Down), tasks := s.tasks[t := Telling(cb.value)])
      else s'.(tasks := s.tasks - {t})
    case Tell(t) =>
      var session := s.tasks[t].cb;
      s.(told := s.told[session := s.told[session] + [Down]], tasks := s.tasks - {t})
    case HostConnect(c) =>
      var k := FindClient(s.slots, c, 0);
      if k == |s.slots| || s.slots[k].state != Connecting then s
      else
        var s' := s.(slots := ConnectedAt(s.slots, k));
        if s.slots[k].session.Some?
        then s'.(decided := Decide(s, s.slots[k].session.value, Up), host := Some((s.slots[k].session.value, Up)))
        else s'
    case HostEnd(c) =>
      var k := FindClient(s.slots, c, 0);
      var s' := s.(outstanding := s.outstanding - {c});
      if k == |s.slots| then s'
      else
        var s'' := s'.(slots := s.slots[k := Freed(s.slots[k])]);
        if s.slots[k].session.Some?
        then s''.(decided := Decide(s, s.slots[k].session.value, Down), host := Some((s.slots[k].session.value, Down)))
        else s''
    case HostTell =>
      var (session, r) := s.host.value;
      s.(told := s.told[session := s.told[session] + [r]], host := None)
    case Disconnect(a) =>
      var k := FindAddress(s.slots, a, 0);
      if k == |s.slots| then s else s.(slots := DisconnectAt(s.slots, k))
  }

  ghost predicate IsRun(states: seq<System>, steps: seq<Step>) {
    && |states| == |steps| + 1
    && forall i :: 0 <= i < |steps| ==> Enabled(states[i], steps[i]) && states[i + 1] == Apply(states[i], steps[i])
  }

  // -------------------------------------------------------------- invariant

  /** Clients belong to at most one slot, and only a held slot has a live one. */
  ghost predicate ClientsOk(s: System) {
    && (forall i :: 0 <= i < |s.slots| && s.slots[i].client.Some? ==> s.slots[i].client.value < s.nextClient)
    && (forall i :: 0 <= i < |s.slots| && s.slots[i].state == Free && s.slots[i].client.Some? ==>
          s.slots[i].client.value !in s.outstanding)
    && (forall c :: c in s.outstanding ==> c < s.nextClient && Owns(s.slots, c))
  }

  ghost predicate Owns(slots: seq<Slot>, c: ClientId) {
    exists i :: 0 <= i < |slots| && slots[i].client == Some(c)
  }

  /** A task past its claim still has its slot, untouched, and no attempt outstanding. */
  ghost predicate TaskHas(s: System, pc: ApiPc) {
    match pc
    case Issuing(at, client, session) =>
      && at < |s.slots| && s.slots[at].state == Connecting && s.slots[at].session == Some(session)
      && s.slots[at].client == Some(client) && client !in s.outstanding
    case NotIssued(at, session) =>
      && at < |s.slots| && s.slots[at].state == Connecting && s.slots[at].session == Some(session)
      && s.slots[at].client.Some? && s.slots[at].client.value !in s.outstanding
    case Telling(cb) => cb in s.decided
  }

  function SessionOf(pc: ApiPc): Session {
    match pc case Issuing(_, _, x) => x case NotIssued(_, x) => x case Telling(x) => x
  }

  ghost predicate TasksOk(s: System) {
    && (forall t :: t in s.tasks ==> TaskHas(s, s.tasks[t]) && SessionOf(s.tasks[t]) < s.nextSession)
    && (forall t, u :: t in s.tasks && u in s.tasks && t != u ==> SessionOf(s.tasks[t]) != SessionOf(s.tasks[u]))
  }

  ghost predicate InSlot(slots: seq<Slot>, x: Session) {
    exists i :: 0 <= i < |slots| && slots[i].session == Some(x)
  }

  /** What has been decided for a session, by where its slot stands. */
  ghost predicate DecidedOk(s: System) {
    && (forall x: Session :: x in s.decided <==> x < s.nextSession)
    && (forall i :: 0 <= i < |s.slots| && s.slots[i].session.Some? ==>
          && s.slots[i].session.value in s.decided
          && s.decided[s.slots[i].session.value] == (if s.slots[i].state == Connecting then [] else [Up]))
    && (forall x: Session :: x in s.decided && !InSlot(s.slots, x) ==> s.decided[x] == [Down] || s.decided[x] == [Up, Down])
  }

  ghost predicate TellingTo(s: System, x: Session) {
    exists t :: t in s.tasks && s.tasks[t] == Telling(x)
  }

  predicate HostOwes(s: System, x: Session) {
    s.host.Some? && s.host.value.0 == x
  }

  /** The decided report still to be delivered: by the host task, or by the API task
      whose attempt could not be issued. */
  ghost function Owed(s: System, x: Session): seq<Report> {
    if HostOwes(s, x) then [s.host.value.1] else if TellingTo(s, x) then [Down] else []
  }

  ghost predicate ToldOk(s: System) {
    && s.told.Keys == s.decided.Keys
    && (s.host.Some? ==> s.host.value.0 in s.decided)
    && (forall x: Session :: x in s.decided ==> s.told[x] + Owed(s, x) == s.decided[x])
    && (forall t :: t in s.tasks && s.tasks[t].Telling? ==> !InSlot(s.slots, s.tasks[t].cb) && !HostOwes(s, s.tasks[t].cb))
  }

  ghost predicate Inv(s: System) {
    SlotsOk(s.slots) && ClientsOk(s) && TasksOk(s) && DecidedOk(s) && ToldOk(s)
  }

  lemma InitInv()
    ensures Inv(INIT)
  {
    assert SlotsOk(INIT.slots);
    assert ClientsOk(INIT);
    assert TasksOk(INIT);
    assert DecidedOk(INIT);
    assert ToldOk(INIT);
  }

  // ------------------------------------------------- what a step can change

  /** The one slot change a step makes: a claim, a link up, a close request, a release. */
  datatype Change = NoChange | Opened(k: nat) | Raised(k: nat) | Asked(k: nat) | Closed(k: nat)

  function ChangeOf(s: System, step: Step): Change
    requires Enabled(s, step)
  {
    match step
    case Connect(_, a, _) => if Accepts(s.slots, a) then Opened(FindFree(s.slots, 0)) else NoChange
    case GiveUp(t) => Closed(s.tasks[t].at)
    case HostConnect(c) =>
      var k := FindClient(s.slots, c, 0);
      if k < |s.slots| && s.slots[k].state == Connecting then Raised(k) else NoChange
    case HostEnd(c) => var k := FindClient(s.slots, c, 0); if k < |s.slots| then Closed(k) else NoChange
    case Disconnect(a) =>
      var k := FindAddress(s.slots, a, 0);
      if k < |s.slots| && s.slots[k].state == Connected then Asked(k) else NoChange
    case _ => NoChange
  }

  ghost predicate SlotFacts(s: System, s': System, ch: Change) {
    match ch
    case NoChange => s'.slots == s.slots
    case Opened(k) =>
      && k < |s.slots| && s.slots[k].state == Free
      && (exists a, addressType ::
            s'.slots == s.slots[k := Claimed(s.slots[k], a, addressType, s.nextSession, s.nextClient)]
            && forall j :: 0 <= j < |s.slots| ==> !Holds(s.slots[j], a))
    case Raised(k) =>
      k < |s.slots| && s.slots[k].state == Connecting && s'.slots == s.slots[k := s.slots[k].(state := Connected)]
    case Asked(k) =>
      k < |s.slots| && s.slots[k].state == Connected && s'.slots == s.slots[k := s.slots[k].(state := Disconnecting)]
    case Closed(k) =>
      k < |s.slots| && s.slots[k].state != Free && s'.slots == s.slots[k := Freed(s.slots[k])]
  }

  /** The report a slot change decides. */
  function ReportOf(slots: seq<Slot>, ch: Change): Option<(Session, Report)> {
    match ch
    case Raised(k) => if k < |slots| && slots[k].session.Some? then Some((slots[k].session.value, Up)) else None
    case Closed(k) => if k < |slots| && slots[k].session.Some? then Some((slots[k].session.value, Down)) else None
    case _ => None
  }

  ghost predicate DecidedFacts(s: System, s': System, ch: Change) {
    if ch.Opened? then s'.decided == s.decided[s.nextSession := []] && s'.nextSession == s.nextSession + 1
    else s'.nextSession == s.nextSession
         && match ReportOf(s.slots, ch)
            case None => s'.decided == s.decided
            case Some((x, r)) => s'.decided == Decide(s, x, r)
  }

  ghost predicate ToldFacts(s: System, s': System, step: Step, ch: Change) {
    match step
    case Connect(_, _, _) =>
      s'.host == s.host && s'.told == (if ch.Opened? then s.told[s.nextSession := []] else s.told)
    case HostConnect(_) =>
      s.host == None && s'.told == s.told && s'.host == ReportOf(s.slots, ch)
    case HostEnd(_) =>
      s.host == None && s'.told == s.told && s'.host == ReportOf(s.slots, ch)
    case HostTell =>
      s.host.Some? && s.host.value.0 in s.told && s'.host == None
      && s'.told == s.told[s.host.value.0 := s.told[s.host.value.0] + [s.host.value.1]]
    case Tell(t) =>
      t in s.tasks && s.tasks[t].Telling? && s.tasks[t].cb in s.told && s'.host == s.host
      && s'.told == s.told[s.tasks[t].cb := s.told[s.tasks[t].cb] + [Down]]
    case _ => s'.host == s.host && s'.told == s.told
  }

  ghost predicate TaskFacts(s: System, s': System, step: Step, ch: Change) {
    match step
    case Connect(t, _, _) =>
      if ch.Opened?
      then t !in s.tasks && ch.k < |s'.slots| && s'.slots[ch.k].client.Some?
           && s'.tasks == s.tasks[t := Issuing(ch.k, s'.slots[ch.k].client.value, s.nextSession)]
      else s'.tasks == s.tasks
    case Issue(t, ok) =>
      t in s.tasks && s.tasks[t].Issuing?
      && s'.tasks == if ok then s.tasks - {t} else s.tasks[t := NotIssued(s.tasks[t].at, s.tasks[t].session)]
    case GiveUp(t) =>
      t in s.tasks && s.tasks[t].NotIssued? && ch == Closed(s.tasks[t].at)
      && s'.tasks == s.tasks[t := Telling(s.tasks[t].session)]
    case Tell(t) => t in s.tasks && s.tasks[t].Telling? && s'.tasks == s.tasks - {t}
    case _ => s'.tasks == s.tasks
  }

  ghost predicate LinkFacts(s: System, s': System, step: Step, ch: Change) {
    && s'.outstanding == (match step
         case Issue(t, ok) => if ok && t in s.tasks && s.tasks[t].Issuing? then s.outstanding + {s.tasks[t].client}
                              else s.outstanding
         case HostEnd(c) => s.outstanding - {c}
         case _ => s.outstanding)
    && s'.nextClient == s.nextClient + (if ch.Opened? && ch.k < |s.slots| && s.slots[ch.k].client == None then 1 else 0)
    && (ch.Raised? || ch.Closed? ==>
          ch.k < |s.slots| && s.slots[ch.k].client.Some? && (step.GiveUp? || s.slots[ch.k].client.value in s.outstanding))
    && (step.HostEnd? ==> ch.Closed? && s.slots[ch.k].client == Some(step.c))
  }

  ghost predicate Next(s: System, step: Step, s': System) {
    Enabled(s, step) && s' == Apply(s, step)
  }

  /** Everything the proofs below need to know of a step. */
  ghost predicate Facts(s: System, step: Step, s': System, ch: Change) {
    && SlotFacts(s, s', ch) && DecidedFacts(s, s', ch) && ToldFacts(s, s', step, ch)
    && TaskFacts(s, s', step, ch) && LinkFacts(s, s', step, ch)
    && (ch.Opened? ==> step.Connect?)
    && (ch.Raised? ==> step.HostConnect?)
    && (ch.Closed? ==> step.HostEnd? || step.GiveUp?)
  }

  lemma ConnectFacts(s: System, step: Step, s': System)
    requires Next(s, step, s') && step.Connect?
    ensures Facts(s, step, s', ChangeOf(s, step))
  {
    hide Claimed;
    var ch := ChangeOf(s, step);
    if Accepts(s.slots, step.a) {
      var k := FindFree(s.slots, 0);
      assert s'.slots == s.slots[k := Claimed(s.slots[k], step.a, step.addressType, s.nextSession, s.nextClient)];
      assert forall j :: 0 <= j < |s.slots| ==> !Holds(s.slots[j], step.a);
      ClaimedClient(s.slots[k], step.a, step.addressType, s.nextSession, s.nextClient);
    }
    hide FindAddress, FindFree, Accepts;
  }

  lemma ClaimedClient(slot: Slot, a: Address, addressType: nat, session: Session, spare: ClientId)
    ensures Claimed(slot, a, addressType, session, spare).client ==
            (if slot.client == None then Some(spare) else slot.client)
  {
  }

  lemma HostFacts(s: System, step: Step, s': System)
    requires SlotsOk(s.slots) && ClientsOk(s) && Next(s, step, s') && (step.HostConnect? || step.HostEnd?)
    ensures Facts(s, step, s', ChangeOf(s, step))
  {
    assert Owns(s.slots, step.c);
    hide FindFree, FindAddress, FindClient;
  }

  lemma GiveUpFacts(s: System, step: Step, s': System)
    requires TasksOk(s) && Next(s, step, s') && step.GiveUp?
    ensures Facts(s, step, s', ChangeOf(s, step))
  {
    assert TaskHas(s, s.tasks[step.t]);
    hide TasksOk, FindFree, FindAddress, FindClient;
  }

  lemma OtherFacts(s: System, step: Step, s': System)
    requires Next(s, step, s') && !step.GiveUp? && !step.HostConnect? && !step.HostEnd? && !step.Connect?
    ensures Facts(s, step, s', ChangeOf(s, step))
  {
  }

  lemma StepFacts(s: System, step: Step, s': System) returns (ch: Change)
    requires Inv(s) && Next(s, step, s')
    ensures Facts(s, step, s', ch)
  {
    ch := ChangeOf(s, step);
    hide Facts, Next, Apply, SlotsOk, ClientsOk, TasksOk, DecidedOk, ToldOk, Enabled, ChangeOf;
    match step {
      case Connect(_, _, _) => ConnectFacts(s, step, s');
      case GiveUp(_) => GiveUpFacts(s, step, s');
      case HostConnect(_) => HostFacts(s, step, s');
      case HostEnd(_) => HostFacts(s, step, s');
      case _ => OtherFacts(s, step, s');
    }
  }

  // ------------------------------------------------------------ preservation

  lemma KeepSlots(s: System, s': System, ch: Change)
    requires SlotsOk(s.slots) && SlotFacts(s, s', ch)
    requires forall i :: 0 <= i < |s.slots| && s.slots[i].session.Some? ==> s.slots[i].session.value < s.nextSession
    requires forall i :: 0 <= i < |s.slots| && s.slots[i].client.Some? ==> s.slots[i].client.value < s.nextClient
    ensures SlotsOk(s'.slots)
  {
    match ch {
      case NoChange =>
      case Opened(k) =>
        var a, addressType :|
          s'.slots == s.slots[k := Claimed(s.slots[k], a, addressType, s.nextSession, s.nextClient)]
          && forall j :: 0 <= j < |s.slots| ==> !Holds(s.slots[j], a);
        SlotReplaced(s.slots, k, s'.slots[k]);
      case Raised(k) => SlotReplaced(s.slots, k, s'.slots[k]);
      case Asked(k) => SlotReplaced(s.slots, k, s'.slots[k]);
      case Closed(k) => SlotReplaced(s.slots, k, s'.slots[k]);
    }
  }

  /** A slot value that can stand at `k` beside the others. */
  ghost predicate Fits(slots: seq<Slot>, k: nat, slot: Slot) {
    && (slot.state == Free ==> slot.session == None)
    && (slot.state != Free ==> slot.session.Some? && slot.client.Some?)
    && forall j :: 0 <= j < |slots| && j != k ==>
         && (slot.state != Free && slots[j].state != Free ==> slots[j].address != slot.address)
         && (slot.client.Some? ==> slots[j].client != slot.client)
         && (slot.session.Some? ==> slots[j].session != slot.session)
  }

  lemma SlotReplaced(slots: seq<Slot>, k: nat, slot: Slot)
    requires SlotsOk(slots) && k < |slots| && Fits(slots, k, slot)
    ensures SlotsOk(slots[k := slot])
  {
  }

  lemma OnlyOneSlot(slots: seq<Slot>, k: nat)
    requires SlotsOk(slots) && k < |slots|
    ensures forall j :: 0 <= j < |slots| && j != k && slots[k].session.Some? ==> slots[j].session != slots[k].session
    ensures forall j :: 0 <= j < |slots| && j != k && slots[k].client.Some? ==> slots[j].client != slots[k].client
  {
  }

  lemma StillOwned(s: System, step: Step, s': System, ch: Change, c: ClientId)
    requires ClientsOk(s) && TasksOk(s) && Facts(s, step, s', ch) && c in s'.outstanding
    ensures c < s'.nextClient && Owns(s'.slots, c)
  {
    if step.Issue? {
      assert TaskHas(s, s.tasks[step.t]);
    }
    var at := if step.Issue? && step.ok && s.tasks[step.t].client == c then s.tasks[step.t].at
              else var i :| 0 <= i < |s.slots| && s.slots[i].client == Some(c); i;
    hide TasksOk, ToldFacts, DecidedFacts, TaskFacts, Owns;
    assert s.slots[at].client == Some(c);
    assert s'.slots[at].client == Some(c);
    OwnsIt(s'.slots, at, c);
  }

  lemma OwnsIt(slots: seq<Slot>, at: nat, c: ClientId)
    requires at < |slots| && slots[at].client == Some(c)
    ensures Owns(slots, c)
  {
  }

  lemma ClientAt(s: System, step: Step, s': System, ch: Change, i: nat)
    requires SlotsOk(s.slots) && ClientsOk(s) && TasksOk(s) && Facts(s, step, s', ch)
    requires i < |s'.slots| && s'.slots[i].client.Some?
    ensures s'.slots[i].client.value < s'.nextClient
    ensures s'.slots[i].state == Free ==> s'.slots[i].client.value !in s'.outstanding
  {
    hide ToldFacts, DecidedFacts, Owns;
    if step.Issue? {
      assert TaskHas(s, s.tasks[step.t]);
      OnlyOneSlot(s.slots, s.tasks[step.t].at);
    } else if step.GiveUp? {
      assert TaskHas(s, s.tasks[step.t]);
    } else if step.HostEnd? {
      OnlyOneSlot(s.slots, ch.k);
    }
    hide SlotsOk, TasksOk;
  }

  lemma KeepClients(s: System, step: Step, s': System, ch: Change)
    requires SlotsOk(s.slots) && ClientsOk(s) && TasksOk(s) && Facts(s, step, s', ch)
    ensures ClientsOk(s')
  {
    hide SlotsOk, Owns, TasksOk, Facts;
    forall c | c in s'.outstanding
      ensures c < s'.nextClient && Owns(s'.slots, c)
    {
      StillOwned(s, step, s', ch, c);
    }
    forall i | 0 <= i < |s'.slots| && s'.slots[i].client.Some?
      ensures s'.slots[i].client.value < s'.nextClient
      ensures s'.slots[i].state == Free ==> s'.slots[i].client.value !in s'.outstanding
    {
      ClientAt(s, step, s', ch, i);
    }
  }

  /** A task past its claim keeps its slot while others act. */
  lemma OtherTask(s: System, step: Step, s': System, ch: Change, u: TaskId)
    requires SlotsOk(s.slots) && ClientsOk(s) && TasksOk(s)
    requires Facts(s, step, s', ch)
    requires s.decided.Keys <= s'.decided.Keys
    requires u in s.tasks && !(step.Issue? && step.t == u) && !(step.GiveUp? && step.t == u)
    ensures TaskHas(s', s.tasks[u])
  {
    assert TaskHas(s, s.tasks[u]);
    if step.Issue? || step.GiveUp? {
      var t := step.t;
      assert TaskHas(s, s.tasks[t]);
      assert SessionOf(s.tasks[t]) != SessionOf(s.tasks[u]);
      OnlyOneSlot(s.slots, s.tasks[t].at);
    }
    hide SlotsOk, ClientsOk, TasksOk, DecidedFacts, ToldFacts;
  }

  lemma DecidedGrows(s: System, s': System, ch: Change)
    requires DecidedFacts(s, s', ch)
    ensures s.decided.Keys <= s'.decided.Keys && s.nextSession <= s'.nextSession
  {
  }

  lemma TaskKept(s: System, step: Step, s': System, ch: Change, t: TaskId)
    requires SlotsOk(s.slots) && ClientsOk(s) && TasksOk(s) && DecidedOk(s) && Facts(s, step, s', ch) && t in s'.tasks
    ensures TaskHas(s', s'.tasks[t]) && SessionOf(s'.tasks[t]) < s'.nextSession
    ensures if t in s.tasks then SessionOf(s'.tasks[t]) == SessionOf(s.tasks[t])
            else step.Connect? && step.t == t && SessionOf(s'.tasks[t]) == s.nextSession
  {
    DecidedGrows(s, s', ch);
    if t !in s.tasks {
      hide SlotsOk, DecidedOk;
      OpenedTask(s, step, s', ch);
    } else if (step.Issue? && step.t == t) || (step.GiveUp? && step.t == t) {
      assert TaskHas(s, s.tasks[t]);
      hide SlotsOk, ClientsOk, TasksOk;
    } else {
      OtherTask(s, step, s', ch, t);
      hide SlotsOk, ClientsOk, DecidedOk, SlotFacts, LinkFacts, DecidedFacts, ToldFacts, TaskHas;
    }
  }

  lemma KeepTasks(s: System, step: Step, s': System, ch: Change)
    requires SlotsOk(s.slots) && ClientsOk(s) && TasksOk(s) && DecidedOk(s) && Facts(s, step, s', ch)
    ensures TasksOk(s')
  {
    forall t | t in s'.tasks
      ensures TaskHas(s', s'.tasks[t]) && SessionOf(s'.tasks[t]) < s'.nextSession
      ensures if t in s.tasks then SessionOf(s'.tasks[t]) == SessionOf(s.tasks[t])
              else step.Connect? && step.t == t && SessionOf(s'.tasks[t]) == s.nextSession
    {
      TaskKept(s, step, s', ch, t);
    }
    hide SlotsOk, ClientsOk, DecidedOk, Facts, TaskHas, SessionOf;
  }

  lemma OpenedTask(s: System, step: Step, s': System, ch: Change)
    requires ClientsOk(s) && ch.Opened? && step.Connect?
    requires Facts(s, step, s', ch)
    ensures step.t in s'.tasks && TaskHas(s', s'.tasks[step.t]) && SessionOf(s'.tasks[step.t]) == s.nextSession
  {
  }

  // ---------------------------------------------------------------- reports

  lemma DecideEffect(s: System, y: Session, r: Report)
    requires y in s.decided
    ensures Decide(s, y, r).Keys == s.decided.Keys && Decide(s, y, r)[y] == s.decided[y] + [r]
    ensures forall x :: x in s.decided && x != y ==> Decide(s, y, r)[x] == s.decided[x]
  {
  }

  /** A report is decided for the session in the changed slot. */
  lemma ReportFacts(s: System, s': System, ch: Change)
    requires SlotsOk(s.slots) && DecidedOk(s) && SlotFacts(s, s', ch) && DecidedFacts(s, s', ch)
    ensures ch.Raised? || ch.Closed? <==> ReportOf(s.slots, ch).Some?
    ensures ReportOf(s.slots, ch).Some? ==>
              && ReportOf(s.slots, ch).value.0 in s.decided && InSlot(s.slots, ReportOf(s.slots, ch).value.0)
              && s'.decided.Keys == s.decided.Keys
              && s'.decided[ReportOf(s.slots, ch).value.0] ==
                 s.decided[ReportOf(s.slots, ch).value.0] + [ReportOf(s.slots, ch).value.1]
              && forall x :: x in s.decided && x != ReportOf(s.slots, ch).value.0 ==> s'.decided[x] == s.decided[x]
  {
    if ReportOf(s.slots, ch).Some? {
      var (x, r) := ReportOf(s.slots, ch).value;
      assert s.slots[ch.k].session == Some(x);
      DecideEffect(s, x, r);
    }
  }

  lemma SlotDecided(s: System, s': System, ch: Change, i: nat)
    requires SlotsOk(s.slots) && DecidedOk(s) && SlotFacts(s, s', ch) && DecidedFacts(s, s', ch)
    requires i < |s'.slots| && s'.slots[i].session.Some?
    ensures s'.slots[i].session.value in s'.decided
    ensures s'.decided[s'.slots[i].session.value] == (if s'.slots[i].state == Connecting then [] else [Up])
  {
    ReportFacts(s, s', ch);
    if ch.Raised? || ch.Closed? {
      OnlyOneSlot(s.slots, ch.k);
    }
    assert ch.Opened? ==> forall x :: x in s.decided ==> x != s.nextSession;
    hide SlotsOk, Decide, InSlot;
  }

  lemma SessionStays(s: System, s': System, ch: Change, x: Session)
    requires SlotsOk(s.slots) && SlotFacts(s, s', ch)
    ensures InSlot(s.slots, x) && !InSlot(s'.slots, x) ==> ReportOf(s.slots, ch) == Some((x, Down))
    ensures InSlot(s'.slots, x) && !InSlot(s.slots, x) ==> ch.Opened? && x == s.nextSession
    ensures ch.Opened? ==> InSlot(s'.slots, s.nextSession)
    ensures ReportOf(s.slots, ch) == Some((x, Down)) ==> !InSlot(s'.slots, x)
  {
    if ch != NoChange {
      OnlyOneSlot(s.slots, ch.k);
      assert forall j :: 0 <= j < |s.slots| && j != ch.k ==> s'.slots[j] == s.slots[j];
    }
    if ch.Opened? {
      assert s'.slots[ch.k].session == Some(s.nextSession);
    }
    if i :| 0 <= i < |s.slots| && s.slots[i].session == Some(x) {
      assert s'.slots[i].session == Some(x) || ch == Closed(i);
    }
    hide SlotsOk;
  }

  lemma KeepDecided(s: System, s': System, ch: Change)
    requires SlotsOk(s.slots) && DecidedOk(s) && SlotFacts(s, s', ch) && DecidedFacts(s, s', ch)
    ensures DecidedOk(s')
  {
    ReportFacts(s, s', ch);
    forall i | 0 <= i < |s'.slots| && s'.slots[i].session.Some?
      ensures s'.slots[i].session.value in s'.decided
      ensures s'.decided[s'.slots[i].session.value] == (if s'.slots[i].state == Connecting then [] else [Up])
    {
      SlotDecided(s, s', ch, i);
    }
    forall x: Session | x in s'.decided && !InSlot(s'.slots, x)
      ensures s'.decided[x] == [Down] || s'.decided[x] == [Up, Down]
    {
      SessionStays(s, s', ch, x);
      if InSlot(s.slots, x) {
        var i :| 0 <= i < |s.slots| && s.slots[i].session == Some(x);
      }
    }
    hide SlotsOk, SlotFacts, InSlot, ReportOf;
  }

  /** Who is being told changes only for the acting task's own session. */
  lemma TellersOf(s: System, step: Step, s': System, ch: Change, x: Session)
    requires TasksOk(s) && Facts(s, step, s', ch)
    ensures step.GiveUp? && s.tasks[step.t].session == x ==> TellingTo(s', x)
    ensures step.Tell? && s.tasks[step.t].cb == x ==> TellingTo(s, x) && !TellingTo(s', x)
    ensures !(step.GiveUp? && s.tasks[step.t].session == x) && !(step.Tell? && s.tasks[step.t].cb == x) ==>
              (TellingTo(s', x) <==> TellingTo(s, x))
  {
    hide TaskHas, SlotFacts, DecidedFacts, ToldFacts, LinkFacts;
    if step.GiveUp? {
      assert s'.tasks[step.t] == Telling(s.tasks[step.t].session);
    }
    if TellingTo(s, x) {
      var t :| t in s.tasks && s.tasks[t] == Telling(x);
      assert step == Tell(t) || (t in s'.tasks && s'.tasks[t] == Telling(x));
    }
    if TellingTo(s', x) {
      var t :| t in s'.tasks && s'.tasks[t] == Telling(x);
      assert step == GiveUp(t) || (t in s.tasks && s.tasks[t] == Telling(x));
      assert step.Tell? ==> t in s.tasks && t != step.t && SessionOf(s.tasks[t]) != SessionOf(s.tasks[step.t]);
    }
  }

  lemma TellingBounded(s: System, x: Session)
    requires Inv(s) && TellingTo(s, x)
    ensures x < s.nextSession && !InSlot(s.slots, x) && !HostOwes(s, x)
  {
    hide InSlot, SlotsOk, ClientsOk, TaskHas;
    var u :| u in s.tasks && s.tasks[u] == Telling(x);
    assert SessionOf(s.tasks[u]) < s.nextSession;
  }

  /** The session a failed issue gives up: nothing has been decided for it before. */
  lemma GivenUp(s: System, step: Step, s': System, ch: Change)
    requires Inv(s) && step.GiveUp? && Facts(s, step, s', ch)
    ensures ReportOf(s.slots, ch) == Some((s.tasks[step.t].session, Down))
    ensures s.tasks[step.t].session in s.decided && s.decided[s.tasks[step.t].session] == []
    ensures s.told[s.tasks[step.t].session] == [] && !HostOwes(s, s.tasks[step.t].session)
    ensures !TellingTo(s, s.tasks[step.t].session)
  {
    assert TaskHas(s, s.tasks[step.t]);
    var x := s.tasks[step.t].session;
    assert s.told[x] + Owed(s, x) == [];
    hide SlotsOk, ClientsOk, TasksOk;
  }

  /** One report is decided, or one is delivered, or neither. */
  ghost predicate Moves(told: seq<Report>, owed: seq<Report>, decided: seq<Report>,
                        told': seq<Report>, owed': seq<Report>, decided': seq<Report>) {
    || (told' == told && owed' == owed && decided' == decided)
    || (told' == told && owed == [] && decided' == decided + owed')
    || (told' == told + owed && owed' == [] && decided' == decided)
  }

  lemma Balanced(told: seq<Report>, owed: seq<Report>, decided: seq<Report>,
                 told': seq<Report>, owed': seq<Report>, decided': seq<Report>)
    requires told + owed == decided && Moves(told, owed, decided, told', owed', decided')
    ensures told' + owed' == decided'
  {
    assert owed == [] ==> told == decided;
    assert owed' == [] ==> told' + owed' == told';
  }

  lemma GiveUpMoves(s: System, step: Step, s': System, ch: Change, x: Session)
    requires Inv(s) && Facts(s, step, s', ch) && x in s.decided && step.GiveUp?
    ensures x in s'.decided && x in s'.told
    ensures Moves(s.told[x], Owed(s, x), s.decided[x], s'.told[x], Owed(s', x), s'.decided[x])
  {
    ReportFacts(s, s', ch);
    TellersOf(s, step, s', ch, x);
    GivenUp(s, step, s', ch);
    assert x in s.told && s'.told == s.told && s'.host == s.host;
    hide SlotsOk, ClientsOk, TasksOk, DecidedOk, ToldOk, InSlot, TellingTo, ReportOf,
         SlotFacts, TaskFacts, LinkFacts, DecidedFacts, ToldFacts, Decide;
  }

  lemma HostMoves(s: System, step: Step, s': System, ch: Change, x: Session)
    requires Inv(s) && Facts(s, step, s', ch) && x in s.decided && (step.HostConnect? || step.HostEnd?)
    ensures x in s'.decided && x in s'.told
    ensures Moves(s.told[x], Owed(s, x), s.decided[x], s'.told[x], Owed(s', x), s'.decided[x])
  {
    hide SlotsOk, ClientsOk, TasksOk, DecidedOk, ToldOk, InSlot, TellingTo, ReportOf,
         SlotFacts, TaskFacts, LinkFacts, DecidedFacts, Decide;
    ReportFacts(s, s', ch);
    TellersOf(s, step, s', ch, x);
    ToldKnown(s, x);
    var report := ReportOf(s.slots, ch);
    SameWithoutReport(s, s', ch, x);
    if TellingTo(s, x) {
      TellingBounded(s, x);
    }
    hide Inv, Facts;
    if report.Some? && report.value.0 == x {
      assert Owed(s, x) == [] && Owed(s', x) == [report.value.1];
    } else {
      assert Owed(s', x) == Owed(s, x) && s'.decided[x] == s.decided[x];
    }
  }

  /** A known session has a list of delivered reports. */
  lemma ToldKnown(s: System, x: Session)
    requires Inv(s) && x in s.decided
    ensures x in s.told && x < s.nextSession
  {
    hide SlotsOk, ClientsOk, TasksOk, Owed;
  }

  /** A step that decides nothing for a session leaves what was decided for it. */
  lemma SameWithoutReport(s: System, s': System, ch: Change, x: Session)
    requires SlotsOk(s.slots) && DecidedOk(s) && SlotFacts(s, s', ch) && DecidedFacts(s, s', ch) && x in s.decided
    ensures x in s'.decided
    ensures (ReportOf(s.slots, ch).Some? ==> ReportOf(s.slots, ch).value.0 != x) ==> s'.decided[x] == s.decided[x]
  {
    ReportFacts(s, s', ch);
    assert x < s.nextSession;
    hide SlotsOk, DecidedOk, SlotFacts, ReportOf, InSlot;
  }

  lemma TellingMoves(s: System, step: Step, s': System, ch: Change, x: Session)
    requires Inv(s) && Facts(s, step, s', ch) && x in s.decided
    requires !step.GiveUp? && !step.HostConnect? && !step.HostEnd?
    ensures x in s'.decided && x in s'.told
    ensures Moves(s.told[x], Owed(s, x), s.decided[x], s'.told[x], Owed(s', x), s'.decided[x])
  {
    hide SlotsOk, ClientsOk, TasksOk, DecidedOk, ToldOk, InSlot, TellingTo, SlotFacts, TaskFacts, LinkFacts, DecidedFacts, Decide;
    SameWithoutReport(s, s', ch, x);
    assert ReportOf(s.slots, ch) == None;
    TellersOf(s, step, s', ch, x);
    ToldKnown(s, x);
    if TellingTo(s, x) {
      TellingBounded(s, x);
    }
    hide Inv, Facts, ReportOf;
    assert !step.Tell? && !step.HostTell? ==> s'.told[x] == s.told[x] && Owed(s', x) == Owed(s, x);
  }

  lemma OwedBalance(s: System, step: Step, s': System, ch: Change, x: Session)
    requires Inv(s) && Facts(s, step, s', ch) && x in s'.decided
    ensures x in s'.told && s'.told[x] + Owed(s', x) == s'.decided[x]
  {
    ReportFacts(s, s', ch);
    hide SlotsOk, ClientsOk, TaskHas, TellingTo, InSlot, Moves, Decide;
    if x in s.decided {
      if step.GiveUp? {
        GiveUpMoves(s, step, s', ch, x);
      } else if step.HostConnect? || step.HostEnd? {
        HostMoves(s, step, s', ch, x);
      } else {
        TellingMoves(s, step, s', ch, x);
      }
      assert s.told[x] + Owed(s, x) == s.decided[x];
      Balanced(s.told[x], Owed(s, x), s.decided[x], s'.told[x], Owed(s', x), s'.decided[x]);
    } else {
      NewSession(s, step, s', ch, x);
    }
  }

  lemma NewSession(s: System, step: Step, s': System, ch: Change, x: Session)
    requires Inv(s) && Facts(s, step, s', ch) && x in s'.decided && x !in s.decided
    ensures x in s'.told && s'.told[x] == [] && Owed(s', x) == [] && s'.decided[x] == []
  {
    ReportFacts(s, s', ch);
    TellersOf(s, step, s', ch, x);
    if TellingTo(s, x) {
      TellingBounded(s, x);
    }
    hide SlotsOk, ClientsOk, TasksOk, TellingTo, InSlot, ReportOf, SlotFacts, LinkFacts, Decide;
    assert ch.Opened? && x == s.nextSession;
  }

  /** Whom the host owes a report after a step: as before, or the one whose report the step decided. */
  lemma HostAfter(s: System, step: Step, s': System, ch: Change, x: Session)
    requires Facts(s, step, s', ch) && HostOwes(s', x)
    ensures HostOwes(s, x) || (!step.GiveUp? && ReportOf(s.slots, ch).Some? && ReportOf(s.slots, ch).value.0 == x)
  {
    hide SlotFacts, DecidedFacts, LinkFacts, ReportOf;
  }

  lemma OldTellerApart(s: System, step: Step, s': System, ch: Change, x: Session)
    requires Inv(s) && Facts(s, step, s', ch) && TellingTo(s, x)
    ensures !InSlot(s'.slots, x) && !HostOwes(s', x)
  {
    hide SlotsOk, ClientsOk, TasksOk, DecidedOk, ToldOk, InSlot, TellingTo, ReportOf;
    hide SlotFacts, DecidedFacts, LinkFacts, ToldFacts, HostOwes;
    TellingBounded(s, x);
    SessionStays(s, s', ch, x);
    ReportFacts(s, s', ch);
    if HostOwes(s', x) {
      HostAfter(s, step, s', ch, x);
    }
  }

  lemma NewTellerApart(s: System, step: Step, s': System, ch: Change)
    requires Inv(s) && Facts(s, step, s', ch) && step.GiveUp?
    ensures var x := s.tasks[step.t].session; !InSlot(s'.slots, x) && !HostOwes(s', x)
  {
    hide SlotsOk, ClientsOk, TasksOk, DecidedOk, ToldOk, InSlot, TellingTo, ReportOf;
    hide SlotFacts, DecidedFacts, LinkFacts, ToldFacts, HostOwes;
    var x := s.tasks[step.t].session;
    GivenUp(s, step, s', ch);
    SessionStays(s, s', ch, x);
    if HostOwes(s', x) {
      HostAfter(s, step, s', ch, x);
    }
  }

  lemma TellersApart(s: System, step: Step, s': System, ch: Change, x: Session)
    requires Inv(s) && Facts(s, step, s', ch) && TellingTo(s', x)
    ensures !InSlot(s'.slots, x) && !HostOwes(s', x)
  {
    TellersOf(s, step, s', ch, x);
    hide SlotsOk, ClientsOk, TasksOk, DecidedOk, ToldOk, InSlot, TellingTo, HostOwes, Facts;
    if TellingTo(s, x) {
      OldTellerApart(s, step, s', ch, x);
    } else {
      NewTellerApart(s, step, s', ch);
    }
  }

  lemma DecidedKeys(s: System, s': System, ch: Change)
    requires SlotsOk(s.slots) && DecidedOk(s) && SlotFacts(s, s', ch) && DecidedFacts(s, s', ch)
    ensures s'.decided.Keys == if ch.Opened? then s.decided.Keys + {s.nextSession} else s.decided.Keys
  {
    ReportFacts(s, s', ch);
    hide SlotsOk, DecidedOk, SlotFacts, ReportOf, Decide, InSlot;
  }

  lemma ToldKeys(s: System, step: Step, s': System, ch: Change)
    requires ToldFacts(s, s', step, ch) && (ch.Opened? ==> step.Connect?)
    ensures s'.told.Keys == if ch.Opened? then s.told.Keys + {s.nextSession} else s.told.Keys
  {
    hide ReportOf;
  }

  lemma KeysTold(s: System, step: Step, s': System, ch: Change)
    requires Inv(s) && Facts(s, step, s', ch)
    ensures s'.told.Keys == s'.decided.Keys
    ensures s'.host.Some? ==> s'.host.value.0 in s'.decided
  {
    hide SlotsOk, ClientsOk, TasksOk, DecidedOk, InSlot, ReportOf, SlotFacts, TaskFacts, LinkFacts, DecidedFacts, Decide, Owed;
    ReportFacts(s, s', ch);
    DecidedKeys(s, s', ch);
    ToldKeys(s, step, s', ch);
    assert s.told.Keys == s.decided.Keys && (s.host.Some? ==> s.host.value.0 in s.decided.Keys);
    hide Inv, ToldOk;
  }

  lemma KeepTold(s: System, step: Step, s': System, ch: Change)
    requires Inv(s) && Facts(s, step, s', ch) && TasksOk(s') && DecidedOk(s')
    ensures ToldOk(s')
  {
    hide Inv, Facts, TellingTo, InSlot, HostOwes, Owed, TaskHas;
    KeysTold(s, step, s', ch);
    forall x: Session | x in s'.decided
      ensures s'.told[x] + Owed(s', x) == s'.decided[x]
    {
      OwedBalance(s, step, s', ch, x);
    }
    forall t | t in s'.tasks && s'.tasks[t].Telling?
      ensures !InSlot(s'.slots, s'.tasks[t].cb) && !HostOwes(s', s'.tasks[t].cb)
    {
      IsTelling(s', t);
      TellersApart(s, step, s', ch, s'.tasks[t].cb);
    }
  }

  lemma IsTelling(s: System, t: TaskId)
    requires t in s.tasks && s.tasks[t].Telling?
    ensures TellingTo(s, s.tasks[t].cb)
  {
  }

  lemma SessionsBounded(s: System)
    requires DecidedOk(s)
    ensures forall i :: 0 <= i < |s.slots| && s.slots[i].session.Some? ==> s.slots[i].session.value < s.nextSession
  {
  }

  lemma StepInv(s: System, step: Step, s': System)
    requires Inv(s) && Next(s, step, s')
    ensures Inv(s')
  {
    hide SlotsOk, DecidedOk, TasksOk, ToldOk, Next, Owns;
    var ch := StepFacts(s, step, s');
    KeepClients(s, step, s', ch);
    KeepTasks(s, step, s', ch);
    KeepDecided(s, s', ch);
    SessionsBounded(s);
    KeepSlots(s, s', ch);
    KeepTold(s, step, s', ch);
  }

  lemma RunStep(states: seq<System>, steps: seq<Step>, i: nat)
    requires IsRun(states, steps) && i + 1 < |states|
    ensures i < |steps| && Next(states[i], steps[i], states[i + 1])
  {
  }

  lemma {:induction false} RunInv(states: seq<System>, steps: seq<Step>, i: nat)
    requires IsRun(states, steps) && i < |states| && states[0] == INIT
    ensures Inv(states[i])
  {
    if i == 0 {
      InitInv();
    } else {
      hide *;
      RunInv(states, steps, i - 1);
      RunStep(states, steps, i - 1);
      StepInv(states[i - 1], steps[i - 1], states[i]);
    }
  }

  // --------------------------------------------------------------- theorems

  /** In every reachable state of every run, addresses in use are distinct, clients
      are distinct, and free slots and listed addresses account for all four. */
  lemma PoolSafety(states: seq<System>, steps: seq<Step>, i: nat)
    requires IsRun(states, steps) && i < |states| && states[0] == INIT
    ensures SlotsOk(states[i].slots)
    ensures CountFree(states[i].slots) + |InUse(states[i].slots)| == MAX_CONNECTIONS
  {
    RunInv(states, steps, i);
    SlotsAccountedFor(states[i].slots);
    hide CountFree, InUse;
  }

  lemma ReportShape(s: System, x: Session)
    requires Inv(s) && x < s.nextSession
    ensures x in s.told && x in s.decided
    ensures s.told[x] == [] || s.told[x] == [Up] || s.told[x] == [Up, Down] || s.told[x] == [Down]
    ensures Down in s.decided[x] <==> !InSlot(s.slots, x)
    ensures Down in s.told[x] ==> s.told[x] == s.decided[x]
  {
    hide SlotsOk, ClientsOk, TasksOk, TellingTo, HostOwes;
    var d, t, o := s.decided[x], s.told[x], Owed(s, x);
    assert t + o == d && |o| <= 1;
    if InSlot(s.slots, x) {
      var k :| 0 <= k < |s.slots| && s.slots[k].session == Some(x);
    }
    assert d == [] || d == [Up] || d == [Down] || d == [Up, Down];
    hide DecidedOk, ToldOk, Owed, InSlot;
    Shapes(d, t, o);
  }

  lemma Shapes(d: seq<Report>, t: seq<Report>, o: seq<Report>)
    requires t + o == d && |o| <= 1
    requires d == [] || d == [Up] || d == [Down] || d == [Up, Down]
    ensures t == [] || t == [Up] || t == [Up, Down] || t == [Down]
    ensures Down in t ==> t == d
  {
    assert t == d[..|t|];
    if |o| == 0 {
      assert t == d;
    }
  }

  /** The reports an accepted connect has received are always a beginning of
      [connected, disconnected], or exactly [disconnected]; the disconnected report
      is decided exactly when the session has given up its slot, and is the last. */
  lemma ReportsOfAConnect(states: seq<System>, steps: seq<Step>, i: nat, x: Session)
    requires IsRun(states, steps) && i < |states| && states[0] == INIT
    requires x < states[i].nextSession
    ensures x in states[i].told && x in states[i].decided
    ensures states[i].told[x] == [] || states[i].told[x] == [Up]
            || states[i].told[x] == [Up, Down] || states[i].told[x] == [Down]
    ensures Down in states[i].decided[x] <==> !InSlot(states[i].slots, x)
    ensures Down in states[i].told[x] ==> states[i].told[x] == states[i].decided[x]
  {
    RunInv(states, steps, i);
    ReportShape(states[i], x);
  }

  /** A slot becomes free in the same step that decides its session's one
      disconnected report. */
  lemma FreedWithItsReport(s: System, step: Step, s': System, k: nat)
    requires Inv(s) && Next(s, step, s') && k < |s.slots| && k < |s'.slots|
    requires s.slots[k].state != Free && s'.slots[k].state == Free
    ensures s.slots[k].session.Some?
    ensures var x := s.slots[k].session.value;
            && x in s.decided && Down !in s.decided[x]
            && x in s'.decided && s'.decided[x] == s.decided[x] + [Down]
  {
    hide ClientsOk, TasksOk, ToldOk, Next, Decide;
    var ch := StepFacts(s, step, s');
    assert ch == Closed(k);
    ReportFacts(s, s', ch);
    hide DecidedFacts, ToldFacts, TaskFacts, LinkFacts;
  }

  lemma StepFinal(s: System, step: Step, s': System, x: Session)
    requires Inv(s) && Next(s, step, s') && x in s.decided && Down in s.decided[x]
    ensures x in s'.decided && s'.decided[x] == s.decided[x]
  {
    ReportShape(s, x);
    var ch := StepFacts(s, step, s');
    ReportFacts(s, s', ch);
    hide Next, Decide, ReportOf, TasksOk, ClientsOk, ToldOk, SlotsOk, InSlot;
  }

  /** Nothing is decided for a session after its disconnected report. */
  lemma {:induction false} DecidedIsFinal(states: seq<System>, steps: seq<Step>, i: nat, j: nat, x: Session)
    requires IsRun(states, steps) && i <= j < |states| && states[0] == INIT
    requires x in states[i].decided && Down in states[i].decided[x]
    ensures x in states[j].decided && states[j].decided[x] == states[i].decided[x]
    decreases j
  {
    hide *;
    if i < j {
      DecidedIsFinal(states, steps, i, j - 1, x);
      RunInv(states, steps, j - 1);
      RunStep(states, steps, j - 1);
      StepFinal(states[j - 1], steps[j - 1], states[j], x);
    }
  }

  /** Once no task is inside `connect` and the host task is idle, every session has
      received everything decided for it. */
  lemma QuietMeansTold(states: seq<System>, steps: seq<Step>, i: nat)
    requires IsRun(states, steps) && i < |states| && states[0] == INIT
    requires states[i].host == None && states[i].tasks == map[]
    ensures states[i].told == states[i].decided
  {
    RunInv(states, steps, i);
    var s := states[i];
    hide SlotsOk, ClientsOk, TasksOk, DecidedOk;
    forall x: Session | x in s.decided
      ensures s.told[x] == s.decided[x]
    {
      assert Owed(s, x) == [];
    }
  }

  // ------------------------------------------------------------ the reports are the events

  /** The step brings up the link of the session: a connect event for the client of its slot, while
      that slot is connecting. */
  predicate BringsUp(s: System, step: Step, x: Session) {
    step.HostConnect? && exists k :: 0 <= k < |s.slots| && s.slots[k].session == Some(x)
                                     && s.slots[k].client == Some(step.c) && s.slots[k].state == Connecting
  }

  /** The step ends the session: an end event for the client of its slot, or its attempt not issued. */
  predicate EndsIt(s: System, step: Step, x: Session) {
    || (step.HostEnd? && exists k :: 0 <= k < |s.slots| && s.slots[k].session == Some(x)
                                     && s.slots[k].client == Some(step.c))
    || (step.GiveUp? && step.t in s.tasks && s.tasks[step.t].NotIssued? && s.tasks[step.t].session == x)
  }

  lemma EventsOf(s: System, step: Step, x: Session)
    requires SlotsOk(s.slots) && TasksOk(s) && Enabled(s, step)
    ensures ReportOf(s.slots, ChangeOf(s, step)) == Some((x, Up)) <==> BringsUp(s, step, x)
    ensures ReportOf(s.slots, ChangeOf(s, step)) == Some((x, Down)) <==> EndsIt(s, step, x)
  {
    hide FindFree, FindAddress, Accepts;
    match step {
      case HostConnect(c) => ClientSlot(s.slots, c);
      case HostEnd(c) => ClientSlot(s.slots, c);
      case GiveUp(t) => assert TaskHas(s, s.tasks[t]);
      case _ =>
    }
  }

  /** The slot of a client is the one that is found. */
  lemma ClientSlot(slots: seq<Slot>, c: ClientId)
    requires SlotsOk(slots)
    ensures forall k :: 0 <= k < |slots| && slots[k].client == Some(c) ==> k == FindClient(slots, c, 0)
  {
    var f := FindClient(slots, c, 0);
    forall k | 0 <= k < |slots| && slots[k].client == Some(c) ensures k == f {
      assert f <= k;
    }
  }

  /** Each event decides its report, and nothing else does. */
  lemma EventDecides(s: System, step: Step, s': System, x: Session)
    requires Inv(s) && Next(s, step, s') && x in s.decided
    ensures x in s'.decided
    ensures s'.decided[x] ==
            s.decided[x] + if BringsUp(s, step, x) then [Up] else if EndsIt(s, step, x) then [Down] else []
  {
    hide ClientsOk, ToldOk, SlotFacts, ToldFacts, TaskFacts, LinkFacts, DecidedFacts, ReportOf, SlotsOk, DecidedOk, TasksOk;
    FactsOf(s, step, s');
    var ch := ChangeOf(s, step);
    EventsOf(s, step, x);
    ReportFacts(s, s', ch);
    SameWithoutReport(s, s', ch, x);
    hide Inv, Facts, Next, ChangeOf, BringsUp, EndsIt, InSlot, Enabled;
    var report := ReportOf(s.slots, ch);
    assert s.decided[x] + [] == s.decided[x];
    if report.Some? && report.value.0 == x {
      var (y, r) := report.value;
      assert r == Up || r == Down;
      assert report == Some((x, r));
    } else {
      assert report != Some((x, Up)) && report != Some((x, Down));
    }
  }

  lemma FactsOf(s: System, step: Step, s': System)
    requires Inv(s) && Next(s, step, s')
    ensures Facts(s, step, s', ChangeOf(s, step))
  {
    hide Facts, Apply, SlotsOk, ClientsOk, TasksOk, DecidedOk, ToldOk, Enabled, ChangeOf;
    match step {
      case Connect(_, _, _) => ConnectFacts(s, step, s');
      case GiveUp(_) => GiveUpFacts(s, step, s');
      case HostConnect(_) => HostFacts(s, step, s');
      case HostEnd(_) => HostFacts(s, step, s');
      case _ => OtherFacts(s, step, s');
    }
  }

  /** What has happened to a session by step `i`: its events, in order. */
  ghost function Happened(states: seq<System>, steps: seq<Step>, i: nat, x: Session): seq<Report>
    requires i <= |steps| && i <= |states|
  {
    if i == 0 then []
    else
      Happened(states, steps, i - 1, x)
      + if BringsUp(states[i - 1], steps[i - 1], x) then [Up]
        else if EndsIt(states[i - 1], steps[i - 1], x) then [Down] else []
  }

  /** Over every run the reports decided for a session are exactly its events. */
  lemma {:induction false} ReportsAreTheEvents(states: seq<System>, steps: seq<Step>, i: nat, x: Session)
    requires IsRun(states, steps) && i < |states| && states[0] == INIT
    ensures i <= |steps|
    ensures (if x in states[i].decided then states[i].decided[x] else []) == Happened(states, steps, i, x)
  {
    if i > 0 {
      ReportsAreTheEvents(states, steps, i - 1, x);
      RunInv(states, steps, i - 1);
      var s, step, s' := states[i - 1], steps[i - 1], states[i];
      assert Next(s, step, s');
      hide IsRun, Inv, Next, BringsUp, EndsIt;
      if x in s.decided {
        EventDecides(s, step, s', x);
      } else {
        NotYetOpen(s, step, s', x);
      }
    }
  }

  lemma NotYetOpen(s: System, step: Step, s': System, x: Session)
    requires Inv(s) && Next(s, step, s') && x !in s.decided
    ensures !BringsUp(s, step, x) && !EndsIt(s, step, x)
    ensures x in s'.decided ==> s'.decided[x] == []
  {
    hide ClientsOk, ToldOk, SlotFacts, ToldFacts, TaskFacts, LinkFacts;
    FactsOf(s, step, s');
    ReportFacts(s, s', ChangeOf(s, step));
    EventsOf(s, step, x);
    hide SlotsOk, TasksOk, BringsUp, EndsIt, ChangeOf, ReportOf, Decide, InSlot;
  }

  /** A connect is accepted exactly when some slot is free and no held slot has the address. It then has
      a session of its own in a slot that was free, for its address, and its task goes on to issue the
      attempt; otherwise nothing changes. */
  lemma AcceptedConnect(s: System, step: Step, s': System)
    requires Inv(s) && Next(s, step, s') && step.Connect?
    ensures var accepted := (exists k :: 0 <= k < |s.slots| && s.slots[k].state == Free)
                            && forall k :: 0 <= k < |s.slots| && s.slots[k].state != Free ==> s.slots[k].address != step.a;
            if accepted then
              && s'.nextSession == s.nextSession + 1
              && exists k :: 0 <= k < |s.slots| && s.slots[k].state == Free && Opens(s, step, s', k)
            else s' == s
  {
    hide Inv, SlotsOk;
    var f := FindFree(s.slots, 0);
    var g := FindAddress(s.slots, step.a, 0);
    if f < |s.slots| && g == |s.slots| {
      assert forall k :: 0 <= k < |s.slots| && s.slots[k].state != Free ==> !Holds(s.slots[k], step.a);
      assert Opens(s, step, s', f);
    } else if g < |s.slots| {
      assert Holds(s.slots[g], step.a);
    }
  }

  ghost predicate Opens(s: System, step: Step, s': System, k: nat)
    requires step.Connect?
  {
    && k < |s'.slots| == |s.slots|
    && s'.slots[k].state == Connecting && s'.slots[k].address == step.a && s'.slots[k].addressType == step.addressType
    && s'.slots[k].session == Some(s.nextSession) && s'.slots[k].client.Some?
    && (forall j :: 0 <= j < |s.slots| && j != k ==> s'.slots[j] == s.slots[j])
    && step.t in s'.tasks && s'.tasks[step.t] == Issuing(k, s'.slots[k].client.value, s.nextSession)
  }

  /** An attempt that was issued is outstanding, and its task is done; one that was not is given up. */
  lemma IssuedIsOutstanding(s: System, step: Step, s': System)
    requires Next(s, step, s') && step.Issue?
    ensures s'.slots == s.slots
    ensures step.ok ==> s'.outstanding == s.outstanding + {s.tasks[step.t].client} && step.t !in s'.tasks
    ensures !step.ok ==> s'.outstanding == s.outstanding && step.t in s'.tasks && s'.tasks[step.t].NotIssued?
                         && s'.tasks[step.t].session == s.tasks[step.t].session
  {
  }

  /** A request to disconnect turns the connected slot of the address to disconnecting, and does
      nothing else. */
  lemma DisconnectAsks(s: System, step: Step, s': System, k: nat)
    requires Inv(s) && Next(s, step, s') && step.Disconnect? && k < |s.slots|
    ensures s' == s.(slots := s'.slots) && |s'.slots| == |s.slots|
    ensures s'.slots[k] ==
            if s.slots[k].state == Connected && s.slots[k].address == step.a
            then s.slots[k].(state := Disconnecting) else s.slots[k]
  {
    hide FindAddress, SlotsOk, ClientsOk, TasksOk, DecidedOk, ToldOk;
    AddressSlot(s.slots, step.a);
  }

  /** The slot of an address is the one that is found. */
  lemma AddressSlot(slots: seq<Slot>, a: Address)
    requires SlotsOk(slots)
    ensures forall k :: 0 <= k < |slots| && Holds(slots[k], a) ==> k == FindAddress(slots, a, 0)
  {
    var f := FindAddress(slots, a, 0);
    forall k | 0 <= k < |slots| && Holds(slots[k], a) ensures k == f {
      assert f <= k;
    }
  }

  // -------------------------------------------------------------------- nobody is stuck

  predicate CanGoOn(s: System, t: TaskId)
    requires t in s.tasks
  {
    match s.tasks[t]
    case Issuing(_, _, _) => Enabled(s, Issue(t, true)) && Enabled(s, Issue(t, false))
    case NotIssued(_, _) => Enabled(s, GiveUp(t))
    case Telling(_) => Enabled(s, Tell(t))
  }

  lemma TaskCanGoOn(s: System, t: TaskId)
    requires t in s.tasks && TaskHas(s, s.tasks[t]) && s.told.Keys == s.decided.Keys
    ensures CanGoOn(s, t)
  {
  }

  lemma ToldOfDecided(s: System)
    requires Inv(s)
    ensures s.told.Keys == s.decided.Keys && (s.host.Some? ==> s.host.value.0 in s.decided)
    ensures forall t :: t in s.tasks ==> TaskHas(s, s.tasks[t])
  {
    hide SlotsOk, ClientsOk, DecidedOk, TaskHas, Owed, InSlot, HostOwes;
  }

  /** Whoever is under way can go on, and a connect or a disconnect can come at any time. */
  lemma NobodyIsStuck(states: seq<System>, steps: seq<Step>, i: nat, t: TaskId, c: ClientId, a: Address, kind: nat)
    requires IsRun(states, steps) && i < |states| && states[0] == INIT
    ensures t in states[i].tasks ==> CanGoOn(states[i], t)
    ensures t !in states[i].tasks ==> Enabled(states[i], Connect(t, a, kind))
    ensures states[i].host.Some? ==> Enabled(states[i], HostTell)
    ensures states[i].host == None && c in states[i].outstanding ==>
              Enabled(states[i], HostConnect(c)) && Enabled(states[i], HostEnd(c))
    ensures Enabled(states[i], Step.Disconnect(a))
  {
    var s := states[i];
    RunInv(states, steps, i);
    ToldOfDecided(s);
    hide *;
    if t in s.tasks {
      TaskCanGoOn(s, t);
    }
    OthersCanGoOn(s, t, c, a, kind);
  }

  lemma OthersCanGoOn(s: System, t: TaskId, c: ClientId, a: Address, kind: nat)
    requires s.told.Keys == s.decided.Keys && (s.host.Some? ==> s.host.value.0 in s.decided)
    ensures t !in s.tasks ==> Enabled(s, Connect(t, a, kind))
    ensures s.host.Some? ==> Enabled(s, HostTell)
    ensures s.host == None && c in s.outstanding ==> Enabled(s, HostConnect(c)) && Enabled(s, HostEnd(c))
    ensures Enabled(s, Step.Disconnect(a))
  {
  }

  /** A task between its claim and its issue has slot `k`. */
  ghost predicate TaskAt(s: System, t: TaskId, k: nat) {
    t in s.tasks && !s.tasks[t].Telling? && s.tasks[t].at == k
  }

  /** Somebody will still decide about slot `k`: a task in `connect`, or the host for its client. */
  ghost predicate Supported(s: System, k: nat) {
    k < |s.slots| && s.slots[k].state != Free ==>
      || (s.slots[k].client.Some? && s.slots[k].client.value in s.outstanding)
      || exists t :: TaskAt(s, t, k)
  }

  /** What keeps slot `k` supported: its client stays, and neither its task nor its link goes. */
  ghost predicate Carried(s: System, s': System, k: nat) {
    && |s'.slots| == |s.slots|
    && (k < |s.slots| && s'.slots[k].state != Free ==>
          && s.slots[k].state != Free && s'.slots[k].client == s.slots[k].client
          && (s.slots[k].client.Some? && s.slots[k].client.value in s.outstanding ==>
                s.slots[k].client.value in s'.outstanding)
          && forall t :: TaskAt(s, t, k) ==> TaskAt(s', t, k))
  }

  lemma CarriedKeeps(s: System, s': System, k: nat)
    requires Supported(s, k) && Carried(s, s', k)
    ensures Supported(s', k)
  {
    hide TaskAt;
  }

  lemma ClaimedIsSupported(s: System, step: Step, k: nat)
    requires step.Connect? && Enabled(s, step) && Supported(s, k)
    ensures Supported(Apply(s, step), k)
  {
    var s' := Apply(s, step);
    if s' != s && k == FindFree(s.slots, 0) {
      assert TaskAt(s', step.t, k);
    } else {
      assert Carried(s, s', k);
      CarriedKeeps(s, s', k);
    }
  }

  lemma IssuedIsSupported(s: System, step: Step, k: nat)
    requires step.Issue? && Enabled(s, step) && Supported(s, k) && TaskHas(s, s.tasks[step.t])
    ensures Supported(Apply(s, step), k)
  {
    var s' := Apply(s, step);
    if s.tasks[step.t].at == k {
      assert !step.ok ==> TaskAt(s', step.t, k);
    } else {
      assert Carried(s, s', k);
      CarriedKeeps(s, s', k);
    }
  }

  lemma GivenUpIsCarried(s: System, step: Step, k: nat)
    requires (step.GiveUp? || step.Tell?) && Enabled(s, step)
    ensures Carried(s, Apply(s, step), k)
  {
    hide Decide;
  }

  lemma EndIsCarried(s: System, c: ClientId, k: nat)
    requires SlotsOk(s.slots) && ClientsOk(s) && Enabled(s, HostEnd(c))
    ensures Carried(s, Apply(s, HostEnd(c)), k)
  {
    hide Decide, FindClient;
    var f := FindClient(s.slots, c, 0);
    if k < |s.slots| && k != f {
      assert s.slots[k].client != Some(c) by {
        assert f < |s.slots| ==> s.slots[f].client == Some(c);
      }
    }
  }

  lemma OthersAreCarried(s: System, step: Step, k: nat)
    requires Enabled(s, step) && (step.HostConnect? || step.HostTell? || step.Disconnect?)
    ensures Carried(s, Apply(s, step), k)
  {
    hide Decide;
  }

  lemma SupportedStep(s: System, step: Step, s': System, k: nat)
    requires Inv(s) && Next(s, step, s') && Supported(s, k)
    ensures Supported(s', k)
  {
    hide Carried, Supported, Apply, TaskHas, SlotsOk, ClientsOk, DecidedOk, ToldOk;
    match step {
      case Connect(_, _, _) => ClaimedIsSupported(s, step, k);
      case Issue(_, _) => IssuedIsSupported(s, step, k);
      case HostEnd(c) => EndIsCarried(s, c, k); CarriedKeeps(s, s', k);
      case GiveUp(_) => GivenUpIsCarried(s, step, k); CarriedKeeps(s, s', k);
      case Tell(_) => GivenUpIsCarried(s, step, k); CarriedKeeps(s, s', k);
      case _ => OthersAreCarried(s, step, k); CarriedKeeps(s, s', k);
    }
  }

  lemma NothingHeldAtFirst(k: nat)
    ensures Supported(INIT, k)
  {
  }

  /** No slot is ever lost: in every reachable state, for each slot that is held, either the host can still
      end its link, as soon as it has told its last report, or a task in `connect` is about to issue or give
      it up. */
  lemma {:induction false} NoSlotIsLost(states: seq<System>, steps: seq<Step>, i: nat, k: nat)
    requires IsRun(states, steps) && i < |states| && states[0] == INIT
    ensures Supported(states[i], k)
  {
    hide *;
    if i == 0 {
      NothingHeldAtFirst(k);
    } else {
      NoSlotIsLost(states, steps, i - 1, k);
      RunStep(states, steps, i - 1);
      RunInv(states, steps, i - 1);
      SupportedStep(states[i - 1], steps[i - 1], states[i], k);
    }
  }
}
