/** Subscription counts: flags kept by each client's own task, shared atomic counters, and the
    switch that forwards advertisements, which is thrown in a step of its own. */
module Subscriptions {
  import opened Prelude

  // ----------------------------------------------------------- the handlers, run alone

  datatype Subs = Subs(adv: bool, free: bool)

  datatype Shared = Shared(advCount: int, freeCount: int, forwarding: bool)

  function Bit(b: bool): int {
    if b then 1 else 0
  }

  /** A client's flag and its share of a counter, moved together. */
  function SetAdv(g: Shared, was: bool, want: bool): Shared {
    if was == want then g
    else if want then Shared(g.advCount + 1, g.freeCount, g.forwarding || g.advCount == 0)
    else Shared(g.advCount - 1, g.freeCount, g.forwarding && g.advCount != 1)
  }

  function SetFree(g: Shared, was: bool, want: bool): Shared {
    g.(freeCount := g.freeCount + Bit(want) - Bit(was))
  }

  class Globals {
    var advCount: int
    var freeCount: int
    var forwarding: bool

    function View(): Shared
      reads this
    {
      Shared(advCount, freeCount, forwarding)
    }
  }

  class ClientSubs {
    var subAdv: bool
    var subFree: bool

    function View(): Subs
      reads this
    {
      Subs(subAdv, subFree)
    }

    method HandleSubscribeAdv(g: Globals)
      modifies this, g
      ensures View() == old(View()).(adv := true)
      ensures g.View() == SetAdv(old(g.View()), old(subAdv), true)
    {
      if !subAdv {
        subAdv := true;
        var before := g.advCount;
        g.advCount := g.advCount + 1;
        if before == 0 {
          g.forwarding := true;
        }
      }
    }

    method HandleUnsubscribeAdv(g: Globals)
      modifies this, g
      ensures View() == old(View()).(adv := false)
      ensures g.View() == SetAdv(old(g.View()), old(subAdv), false)
    {
      if subAdv {
        subAdv := false;
        var before := g.advCount;
        g.advCount := g.advCount - 1;
        if before == 1 {
          g.forwarding := false;
        }
      }
    }

    method HandleSubscribeFree(g: Globals)
      modifies this, g
      ensures View() == old(View()).(free := true)
      ensures g.View() == SetFree(old(g.View()), old(subFree), true)
    {
      if !subFree {
        subFree := true;
        g.freeCount := g.freeCount + 1;
      }
    }

    method OnClientDisconnect(g: Globals)
      modifies this, g
      ensures View() == Subs(false, false)
      ensures g.View() == SetFree(SetAdv(old(g.View()), old(subAdv), false), old(subFree), false)
    {
      HandleUnsubscribeAdv(g);
      if subFree {
        subFree := false;
        g.freeCount := g.freeCount - 1;
      }
    }
  }

  // ------------------------------------------------------------ the handlers, step by step

  /** Where a client's task stands: between messages, between its flag and the counter, between
      the counter and the switch, or on its way out. */
  datatype Pc = Ready | AdvInc | AdvStart | AdvDec | AdvStop | FreeInc | FreeDec | Unregister | LastLoad | LastStop | Gone

  datatype Client = Client(subs: Subs, pc: Pc, leaving: bool)

  datatype State = State(g: Shared, active: int, clients: seq<Client>)

  datatype Action = Connect | SubscribeAdv(c: nat) | UnsubscribeAdv(c: nat) | SubscribeFree(c: nat) | Leave(c: nat) | Advance(c: nat)

  predicate Enabled(s: State, a: Action) {
    match a
    case Connect => true
    case Advance(c) => c < |s.clients| && s.clients[c].pc != Gone && (s.clients[c].pc == Ready ==> s.clients[c].leaving)
    case _ => a.c < |s.clients| && s.clients[a.c].pc == Ready && !s.clients[a.c].leaving
  }

  function With(s: State, c: nat, k: Client): State
    requires c < |s.clients|
  {
    s.(clients := s.clients[c := k])
  }

  /** The next step of a task that is not waiting for a message. */
  function Next(s: State, c: nat): State
    requires c < |s.clients|
  {
    var k, g := s.clients[c], s.g;
    match k.pc
    case Ready =>
      if k.subs.adv then With(s, c, k.(subs := k.subs.(adv := false), pc := AdvDec))
      else if k.subs.free then With(s, c, k.(subs := k.subs.(free := false), pc := FreeDec))
      else With(s, c, k.(pc := Unregister))
    case AdvInc =>
      With(s.(g := g.(advCount := g.advCount + 1)), c, k.(pc := if g.advCount == 0 then AdvStart else Ready))
    case AdvStart => With(s.(g := g.(forwarding := true)), c, k.(pc := Ready))
    case AdvDec =>
      With(s.(g := g.(advCount := g.advCount - 1)), c, k.(pc := if g.advCount == 1 then AdvStop else Ready))
    case AdvStop => With(s.(g := g.(forwarding := false)), c, k.(pc := Ready))
    case FreeInc => With(s.(g := g.(freeCount := g.freeCount + 1)), c, k.(pc := Ready))
    case FreeDec => With(s.(g := g.(freeCount := g.freeCount - 1)), c, k.(pc := Ready))
    case Unregister => With(s.(active := s.active - 1), c, k.(pc := LastLoad))
    case LastLoad => With(s, c, k.(pc := if s.active == 0 then LastStop else Gone))
    case LastStop => With(s.(g := g.(forwarding := false)), c, k.(pc := Gone))
    case Gone => s
  }

  function Act(s: State, a: Action): State
    requires Enabled(s, a)
  {
    match a
    case Connect => s.(active := s.active + 1, clients := s.clients + [Client(Subs(false, false), Ready, false)])
    case SubscribeAdv(c) =>
      var k := s.clients[c];
      if k.subs.adv then s else With(s, c, k.(subs := k.subs.(adv := true), pc := AdvInc))
    case UnsubscribeAdv(c) =>
      var k := s.clients[c];
      if k.subs.adv then With(s, c, k.(subs := k.subs.(adv := false), pc := AdvDec)) else s
    case SubscribeFree(c) =>
      var k := s.clients[c];
      if k.subs.free then s else With(s, c, k.(subs := k.subs.(free := true), pc := FreeInc))
    case Leave(c) => With(s, c, s.clients[c].(leaving := true))
    case Advance(c) => Next(s, c)
  }

  const Start := State(Shared(0, 0, false), 0, [])

  predicate IsRun(run: seq<State>, acts: seq<Action>) {
    && |run| == |acts| + 1 && run[0] == Start
    && forall k :: 0 <= k < |acts| ==> Enabled(run[k], acts[k]) && run[k + 1] == Act(run[k], acts[k])
  }

  // --------------------------------------------------------------------- the counters

  /** What a client has in the advertisement counter: its flag, unless an update is in flight. */
  function AdvShare(k: Client): nat {
    if (k.subs.adv && k.pc != AdvInc) || k.pc == AdvDec then 1 else 0
  }

  function FreeShare(k: Client): nat {
    if (k.subs.free && k.pc != FreeInc) || k.pc == FreeDec then 1 else 0
  }

  predicate Registered(k: Client) {
    k.pc != LastLoad && k.pc != LastStop && k.pc != Gone
  }

  function AdvTotal(cs: seq<Client>): nat {
    if cs == [] then 0 else AdvTotal(cs[..|cs| - 1]) + AdvShare(cs[|cs| - 1])
  }

  function FreeTotal(cs: seq<Client>): nat {
    if cs == [] then 0 else FreeTotal(cs[..|cs| - 1]) + FreeShare(cs[|cs| - 1])
  }

  function RegisteredTotal(cs: seq<Client>): nat {
    if cs == [] then 0 else RegisteredTotal(cs[..|cs| - 1]) + Bit(Registered(cs[|cs| - 1]))
  }

  /** A client that is out, or past releasing its subscriptions, has nothing left anywhere; flags
      and places in the code go together. */
  predicate Tidy(k: Client) {
    && (k.pc in {Unregister, LastLoad, LastStop, Gone} ==> !k.subs.adv && !k.subs.free && k.leaving)
    && (k.pc in {AdvInc, AdvStart} ==> k.subs.adv)
    && (k.pc in {AdvDec, AdvStop} ==> !k.subs.adv)
    && (k.pc == FreeInc ==> k.subs.free)
    && (k.pc == FreeDec ==> !k.subs.free)
  }

  predicate Counted(s: State) {
    && s.g.advCount == AdvTotal(s.clients)
    && s.g.freeCount == FreeTotal(s.clients)
    && s.active == RegisteredTotal(s.clients)
    && forall k :: 0 <= k < |s.clients| ==> Tidy(s.clients[k])
  }

  lemma {:induction false} TotalsChange(cs: seq<Client>, c: nat, k: Client)
    requires c < |cs|
    ensures AdvTotal(cs[c := k]) == AdvTotal(cs) - AdvShare(cs[c]) + AdvShare(k)
    ensures FreeTotal(cs[c := k]) == FreeTotal(cs) - FreeShare(cs[c]) + FreeShare(k)
    ensures RegisteredTotal(cs[c := k]) == RegisteredTotal(cs) - Bit(Registered(cs[c])) + Bit(Registered(k))
    decreases |cs|
  {
    hide AdvShare, FreeShare, Registered;
    var n := |cs| - 1;
    if c < n {
      TotalsChange(cs[..n], c, k);
      assert cs[c := k][..n] == cs[..n][c := k];
    } else {
      assert cs[c := k][..n] == cs[..n];
    }
  }

  lemma {:induction false} SharesBound(cs: seq<Client>)
    requires forall k :: 0 <= k < |cs| ==> Tidy(cs[k])
    ensures AdvTotal(cs) <= RegisteredTotal(cs) && FreeTotal(cs) <= RegisteredTotal(cs) <= |cs|
  {
    if cs != [] {
      SharesBound(cs[..|cs| - 1]);
    }
  }

  lemma OneChanged(s: State, c: nat, t: State)
    requires Counted(s) && Balanced(s, c, t)
    ensures Counted(t)
  {
    TotalsChange(s.clients, c, t.clients[c]);
    hide AdvTotal, FreeTotal, RegisteredTotal, Tidy, AdvShare, FreeShare, Registered;
    forall k | 0 <= k < |t.clients| ensures Tidy(t.clients[k]) {
      assert k != c ==> t.clients[k] == s.clients[k];
    }
  }

  /** A client's step moves the counters by what its share changes. */
  predicate Balanced(s: State, c: nat, t: State) {
    && c < |s.clients| == |t.clients| && t.clients == s.clients[c := t.clients[c]]
    && Tidy(t.clients[c])
    && t.g.advCount - s.g.advCount == AdvShare(t.clients[c]) - AdvShare(s.clients[c])
    && t.g.freeCount - s.g.freeCount == FreeShare(t.clients[c]) - FreeShare(s.clients[c])
    && t.active - s.active == Bit(Registered(t.clients[c])) - Bit(Registered(s.clients[c]))
  }

  lemma NextBalanced(s: State, c: nat)
    requires Enabled(s, Advance(c)) && Tidy(s.clients[c])
    ensures Balanced(s, c, Next(s, c))
  {
    match s.clients[c].pc {
      case Ready =>
      case AdvInc =>
      case AdvDec =>
      case Unregister =>
      case _ =>
    }
  }

  lemma RequestBalanced(s: State, a: Action)
    requires Enabled(s, a) && a != Connect && !a.Advance? && Tidy(s.clients[a.c])
    ensures Balanced(s, a.c, Act(s, a))
  {
    match a {
      case SubscribeAdv(_) =>
      case UnsubscribeAdv(_) =>
      case _ =>
    }
  }

  lemma ActCounted(s: State, a: Action)
    requires Counted(s) && Enabled(s, a)
    ensures Counted(Act(s, a))
  {
    var t := Act(s, a);
    if a == Connect {
      assert t.clients[..|s.clients|] == s.clients;
    } else {
      assert Tidy(s.clients[a.c]);
      hide Counted, Tidy, Next;
      if a.Advance? {
        NextBalanced(s, a.c);
      } else {
        RequestBalanced(s, a);
      }
      OneChanged(s, a.c, t);
    }
  }

  /** At every step of every interleaving each counter is the number of set flags corrected by
      the updates in flight, and no more than the clients registered. */
  lemma {:induction false} CountersCount(run: seq<State>, acts: seq<Action>)
    requires IsRun(run, acts)
    ensures var s := run[|acts|];
            && Counted(s)
            && 0 <= s.g.advCount <= s.active && 0 <= s.g.freeCount <= s.active <= |s.clients|
  {
    var n := |acts| - 1;
    if acts != [] {
      CountersCount(run[..n + 1], acts[..n]);
      assert Enabled(run[n], acts[n]);
      ActCounted(run[n], acts[n]);
    }
    SharesBound(run[n + 1].clients);
  }

  // ------------------------------------------------------------------------ the switch

  predicate StopPending(s: State) {
    exists c :: 0 <= c < |s.clients| && s.clients[c].pc in {AdvStop, LastStop}
  }

  predicate StartPending(s: State) {
    exists c :: 0 <= c < |s.clients| && s.clients[c].pc == AdvStart
  }

  /** The counter is not raised while a stop is on its way. Handlers that run one at a time keep
      this, and so does much more. */
  predicate NoCrossing(s: State, a: Action) {
    a.Advance? && a.c < |s.clients| && s.clients[a.c].pc == AdvInc ==> !StopPending(s)
  }

  /** The switch agrees with the counter, but for a throw on its way. */
  predicate InStep(s: State) {
    && (StopPending(s) ==> s.g.advCount == 0)
    && (StartPending(s) ==> s.g.advCount > 0)
    && (!StopPending(s) && !StartPending(s) ==> (s.g.forwarding <==> s.g.advCount > 0))
  }

  lemma {:induction false} TwoShares(cs: seq<Client>, c: nat, d: nat)
    requires c < |cs| && d < |cs| && c != d && AdvShare(cs[c]) == 1
    ensures AdvTotal(cs) >= 1 + AdvShare(cs[d])
  {
    TotalsChange(cs, c, cs[c].(subs := Subs(false, false), pc := Ready));
    var rest := cs[c := cs[c].(subs := Subs(false, false), pc := Ready)];
    TotalsChange(rest, d, cs[d].(subs := Subs(false, false), pc := Ready));
    hide AdvTotal;
  }

  /** What a step of client `c` does to the throws on their way. */
  lemma PendingAfter(s: State, c: nat, t: State)
    requires c < |s.clients| == |t.clients| && t.clients == s.clients[c := t.clients[c]]
    ensures t.clients[c].pc in {AdvStop, LastStop} ==> StopPending(t)
    ensures t.clients[c].pc == AdvStart ==> StartPending(t)
    ensures StopPending(t) && t.clients[c].pc !in {AdvStop, LastStop} ==> StopPending(s)
    ensures StopPending(s) && s.clients[c].pc !in {AdvStop, LastStop} ==> StopPending(t)
    ensures StartPending(t) && t.clients[c].pc != AdvStart ==>
              exists d :: 0 <= d < |s.clients| && d != c && s.clients[d].pc == AdvStart
    ensures StartPending(s) && s.clients[c].pc != AdvStart ==> StartPending(t)
  {
    if StopPending(t) && t.clients[c].pc !in {AdvStop, LastStop} {
      var d :| 0 <= d < |t.clients| && t.clients[d].pc in {AdvStop, LastStop};
      assert s.clients[d] == t.clients[d];
    }
    if StopPending(s) && s.clients[c].pc !in {AdvStop, LastStop} {
      var d :| 0 <= d < |s.clients| && s.clients[d].pc in {AdvStop, LastStop};
      assert s.clients[d] == t.clients[d];
    }
    if StartPending(t) && t.clients[c].pc != AdvStart {
      var d :| 0 <= d < |t.clients| && t.clients[d].pc == AdvStart;
      assert s.clients[d] == t.clients[d];
    }
    if StartPending(s) && s.clients[c].pc != AdvStart {
      var d :| 0 <= d < |s.clients| && s.clients[d].pc == AdvStart;
      assert s.clients[d] == t.clients[d];
    }
  }

  lemma NextInStep(s: State, c: nat)
    requires Counted(s) && InStep(s) && Enabled(s, Advance(c)) && NoCrossing(s, Advance(c))
    ensures InStep(Next(s, c))
  {
    hide StopPending, StartPending, AdvTotal, FreeTotal, RegisteredTotal, Tidy;
    var k, t := s.clients[c], Next(s, c);
    assert t.clients == s.clients[c := t.clients[c]];
    PendingAfter(s, c, t);
    IsPending(s, c);
    assert k.pc == AdvDec ==> AdvShare(k) == 1;
    if StartPending(t) && t.clients[c].pc != AdvStart {
      var d :| 0 <= d < |s.clients| && d != c && s.clients[d].pc == AdvStart;
      StartShare(s.clients[d]);
      TwoShares(s.clients, d, c);
    }
    if k.pc == AdvDec {
      AtLeastOne(s.clients, c);
    }
    SharesBound(s.clients);
  }

  lemma IsPending(s: State, c: nat)
    requires c < |s.clients|
    ensures s.clients[c].pc in {AdvStop, LastStop} ==> StopPending(s)
    ensures s.clients[c].pc == AdvStart ==> StartPending(s)
  {
  }

  lemma StartShare(k: Client)
    requires Tidy(k) && k.pc == AdvStart
    ensures AdvShare(k) == 1
  {
  }

  lemma AtLeastOne(cs: seq<Client>, c: nat)
    requires c < |cs| && AdvShare(cs[c]) == 1
    ensures AdvTotal(cs) >= 1
  {
    TotalsChange(cs, c, cs[c].(subs := Subs(false, false), pc := Ready));
  }

  lemma ActInStep(s: State, a: Action)
    requires Counted(s) && InStep(s) && Enabled(s, a) && NoCrossing(s, a)
    ensures InStep(Act(s, a))
  {
    var t := Act(s, a);
    match a {
      case Connect =>
        assert forall c :: 0 <= c < |s.clients| ==> t.clients[c] == s.clients[c];
        assert StopPending(s) <==> StopPending(t);
        assert StartPending(s) <==> StartPending(t);
      case Advance(c) => NextInStep(s, c);
      case _ =>
        assert t.clients == s.clients[a.c := t.clients[a.c]];
        PendingAfter(s, a.c, t);
        hide StopPending;
    }
  }

  /** Whenever no throw is on its way, forwarding is on exactly when someone is counted, in every
      run in which the counter is never raised while a stop is on its way. */
  lemma {:induction false} ForwardingFollowsTheCount(run: seq<State>, acts: seq<Action>)
    requires IsRun(run, acts)
    requires forall k :: 0 <= k < |acts| ==> NoCrossing(run[k], acts[k])
    ensures InStep(run[|acts|])
  {
    if acts != [] {
      var n := |acts| - 1;
      ForwardingFollowsTheCount(run[..n + 1], acts[..n]);
      CountersCount(run[..n + 1], acts[..n]);
      assert Enabled(run[n], acts[n]) && NoCrossing(run[n], acts[n]);
      ActInStep(run[n], acts[n]);
    }
  }

  /** A client's task is inside a handler. */
  predicate Busy(k: Client) {
    k.pc != Ready && k.pc != Gone
  }

  /** Handlers run one at a time: a handler under way is carried on before anything else. */
  predicate OneAtATime(s: State, a: Action) {
    forall c :: 0 <= c < |s.clients| && Busy(s.clients[c]) ==> a == Advance(c)
  }

  /** With handlers that run one at a time, forwarding is on exactly when someone is counted
      whenever no handler is under way. */
  lemma AtomicHandlersAgree(run: seq<State>, acts: seq<Action>)
    requires IsRun(run, acts)
    requires forall k :: 0 <= k < |acts| ==> OneAtATime(run[k], acts[k])
    ensures var s := run[|acts|];
            (forall c :: 0 <= c < |s.clients| ==> !Busy(s.clients[c])) ==> (s.g.forwarding <==> s.g.advCount > 0)
  {
    forall k | 0 <= k < |acts| ensures NoCrossing(run[k], acts[k]) {
      assert OneAtATime(run[k], acts[k]);
      AtomicDoesNotCross(run[k], acts[k]);
    }
    ForwardingFollowsTheCount(run, acts);
  }

  lemma AtomicDoesNotCross(s: State, a: Action)
    requires OneAtATime(s, a)
    ensures NoCrossing(s, a)
  {
    if StopPending(s) {
      var c :| 0 <= c < |s.clients| && s.clients[c].pc in {AdvStop, LastStop};
      assert Busy(s.clients[c]);
    }
  }

  /** The condition is exact: from any state in step, a counter raised while a stop is on its way
      leaves a subscribed client without advertisements once the three steps under way are done. */
  lemma CrossingSilences(s: State, c: nat, d: nat)
    requires InStep(s) && c < |s.clients| && d < |s.clients|
    requires s.clients[c].pc in {AdvStop, LastStop} && s.clients[d].pc == AdvInc
    ensures var s1 := Act(s, Advance(d));
            && Enabled(s1, Advance(d))
            && var s2 := Act(s1, Advance(d));
            && Enabled(s2, Advance(c))
            && var s3 := Act(s2, Advance(c));
            s3.g.advCount == 1 && !s3.g.forwarding && s3.clients[d].pc == Ready
  {
    assert StopPending(s);
  }

  /** A crossing step leaves the switch out of step at once. */
  lemma CrossingBreaksStep(s: State, a: Action)
    requires Counted(s) && InStep(s) && Enabled(s, a) && !NoCrossing(s, a)
    ensures !InStep(Act(s, a))
  {
    hide StopPending, StartPending, Counted;
    var t := Act(s, a);
    assert t.clients == s.clients[a.c := t.clients[a.c]];
    PendingAfter(s, a.c, t);
  }

  /** Over any run: the switch agrees with the counter, but for a throw on its way, at every step of
      the run if and only if the counter is never raised while a stop is on its way. */
  lemma InStepIff(run: seq<State>, acts: seq<Action>)
    requires IsRun(run, acts)
    ensures (forall k :: 0 <= k <= |acts| ==> InStep(run[k])) <==>
            (forall k :: 0 <= k < |acts| ==> NoCrossing(run[k], acts[k]))
  {
    hide InStep, NoCrossing, Counted;
    if forall k :: 0 <= k < |acts| ==> NoCrossing(run[k], acts[k]) {
      forall k | 0 <= k <= |acts| ensures InStep(run[k]) {
        ForwardingFollowsTheCount(run[..k + 1], acts[..k]);
      }
    }
    if forall k :: 0 <= k <= |acts| ==> InStep(run[k]) {
      forall k | 0 <= k < |acts| ensures NoCrossing(run[k], acts[k]) {
        CountersCount(run[..k + 1], acts[..k]);
        assert Enabled(run[k], acts[k]) && run[k + 1] == Act(run[k], acts[k]) && InStep(run[k + 1]);
        if !NoCrossing(run[k], acts[k]) {
          CrossingBreaksStep(run[k], acts[k]);
        }
      }
    }
  }

  /** And such a state is reached: one client's stop is overtaken by another's subscription. */
  lemma CrossingIsPossible()
    ensures exists run: seq<State>, acts: seq<Action> ::
              && IsRun(run, acts) && InStep(run[|acts|]) && |run[|acts|].clients| == 2
              && run[|acts|].clients[0].pc == AdvStop && run[|acts|].clients[1].pc == AdvInc
  {
    hide *;
    CrossingRun();
    CrossingEnd();
    var run, acts := CrossingStates(), CrossingActs();
    assert IsRun(run, acts) && run[|acts|] == run[8];
  }

  function CrossingActs(): seq<Action> {
    [Connect, Connect, SubscribeAdv(0), Advance(0), Advance(0), UnsubscribeAdv(0), Advance(0), SubscribeAdv(1)]
  }

  function CrossingStates(): seq<State> {
    var idle, on := Client(Subs(false, false), Ready, false), Client(Subs(true, false), Ready, false);
    [Start, State(Shared(0, 0, false), 1, [idle]), State(Shared(0, 0, false), 2, [idle, idle]),
     State(Shared(0, 0, false), 2, [on.(pc := AdvInc), idle]),
     State(Shared(1, 0, false), 2, [on.(pc := AdvStart), idle]),
     State(Shared(1, 0, true), 2, [on, idle]),
     State(Shared(1, 0, true), 2, [idle.(pc := AdvDec), idle]),
     State(Shared(0, 0, true), 2, [idle.(pc := AdvStop), idle]),
     State(Shared(0, 0, true), 2, [idle.(pc := AdvStop), on.(pc := AdvInc)])]
  }

  lemma CrossingEnd()
    ensures |CrossingActs()| == 8 && |CrossingStates()| == 9
    ensures var s := CrossingStates()[8];
            InStep(s) && |s.clients| == 2 && s.clients[0].pc == AdvStop && s.clients[1].pc == AdvInc
  {
    var s := CrossingStates()[8];
    assert s.clients[0].pc == AdvStop && s.clients[1].pc == AdvInc;
    assert !StartPending(s);
  }

  lemma CrossingRun()
    ensures IsRun(CrossingStates(), CrossingActs())
  {
    var run, acts := CrossingStates(), CrossingActs();
    forall k | 0 <= k < |acts| ensures Enabled(run[k], acts[k]) && run[k + 1] == Act(run[k], acts[k]) {
      if k == 0 {
      } else if k == 1 {
      } else if k == 2 {
      } else if k == 3 {
      } else if k == 4 {
      } else if k == 5 {
      } else if k == 6 {
      } else {
      }
    }
  }

  // ------------------------------------------------------- handlers that run alone

  /** A handler that no other task interrupts takes the shared state where the specification of
      the whole handler says. */
  lemma HandlersAreTheirSteps(s: State, c: nat)
    requires c < |s.clients| && s.clients[c].pc == Ready && !s.clients[c].leaving
    ensures var s1 := Act(s, SubscribeAdv(c));
            var s2 := if s1.clients[c].pc == AdvInc then Next(s1, c) else s1;
            var s3 := if s2.clients[c].pc == AdvStart then Next(s2, c) else s2;
            s3 == With(s.(g := SetAdv(s.g, s.clients[c].subs.adv, true)), c,
                       s.clients[c].(subs := s.clients[c].subs.(adv := true)))
    ensures var s1 := Act(s, UnsubscribeAdv(c));
            var s2 := if s1.clients[c].pc == AdvDec then Next(s1, c) else s1;
            var s3 := if s2.clients[c].pc == AdvStop then Next(s2, c) else s2;
            s3 == With(s.(g := SetAdv(s.g, s.clients[c].subs.adv, false)), c,
                       s.clients[c].(subs := s.clients[c].subs.(adv := false)))
    ensures var s1 := Act(s, SubscribeFree(c));
            var s2 := if s1.clients[c].pc == FreeInc then Next(s1, c) else s1;
            s2 == With(s.(g := SetFree(s.g, s.clients[c].subs.free, true)), c,
                       s.clients[c].(subs := s.clients[c].subs.(free := true)))
  {
  }

  // ------------------------------------------------------------- when everyone is gone

  predicate LastPending(s: State) {
    exists c :: 0 <= c < |s.clients| && s.clients[c].pc in {LastLoad, LastStop}
  }

  /** While it forwards, someone is registered or on the way to look whether to stop it. */
  predicate Attended(s: State) {
    s.g.forwarding ==> s.active > 0 || LastPending(s)
  }

  lemma {:induction false} RegisteredIsCounted(cs: seq<Client>, c: nat)
    requires c < |cs| && Registered(cs[c])
    ensures RegisteredTotal(cs) > 0
  {
    var gone := cs[c].(pc := Gone);
    TotalsChange(cs, c, gone);
    RegisteredPositive(cs[c := gone]);
    hide RegisteredTotal;
  }

  lemma {:induction false} RegisteredPositive(cs: seq<Client>)
    ensures RegisteredTotal(cs) >= 0
  {
  }

  /** Where a task that leaves the pending ones was. */
  lemma LastAfter(s: State, c: nat, t: State)
    requires c < |s.clients| == |t.clients| && t.clients == s.clients[c := t.clients[c]]
    ensures t.clients[c].pc in {LastLoad, LastStop} ==> LastPending(t)
    ensures LastPending(s) && s.clients[c].pc !in {LastLoad, LastStop} ==> LastPending(t)
  {
    if LastPending(s) && s.clients[c].pc !in {LastLoad, LastStop} {
      var d :| 0 <= d < |s.clients| && s.clients[d].pc in {LastLoad, LastStop};
      assert t.clients[d] == s.clients[d];
    }
  }

  lemma ActAttended(s: State, a: Action)
    requires Counted(s) && Attended(s) && Enabled(s, a)
    ensures Attended(Act(s, a))
  {
    var t := Act(s, a);
    RegisteredPositive(s.clients);
    if a != Connect {
      assert t.clients == s.clients[a.c := t.clients[a.c]];
      LastAfter(s, a.c, t);
      if Registered(s.clients[a.c]) {
        RegisteredIsCounted(s.clients, a.c);
      }
      hide LastPending, RegisteredTotal, AdvTotal, FreeTotal, Tidy;
    }
  }

  lemma {:induction false} AlwaysAttended(run: seq<State>, acts: seq<Action>)
    requires IsRun(run, acts)
    ensures Attended(run[|acts|])
  {
    if acts != [] {
      var n := |acts| - 1;
      AlwaysAttended(run[..n + 1], acts[..n]);
      CountersCount(run[..n + 1], acts[..n]);
      assert Enabled(run[n], acts[n]);
      ActAttended(run[n], acts[n]);
    }
  }

  /** In every run, crossings or not: once every client is gone, nobody is counted and nothing is
      forwarded. */
  lemma EveryoneGoneIsOff(run: seq<State>, acts: seq<Action>)
    requires IsRun(run, acts) && forall c :: 0 <= c < |run[|acts|].clients| ==> run[|acts|].clients[c].pc == Gone
    ensures var s := run[|acts|]; s.g == Shared(0, 0, false) && s.active == 0
  {
    AlwaysAttended(run, acts);
    CountersCount(run, acts);
    NoneRegistered(run[|acts|].clients);
  }

  lemma {:induction false} NoneRegistered(cs: seq<Client>)
    requires forall c :: 0 <= c < |cs| ==> cs[c].pc == Gone
    ensures RegisteredTotal(cs) == 0
  {
    if cs != [] {
      NoneRegistered(cs[..|cs| - 1]);
    }
  }

  /** The task of client `c` goes on until it waits for a message or is gone. */
  function OnAlone(s: State, c: nat, n: nat): State
    decreases n
  {
    if n == 0 || c >= |s.clients| || !Enabled(s, Advance(c)) then s else OnAlone(Act(s, Advance(c)), c, n - 1)
  }

  lemma OneAlone(s: State, c: nat, n: nat)
    requires n > 0 && Enabled(s, Advance(c))
    ensures OnAlone(s, c, n) == OnAlone(Next(s, c), c, n - 1)
  {
    hide Next;
  }

  /** Behind the advertisement share. */
  function WithoutAdv(s: State, c: nat): State
    requires c < |s.clients|
  {
    var k := s.clients[c];
    With(s.(g := SetAdv(s.g, k.subs.adv, false)), c, k.(subs := k.subs.(adv := false)))
  }

  function WithoutFree(s: State, c: nat): State
    requires c < |s.clients|
  {
    var k := s.clients[c];
    With(s.(g := SetFree(s.g, k.subs.free, false)), c, k.(subs := k.subs.(free := false)))
  }

  function WithoutClient(s: State, c: nat): State
    requires c < |s.clients|
  {
    With(State(if s.active == 1 then s.g.(forwarding := false) else s.g, s.active - 1, s.clients), c,
         s.clients[c].(pc := Gone))
  }

  lemma LeavingAdv(s: State, c: nat) returns (n: nat)
    requires c < |s.clients| && s.clients[c].pc == Ready && s.clients[c].leaving
    ensures n >= 6 && OnAlone(s, c, 9) == OnAlone(WithoutAdv(s, c), c, n)
  {
    n := 9;
    if s.clients[c].subs.adv {
      var s1 := Next(s, c);
      var s2 := Next(s1, c);
      ReleasesAdv(s, c);
      hide Next, WithoutAdv;
      OneAlone(s, c, 9);
      OneAlone(s1, c, 8);
      n := 7;
      if s.g.advCount == 1 {
        OneAlone(s2, c, 7);
        n := 6;
      }
      hide OnAlone;
    } else {
      assert WithoutAdv(s, c) == s;
      hide OnAlone;
    }
  }

  /** The two steps of releasing an advertisement share, and the third of the last one. */
  lemma ReleasesAdv(s: State, c: nat)
    requires c < |s.clients| && s.clients[c].pc == Ready && s.clients[c].leaving && s.clients[c].subs.adv
    ensures Enabled(s, Advance(c)) && Enabled(Next(s, c), Advance(c))
    ensures |Next(s, c).clients| == |Next(Next(s, c), c).clients| == |s.clients|
    ensures var s2 := Next(Next(s, c), c);
            if s.g.advCount == 1 then Enabled(s2, Advance(c)) && Next(s2, c) == WithoutAdv(s, c)
            else s2 == WithoutAdv(s, c)
  {
    var k := s.clients[c];
    var s1 := Next(s, c);
    assert s1 == With(s, c, k.(subs := k.subs.(adv := false), pc := AdvDec));
  }

  lemma LeavingFree(s: State, c: nat, n: nat) returns (m: nat)
    requires c < |s.clients| && s.clients[c].pc == Ready && s.clients[c].leaving && !s.clients[c].subs.adv && n >= 6
    ensures m >= 4 && OnAlone(s, c, n) == OnAlone(WithoutFree(s, c), c, m)
  {
    m := n;
    var k := s.clients[c];
    if k.subs.free {
      var s1 := Next(s, c);
      OneAlone(s, c, n);
      OneAlone(s1, c, n - 1);
      m := n - 2;
      hide OnAlone;
      assert s1 == With(s, c, k.(subs := k.subs.(free := false), pc := FreeDec));
      assert Next(s1, c) == WithoutFree(s, c);
    } else {
      assert WithoutFree(s, c) == s;
      hide OnAlone;
    }
  }

  lemma LeavingLast(s: State, c: nat, n: nat)
    requires c < |s.clients| && n >= 4 && s.clients[c] == Client(Subs(false, false), Ready, true)
    ensures OnAlone(s, c, n) == WithoutClient(s, c)
  {
    var k := s.clients[c];
    var s1 := Next(s, c);
    var s2 := Next(s1, c);
    var s3 := Next(s2, c);
    assert s1 == With(s, c, k.(pc := Unregister));
    assert s2 == With(s.(active := s.active - 1), c, k.(pc := LastLoad));
    OneAlone(s, c, n);
    OneAlone(s1, c, n - 1);
    OneAlone(s2, c, n - 2);
    if s.active == 1 {
      OneAlone(s3, c, n - 3);
      assert Next(s3, c) == WithoutClient(s, c);
    } else {
      assert s3 == WithoutClient(s, c);
    }
    GoneStays(WithoutClient(s, c), c, n - 3);
    GoneStays(WithoutClient(s, c), c, n - 4);
    hide OnAlone;
  }

  lemma GoneStays(s: State, c: nat, n: nat)
    requires c < |s.clients| && s.clients[c].pc == Gone
    ensures OnAlone(s, c, n) == s
  {
  }

  /** A task that leaves without interruption is gone after nine steps, with both its shares, and stops
      forwarding when it was the last one registered: it is the handler of a disconnect, and that stop. */
  lemma LeavingAlone(s: State, c: nat)
    requires c < |s.clients| && s.clients[c].pc == Ready && !s.clients[c].leaving
    ensures var k := s.clients[c];
            var g := SetFree(SetAdv(s.g, k.subs.adv, false), k.subs.free, false);
            OnAlone(Act(s, Leave(c)), c, 9) ==
            With(State(if s.active == 1 then g.(forwarding := false) else g, s.active - 1, s.clients), c,
                 Client(Subs(false, false), Gone, true))
  {
    var s0 := Act(s, Leave(c));
    var s1 := WithoutAdv(s0, c);
    var s2 := WithoutFree(s1, c);
    hide SetAdv, SetFree;
    var n := LeavingAdv(s0, c);
    var m := LeavingFree(s1, c, n);
    LeavingLast(s2, c, m);
    hide OnAlone;
  }
}
