/** Advertisements wait in one bounded batch between the scan callback, the flush task and the
    end of a subscription. */
module AdvBatch {
  import opened Prelude

  const BATCH: nat := 16

  datatype Adv = Adv(address: nat, rssi: int, addressType: byte, data: seq<byte>)

  // -------------------------------------------------------------- the sections under the mutex

  class Pending {
    var records: array<Adv>
    var count: nat

    predicate Valid()
      reads this
    {
      records.Length == BATCH && count <= BATCH
    }

    function Contents(): (s: seq<Adv>)
      reads this, records
      requires Valid()
    {
      records[..count]
    }

    constructor ()
      ensures Valid() && fresh(records) && Contents() == []
    {
      records := new Adv[BATCH](_ => Adv(0, 0, 0, []));
      count := 0;
    }

    /** The callback's section: a full batch drops the record; filling it wakes the flush task. */
    method Offer(rec: Adv) returns (full: bool)
      requires Valid()
      modifies this`count, records
      ensures Valid() && Contents() == Step(old(Contents()), Arrive(rec))
      ensures full <==> |old(Contents())| < BATCH && |Contents()| == BATCH
    {
      full := false;
      if count < BATCH {
        ghost var before := records[..count];
        records[count] := rec;
        assert records[..count + 1] == before + [rec];
        count := count + 1;
        full := count >= BATCH;
      }
    }

    /** The flush task's section. */
    method DrainLocked() returns (batch: seq<Adv>)
      requires Valid()
      modifies this`count
      ensures Valid() && Contents() == Step(old(Contents()), Drain)
      ensures batch == old(Contents())
    {
      batch := [];
      var i := 0;
      while i < count
        invariant i <= count && batch == records[..i]
      {
        batch := batch + [records[i]];
        i := i + 1;
      }
      count := 0;
    }

    method FlushOnce() returns (batch: Option<seq<Adv>>)
      requires Valid()
      modifies this`count
      ensures Valid() && Contents() == Step(old(Contents()), Drain)
      ensures batch == if old(Contents()) == [] then None else Some(old(Contents()))
    {
      if count == 0 {
        return None;
      }
      var out := DrainLocked();
      batch := Some(out);
    }

    /** The section that ends a subscription. */
    method Drop()
      requires Valid()
      modifies this`count
      ensures Valid() && Contents() == Step(old(Contents()), Clear)
    {
      count := 0;
    }
  }

  /** One section under the mutex. */
  datatype Event = Arrive(rec: Adv) | Drain | Clear

  function Step(pending: seq<Adv>, e: Event): seq<Adv> {
    match e
    case Arrive(rec) => if |pending| < BATCH then pending + [rec] else pending
    case _ => []
  }

  datatype Queue = Queue(drained: seq<seq<Adv>>, pending: seq<Adv>)

  function Run(evs: seq<Event>): Queue {
    if evs == [] then Queue([], [])
    else
      var q, e := Run(evs[..|evs| - 1]), evs[|evs| - 1];
      Queue(if e.Drain? && q.pending != [] then q.drained + [q.pending] else q.drained, Step(q.pending, e))
  }

  // --------------------------------------------------------------- what becomes of each advert

  /** The adverts since the batch was last emptied. */
  function Since(evs: seq<Event>): seq<Adv> {
    if evs == [] then []
    else
      match evs[|evs| - 1]
      case Arrive(rec) => Since(evs[..|evs| - 1]) + [rec]
      case _ => []
  }

  /** When the batch is next emptied after `i`; the length when it is not. */
  function Emptied(evs: seq<Event>, i: nat): (b: nat)
    requires i < |evs|
    ensures i < b <= |evs|
    ensures forall k :: i < k < b ==> evs[k].Arrive?
    ensures b < |evs| ==> !evs[b].Arrive?
    decreases |evs| - i
  {
    if i + 1 == |evs| || !evs[i + 1].Arrive? then i + 1 else Emptied(evs, i + 1)
  }

  datatype Fate = Dropped | Queued | Drained | Cleared

  /** The fate of an advert by its place in the run: dropped when sixteen had come since the
      batch was last emptied, else decided by whatever empties the batch next. */
  function FateOf(evs: seq<Event>, i: nat): Fate
    requires i < |evs|
  {
    if |Since(evs[..i])| >= BATCH then Dropped
    else if Emptied(evs, i) == |evs| then Queued
    else if evs[Emptied(evs, i)].Drain? then Drained
    else Cleared
  }

  /** The first `n` adverts of the run with one of the fates, in order. */
  function Select(evs: seq<Event>, n: nat, fates: set<Fate>): seq<Adv>
    requires n <= |evs|
  {
    if n == 0 then []
    else
      Select(evs, n - 1, fates) +
      if evs[n - 1].Arrive? && FateOf(evs, n - 1) in fates then [evs[n - 1].rec] else []
  }

  function With(evs: seq<Event>, fates: set<Fate>): seq<Adv> {
    Select(evs, |evs|, fates)
  }

  lemma {:induction false} BatchIsFirstSixteen(evs: seq<Event>)
    ensures Run(evs).pending == Since(evs)[..Min(|Since(evs)|, 16)]
  {
    if evs != [] {
      BatchIsFirstSixteen(evs[..|evs| - 1]);
    }
  }

  lemma {:induction false} EmptiedAt(evs: seq<Event>, i: nat, b: nat)
    requires i < b <= |evs|
    requires forall k :: i < k < b ==> evs[k].Arrive?
    requires b < |evs| ==> !evs[b].Arrive?
    ensures Emptied(evs, i) == b
  {
  }

  /** One more event settles the adverts still queued and leaves every other fate alone. */
  lemma FateStep(evs: seq<Event>, e: Event, i: nat)
    requires i < |evs|
    ensures FateOf(evs + [e], i) ==
            if FateOf(evs, i) == Queued && e.Drain? then Drained
            else if FateOf(evs, i) == Queued && e.Clear? then Cleared
            else FateOf(evs, i)
  {
    var more := evs + [e];
    assert more[..i] == evs[..i];
    var b := Emptied(evs, i);
    if b < |evs| || !e.Arrive? {
      EmptiedAt(more, i, b);
    } else {
      EmptiedAt(more, i, |more|);
    }
  }

  lemma {:induction false} SelectStep(evs: seq<Event>, e: Event, n: nat, fates: set<Fate>, before: set<Fate>)
    requires n <= |evs|
    requires forall i: nat :: i < |evs| ==> (FateOf(evs + [e], i) in fates <==> FateOf(evs, i) in before)
    ensures Select(evs + [e], n, fates) == Select(evs, n, before)
  {
    hide FateOf;
    if n > 0 {
      SelectStep(evs, e, n - 1, fates, before);
    }
  }

  /** The selections after one more event, from those before it. */
  lemma WithStep(evs: seq<Event>, e: Event, fates: set<Fate>, before: set<Fate>)
    requires before ==
             (fates - {Queued}) + (if e.Arrive? && Queued in fates then {Queued} else {})
             + (if e.Drain? && Drained in fates then {Queued} else {})
             + (if e.Clear? && Cleared in fates then {Queued} else {})
    ensures With(evs + [e], fates) ==
            With(evs, before)
            + if e.Arrive? && (if |Since(evs)| >= BATCH then Dropped else Queued) in fates then [e.rec] else []
  {
    var more, n := evs + [e], |evs|;
    forall i: nat | i < n ensures FateOf(more, i) in fates <==> FateOf(evs, i) in before {
      FateStep(evs, e, i);
    }
    SelectStep(evs, e, n, fates, before);
    assert more[..n] == evs;
    EmptiedAt(more, n, n + 1);
  }

  /** The drained batches, in order, are the adverts fated to be drained; the batch holds those
      still queued; together they are an in-order selection from all that came, without repeats. */
  lemma {:induction false} BatchesConserve(evs: seq<Event>)
    ensures Concat(Run(evs).drained) == With(evs, {Drained})
    ensures Run(evs).pending == With(evs, {Queued})
    ensures Concat(Run(evs).drained) + Run(evs).pending == With(evs, {Drained, Queued})
    ensures forall b :: b in Run(evs).drained ==> 1 <= |b| <= BATCH
  {
    if evs != [] {
      var n := |evs| - 1;
      var pre, e := evs[..n], evs[n];
      assert evs == pre + [e];
      BatchesConserve(pre);
      BatchIsFirstSixteen(pre);
      ConservesStep(pre, e);
    }
  }

  lemma ConservesStep(pre: seq<Event>, e: Event)
    requires Concat(Run(pre).drained) == With(pre, {Drained})
    requires Run(pre).pending == With(pre, {Queued})
    requires Concat(Run(pre).drained) + Run(pre).pending == With(pre, {Drained, Queued})
    requires |Run(pre).pending| == Min(|Since(pre)|, BATCH)
    ensures var q := Run(pre + [e]);
            && Concat(q.drained) == With(pre + [e], {Drained})
            && q.pending == With(pre + [e], {Queued})
            && Concat(q.drained) + q.pending == With(pre + [e], {Drained, Queued})
  {
    hide With, Run, Concat, Since;
    RunSnoc(pre, e);
    var q, now := Run(pre), Run(pre + [e]);
    Selections(pre, e);
    ConcatSnoc(q.drained, q.pending);
    var d, p := Concat(q.drained), q.pending;
    assert d + [] == d;
    assert Concat(now.drained) == if e.Drain? then d + p else d;
    match e {
      case Arrive(rec) => assert d + (p + [rec]) == (d + p) + [rec];
      case Drain => assert (d + p) + [] == d + p;
      case Clear =>
    }
  }

  lemma RunSnoc(pre: seq<Event>, e: Event)
    ensures var q := Run(pre);
            Run(pre + [e]) == Queue(if e.Drain? && q.pending != [] then q.drained + [q.pending] else q.drained,
                                    Step(q.pending, e))
  {
    assert (pre + [e])[..|pre|] == pre;
  }

  /** The three selections after one more event. */
  lemma Selections(pre: seq<Event>, e: Event)
    ensures var room := e.Arrive? && |Since(pre)| < BATCH;
            && With(pre + [e], {Drained}) == (if e.Drain? then With(pre, {Drained, Queued}) else With(pre, {Drained}))
            && With(pre + [e], {Queued})
               == (if e.Arrive? then With(pre, {Queued}) else []) + (if room then [e.rec] else [])
            && With(pre + [e], {Drained, Queued})
               == (if e.Clear? then With(pre, {Drained}) else With(pre, {Drained, Queued}))
                  + (if room then [e.rec] else [])
  {
    WithStep(pre, e, {Drained}, if e.Drain? then {Drained, Queued} else {Drained});
    WithStep(pre, e, {Queued}, if e.Arrive? then {Queued} else {});
    WithStep(pre, e, {Drained, Queued}, if e.Clear? then {Drained} else {Drained, Queued});
    NoneWith(pre, |pre|);
    assert With(pre, {}) == [];
    hide With, Since;
  }

  lemma {:induction false} NoneWith(evs: seq<Event>, n: nat)
    requires n <= |evs|
    ensures Select(evs, n, {}) == []
  {
    if n > 0 {
      NoneWith(evs, n - 1);
    }
  }

  // ------------------------------------------------------------- the end of a subscription

  /** The tasks around the sections: the callback checks the switch before it takes the mutex,
      and a stop clears the switch before it takes the mutex. */
  datatype Scanner = Scanner(forwarding: bool, inFlight: Option<Adv>, stopping: nat, pending: seq<Adv>)

  datatype Action = Start | StopStore | StopClear | Check(rec: Adv, client: bool) | Append | Flush

  predicate Enabled(s: Scanner, a: Action) {
    match a
    case StopClear => s.stopping > 0
    case Check(_, _) => s.inFlight == None
    case Append => s.inFlight.Some?
    case _ => true
  }

  function Act(s: Scanner, a: Action): Scanner
    requires Enabled(s, a)
  {
    match a
    case Start => s.(forwarding := true)
    case StopStore => s.(forwarding := false, stopping := s.stopping + 1)
    case StopClear => s.(stopping := s.stopping - 1, pending := Step(s.pending, Clear))
    case Check(rec, client) => if s.forwarding && client then s.(inFlight := Some(rec)) else s
    case Append => s.(inFlight := None, pending := Step(s.pending, Arrive(s.inFlight.value)))
    case Flush => s.(pending := Step(s.pending, Drain))
  }

  const Idle := Scanner(false, None, 0, [])

  predicate Acts(start: Scanner, run: seq<Scanner>, acts: seq<Action>) {
    && |run| == |acts| + 1 && run[0] == start
    && forall k :: 0 <= k < |acts| ==> Enabled(run[k], acts[k]) && run[k + 1] == Act(run[k], acts[k])
  }

  /** Once every stop is through and the switch is off, at most one advert is left over: the one
      whose callback had passed the switch before it was cleared. */
  predicate AlmostEmpty(s: Scanner) {
    !s.forwarding && s.stopping == 0 ==> |s.pending| + (if s.inFlight.Some? then 1 else 0) <= 1
  }

  lemma {:induction false} AtMostOneLeaks(run: seq<Scanner>, acts: seq<Action>)
    requires Acts(Idle, run, acts)
    ensures AlmostEmpty(run[|acts|])
  {
    if acts != [] {
      var n := |acts| - 1;
      AtMostOneLeaks(run[..n + 1], acts[..n]);
      assert run[n + 1] == Act(run[n], acts[n]);
    }
  }

  /** The switch is off, every stop is through, and the batch is empty. */
  predicate Stopped(s: Scanner) {
    !s.forwarding && s.stopping == 0 && s.pending == []
  }

  /** From there only one advert can enter the batch before the next start: that of a callback
      already between its check and the mutex. */
  lemma {:induction false} NothingElseLeaks(s: Scanner, run: seq<Scanner>, acts: seq<Action>)
    requires Stopped(s) && Acts(s, run, acts)
    requires forall k :: 0 <= k < |acts| ==> acts[k] != Start
    ensures !run[|acts|].forwarding
    ensures run[|acts|].inFlight.Some? ==> run[|acts|].inFlight == s.inFlight && run[|acts|].pending == []
    ensures run[|acts|].pending == [] || (s.inFlight.Some? && run[|acts|].pending == [s.inFlight.value])
  {
    if acts != [] {
      var n := |acts| - 1;
      NothingElseLeaks(s, run[..n + 1], acts[..n]);
      assert acts[n] != Start && run[n + 1] == Act(run[n], acts[n]);
    }
  }

  /** And it does: from where everything has stopped, a run without a start can leave an advert in
      the batch exactly when a callback is between its check and the mutex. */
  lemma LeaksExactlyWhatIsInFlight(s: Scanner)
    requires Stopped(s)
    ensures s.inFlight.Some? <==>
            exists run: seq<Scanner>, acts: seq<Action> ::
              && Acts(s, run, acts) && (forall k :: 0 <= k < |acts| ==> acts[k] != Start)
              && run[|acts|].pending != []
  {
    if s.inFlight.Some? {
      var run, acts := [s, Act(s, Append)], [Append];
      assert Acts(s, run, acts) && run[|acts|].pending == [s.inFlight.value];
    }
    if exists run: seq<Scanner>, acts: seq<Action> ::
      && Acts(s, run, acts) && (forall k :: 0 <= k < |acts| ==> acts[k] != Start) && run[|acts|].pending != []
    {
      var run: seq<Scanner>, acts: seq<Action> :|
        Acts(s, run, acts) && (forall k :: 0 <= k < |acts| ==> acts[k] != Start) && run[|acts|].pending != [];
      NothingElseLeaks(s, run, acts);
    }
  }

  /** So a stop does not always keep a stale advert out of the next session. */
  lemma StaleAdvertIsPossible(rec: Adv)
    ensures exists run: seq<Scanner>, acts: seq<Action> ::
      Acts(Idle, run, acts) && |acts| > 0 && acts[|acts| - 1] == Start && run[|acts|].pending == [rec]
  {
    var acts := [Start, Check(rec, true), StopStore, StopClear, Append, Start];
    var s1 := Act(Idle, Start);
    var s2 := Act(s1, Check(rec, true));
    var s3 := Act(s2, StopStore);
    var s4 := Act(s3, StopClear);
    var s5 := Act(s4, Append);
    var run := [Idle, s1, s2, s3, s4, s5, Act(s5, Start)];
    assert Acts(Idle, run, acts);
    assert run[|acts|].pending == [rec];
  }

  /** The sections of a run, in order. */
  function Sections(run: seq<Scanner>, acts: seq<Action>): seq<Event>
    requires |run| > |acts|
    requires forall k :: 0 <= k < |acts| ==> Enabled(run[k], acts[k])
  {
    if acts == [] then []
    else
      var n := |acts| - 1;
      Sections(run[..n + 1], acts[..n]) +
      match acts[n]
      case StopClear => [Clear]
      case Append => assert Enabled(run[n], acts[n]); [Arrive(run[n].inFlight.value)]
      case Flush => [Drain]
      case _ => []
  }

  /** The batch of the scanner is that of its sections: what is above about these is about it. */
  lemma {:induction false} BatchOfSections(run: seq<Scanner>, acts: seq<Action>)
    requires Acts(Idle, run, acts)
    ensures run[|acts|].pending == Run(Sections(run, acts)).pending
  {
    if acts != [] {
      var n := |acts| - 1;
      BatchOfSections(run[..n + 1], acts[..n]);
      assert Enabled(run[n], acts[n]) && run[n + 1] == Act(run[n], acts[n]);
      var pre := Sections(run[..n + 1], acts[..n]);
      assert pre + [] == pre;
      match acts[n] {
        case StopClear => RunSnoc(pre, Clear);
        case Append => RunSnoc(pre, Arrive(run[n].inFlight.value));
        case Flush => RunSnoc(pre, Drain);
        case _ =>
      }
      hide Run;
    }
  }

  /** The switch is as last thrown, by a start or by the store of a stop; off at first. */
  predicate LastThrownOn(acts: seq<Action>) {
    acts != [] && (acts[|acts| - 1] == Start || (acts[|acts| - 1] != StopStore && LastThrownOn(acts[..|acts| - 1])))
  }

  lemma {:induction false} SwitchIsAsThrown(run: seq<Scanner>, acts: seq<Action>)
    requires Acts(Idle, run, acts)
    ensures run[|acts|].forwarding <==> LastThrownOn(acts)
  {
    if acts != [] {
      var n := |acts| - 1;
      SwitchIsAsThrown(run[..n + 1], acts[..n]);
      assert Enabled(run[n], acts[n]) && run[n + 1] == Act(run[n], acts[n]);
    }
  }

  /** The check `j` was of this advert, found a client and the switch on, and nothing was appended since. */
  predicate PassedAt(acts: seq<Action>, j: nat, rec: Adv) {
    && j < |acts| && acts[j] == Check(rec, true) && LastThrownOn(acts[..j])
    && forall k :: j < k < |acts| ==> acts[k] != Append
  }

  lemma PassedSnoc(acts: seq<Action>, j: nat, rec: Adv)
    requires acts != []
    ensures var n := |acts| - 1;
            PassedAt(acts, j, rec) <==>
            if j == n then acts[n] == Check(rec, true) && LastThrownOn(acts[..n])
            else j < n && PassedAt(acts[..n], j, rec) && acts[n] != Append
  {
    var n := |acts| - 1;
    if j < n {
      assert acts[..n][..j] == acts[..j];
      assert forall k :: j < k < n ==> acts[..n][k] == acts[k];
    }
    hide LastThrownOn;
  }

  lemma StillPassed(acts: seq<Action>, rec: Adv)
    requires acts != []
    ensures var n := |acts| - 1;
            (exists j: nat :: PassedAt(acts, j, rec)) <==>
            (acts[n] == Check(rec, true) && LastThrownOn(acts[..n]))
            || (acts[n] != Append && exists j: nat :: PassedAt(acts[..n], j, rec))
  {
    var n := |acts| - 1;
    forall j: nat
      ensures PassedAt(acts, j, rec) <==>
              if j == n then acts[n] == Check(rec, true) && LastThrownOn(acts[..n])
              else PassedAt(acts[..n], j, rec) && acts[n] != Append
      ensures PassedAt(acts[..n], j, rec) ==> j < n
    {
      PassedSnoc(acts, j, rec);
    }
    hide PassedAt, LastThrownOn;
    if acts[n] == Check(rec, true) && LastThrownOn(acts[..n]) {
      assert PassedAt(acts, n, rec);
    } else if acts[n] != Append && exists j: nat :: PassedAt(acts[..n], j, rec) {
      var j: nat :| PassedAt(acts[..n], j, rec);
      assert PassedAt(acts, j, rec);
    }
  }

  /** An advert waits between check and mutex exactly when it passed its check, with a client there and the
      switch on, and has not been appended since. */
  lemma {:induction false} InFlightIff(run: seq<Scanner>, acts: seq<Action>, rec: Adv)
    requires Acts(Idle, run, acts)
    ensures run[|acts|].inFlight == Some(rec) <==> exists j: nat :: PassedAt(acts, j, rec)
  {
    if acts != [] {
      var n := |acts| - 1;
      InFlightIff(run[..n + 1], acts[..n], rec);
      SwitchIsAsThrown(run[..n + 1], acts[..n]);
      assert Enabled(run[n], acts[n]) && run[n + 1] == Act(run[n], acts[n]);
      StillPassed(acts, rec);
      hide PassedAt, LastThrownOn;
    } else {
      assert forall j: nat :: !PassedAt(acts, j, rec);
    }
  }

  function Count(acts: seq<Action>, a: Action): nat {
    if acts == [] then 0 else Count(acts[..|acts| - 1], a) + if acts[|acts| - 1] == a then 1 else 0
  }

  /** The stops under way are those that stored and have not cleared. */
  lemma {:induction false} StoppingCounts(run: seq<Scanner>, acts: seq<Action>)
    requires Acts(Idle, run, acts)
    ensures run[|acts|].stopping == Count(acts, StopStore) - Count(acts, StopClear)
  {
    if acts != [] {
      var n := |acts| - 1;
      StoppingCounts(run[..n + 1], acts[..n]);
      assert Enabled(run[n], acts[n]) && run[n + 1] == Act(run[n], acts[n]);
    }
  }
}
