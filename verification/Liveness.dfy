/** The watchdog that restarts a device whose network path is dead though associated: its gating
    loop, its parameters and the ring of samples behind the chart. */
module Liveness {
  import opened Prelude

  const GRACE_S: nat := 90
  const LOSS: nat := 0xFFFF

  /** What one wake of the watchdog meets: the clock, the settings, whether the station is associated
      when the latch asks and when the probe is due, and how the probe would end. */
  datatype Tick = Tick(now: nat, force: bool, enabled: bool, upForLatch: bool, up: bool,
                       interval: nat, threshold: nat, ok: bool)

  datatype Fate = Running | Forced | Wedged

  datatype Dog = Dog(seen: bool, lastProbe: nat, failures: nat, fate: Fate)

  const Asleep := Dog(false, 0, 0, Running)

  /** What a wake amounts to. */
  datatype Kind = Idle | Force | Outage | Good | Bad

  function Latched(d: Dog, t: Tick): bool {
    d.seen || t.upForLatch
  }

  function KindOf(d: Dog, t: Tick): Kind {
    if t.force then Force
    else if !t.enabled || t.now < GRACE_S || !Latched(d, t) || t.now - d.lastProbe < t.interval then Idle
    else if !t.up then Outage
    else if t.ok then Good
    else Bad
  }

  /** One pass of the loop; after a restart there are no more. */
  function Step(d: Dog, t: Tick): Dog {
    if d.fate != Running then d
    else if t.force then d.(fate := Forced)
    else if !t.enabled || t.now < GRACE_S then d
    else if !Latched(d, t) then d
    else
      var d1 := d.(seen := true);
      if t.now - d.lastProbe < t.interval then d1
      else
        var d2 := d1.(lastProbe := t.now);
        if !t.up || t.ok then d2.(failures := 0)
        else d2.(failures := d.failures + 1, fate := if d.failures + 1 >= t.threshold then Wedged else Running)
  }

  class Watchdog {
    var seenConnected: bool
    var lastProbe: nat
    var failures: nat
    var fate: Fate

    function View(): Dog
      reads this
    {
      Dog(seenConnected, lastProbe, failures, fate)
    }

    constructor ()
      ensures View() == Asleep
    {
      seenConnected, lastProbe, failures, fate := false, 0, 0, Running;
    }

    method OnTick(t: Tick)
      requires fate == Running
      modifies this
      ensures View() == Step(old(View()), t)
    {
      if t.force {
        fate := Forced;
        return;
      }
      if !t.enabled {
        return;
      }
      if t.now < GRACE_S {
        return;
      }
      if !seenConnected {
        if t.upForLatch {
          seenConnected := true;
        } else {
          return;
        }
      }
      if t.now - lastProbe < t.interval {
        return;
      }
      lastProbe := t.now;
      if !t.up {
        failures := 0;
        return;
      }
      if t.ok {
        failures := 0;
        return;
      }
      failures := failures + 1;
      if failures >= t.threshold {
        fate := Wedged;
      }
    }

    /** The loop, over the wakes it is given. */
    method Task(ticks: seq<Tick>)
      requires View() == Asleep
      modifies this
      ensures View() == Run(ticks)
    {
      var i := 0;
      while i < |ticks| && fate == Running
        invariant 0 <= i <= |ticks| && View() == Run(ticks[..i])
      {
        assert ticks[..i + 1][..i] == ticks[..i];
        OnTick(ticks[i]);
        i := i + 1;
      }
      if i < |ticks| {
        Ended(ticks, i);
      } else {
        assert ticks[..i] == ticks;
      }
    }
  }

  function Run(ticks: seq<Tick>): Dog {
    if ticks == [] then Asleep else Step(Run(ticks[..|ticks| - 1]), ticks[|ticks| - 1])
  }

  lemma {:induction false} Ended(ticks: seq<Tick>, i: nat)
    requires i <= |ticks| && Run(ticks[..i]).fate != Running
    ensures Run(ticks) == Run(ticks[..i])
  {
    if i == |ticks| {
      assert ticks[..i] == ticks;
    } else {
      assert ticks[..|ticks| - 1][..i] == ticks[..i];
      Ended(ticks[..|ticks| - 1], i);
    }
  }

  // --------------------------------------------------------------- what a run amounts to

  /** The kinds of the wakes before a restart and the one that brings it. */
  function Kinds(ticks: seq<Tick>): seq<Kind> {
    if ticks == [] then []
    else
      var pre := ticks[..|ticks| - 1];
      Kinds(pre) + if Run(pre).fate == Running then [KindOf(Run(pre), ticks[|ticks| - 1])] else []
  }

  /** Failed probes since the last one that succeeded or found no association. */
  function Trailing(kinds: seq<Kind>): nat {
    if kinds == [] then 0
    else
      match kinds[|kinds| - 1]
      case Good => 0
      case Outage => 0
      case Bad => Trailing(kinds[..|kinds| - 1]) + 1
      case _ => Trailing(kinds[..|kinds| - 1])
  }

  /** The last `n` probes all failed, with no success and no outage between them. */
  predicate LastFailed(kinds: seq<Kind>, n: nat) {
    exists from: nat ::
      from <= |kinds| && Fails(kinds, from) >= n
      && forall k :: from <= k < |kinds| ==> kinds[k] in {Idle, Bad, Force}
  }

  function Fails(kinds: seq<Kind>, from: nat): nat
    requires from <= |kinds|
    decreases |kinds| - from
  {
    if from == |kinds| then 0 else (if kinds[from] == Bad then 1 else 0) + Fails(kinds, from + 1)
  }

  lemma {:induction false} FailsSnoc(kinds: seq<Kind>, from: nat)
    requires kinds != [] && from < |kinds|
    ensures Fails(kinds, from) == Fails(kinds[..|kinds| - 1], from) + if kinds[|kinds| - 1] == Bad then 1 else 0
    decreases |kinds| - from
  {
    if from < |kinds| - 1 {
      FailsSnoc(kinds, from + 1);
    }
  }

  lemma {:induction false} TrailingIsLastFailed(kinds: seq<Kind>, n: nat)
    ensures LastFailed(kinds, n) <==> Trailing(kinds) >= n
  {
    if n == 0 {
      assert Fails(kinds, |kinds|) == 0;
      assert LastFailed(kinds, 0);
    } else if kinds != [] {
      var pre, last := kinds[..|kinds| - 1], kinds[|kinds| - 1];
      var m := if last == Bad then n - 1 else n;
      TrailingIsLastFailed(pre, m);
      if LastFailed(kinds, n) {
        var from: nat :| from <= |kinds| && Fails(kinds, from) >= n
                         && forall k :: from <= k < |kinds| ==> kinds[k] in {Idle, Bad, Force};
        FailsSnoc(kinds, from);
        assert last in {Idle, Bad, Force};
        assert forall k :: from <= k < |pre| ==> pre[k] == kinds[k];
        assert LastFailed(pre, m);
      }
      if last in {Idle, Bad, Force} && LastFailed(pre, m) {
        var from: nat :| from <= |pre| && Fails(pre, from) >= m
                         && forall k :: from <= k < |pre| ==> pre[k] in {Idle, Bad, Force};
        FailsSnoc(kinds, from);
        assert forall k :: from <= k < |pre| ==> pre[k] == kinds[k];
        assert LastFailed(kinds, n);
      }
    }
  }

  /** Whatever the settings do meanwhile, the failure count is that of the trailing failed probes. */
  lemma {:induction false} FailuresAreTrailing(ticks: seq<Tick>)
    ensures Run(ticks).failures == Trailing(Kinds(ticks))
  {
    if ticks != [] {
      var pre, t := ticks[..|ticks| - 1], ticks[|ticks| - 1];
      FailuresAreTrailing(pre);
      var kinds := Kinds(pre);
      assert (kinds + [KindOf(Run(pre), t)])[..|kinds|] == kinds;
      hide Kinds, Run;
      assert kinds + [] == kinds;
    }
  }

  /** The wake `n` restarts the device for a dead path exactly when it is the failed probe that
      completes `threshold` failures in a row, at ninety seconds of uptime or later. */
  lemma WedgedIff(ticks: seq<Tick>)
    requires ticks != [] && Run(ticks[..|ticks| - 1]).fate == Running
    ensures var t := ticks[|ticks| - 1];
            Run(ticks).fate == Wedged <==>
            && Kinds(ticks)[|Kinds(ticks)| - 1] == Bad
            && LastFailed(Kinds(ticks), t.threshold)
    ensures Run(ticks).fate == Wedged ==> ticks[|ticks| - 1].now >= GRACE_S && ticks[|ticks| - 1].enabled
    ensures Run(ticks).fate == Forced <==> ticks[|ticks| - 1].force
  {
    FailuresAreTrailing(ticks);
    FailuresAreTrailing(ticks[..|ticks| - 1]);
    TrailingIsLastFailed(Kinds(ticks), ticks[|ticks| - 1].threshold);
    hide LastFailed, Trailing;
  }

  // -------------------------------------------------------------- a permanently dead path

  /** From here on the device is associated, the path is dead, the watchdog is on and its
      settings stay; the clock moves on by at most `gap` from wake to wake. */
  ghost predicate Dead(ticks: seq<Tick>, interval: nat, threshold: nat, gap: nat) {
    && (forall k :: 0 <= k < |ticks| ==> DeadTick(ticks[k], interval, threshold))
    && (forall j, k :: 0 <= j < k < |ticks| && k == j + 1 ==> ticks[j].now <= ticks[k].now <= ticks[j].now + gap)
  }

  predicate DeadTick(t: Tick, interval: nat, threshold: nat) {
    && t.interval == interval && t.threshold == threshold
    && t.enabled && t.up && !t.ok && !t.force && t.now >= GRACE_S
  }

  function After(d: Dog, ticks: seq<Tick>): Dog {
    if ticks == [] then d else Step(After(d, ticks[..|ticks| - 1]), ticks[|ticks| - 1])
  }

  /** Probes made in the run. */
  function Probes(d: Dog, ticks: seq<Tick>): nat {
    if ticks == [] then 0
    else
      var pre := ticks[..|ticks| - 1];
      Probes(d, pre) +
      if After(d, pre).fate == Running && ticks[|ticks| - 1].now - After(d, pre).lastProbe >= ticks[|ticks| - 1].interval
      then 1 else 0
  }

  /** `n * w`, by addition. */
  function Times(n: nat, w: nat): nat {
    if n == 0 then 0 else Times(n - 1, w) + w
  }

  lemma {:induction false} TimesIs(n: nat, w: nat)
    ensures Times(n, w) == n * w
  {
    if n > 0 {
      TimesIs(n - 1, w);
      assert n * w == (n - 1) * w + w;
    }
  }

  lemma {:induction false} TimesGrows(n: nat, m: nat, w: nat)
    requires n <= m
    ensures Times(n, w) <= Times(m, w)
  {
    if n < m {
      TimesGrows(n, m - 1, w);
    }
  }

  /** `e` is where the watchdog stands `p` probes of a dead path after `d`. */
  predicate OnPath(d: Dog, e: Dog, p: nat, interval: nat, threshold: nat, gap: nat) {
    && e.failures == d.failures + p && e.seen
    && (e.fate == Running <==> e.failures < threshold)
    && (e.fate != Running ==> e.fate == Wedged && e.failures == threshold)
    && d.lastProbe + Times(p, interval) <= e.lastProbe <= d.lastProbe + Times(p, interval + gap)
  }

  lemma OnPathStep(d: Dog, e: Dog, p: nat, t: Tick, interval: nat, threshold: nat, gap: nat)
    requires OnPath(d, e, p, interval, threshold, gap) && 1 <= interval && DeadTick(t, interval, threshold)
    requires e.fate == Running ==> t.now <= e.lastProbe + interval + gap
    ensures var probed := e.fate == Running && t.now - e.lastProbe >= interval;
            && OnPath(d, Step(e, t), if probed then p + 1 else p, interval, threshold, gap)
            && (Step(e, t).fate == Running ==> t.now < Step(e, t).lastProbe + interval)
  {
    OneMore(p, interval);
    OneMore(p, interval + gap);
    hide Times, Step;
    DeadStep(e, t, interval, threshold);
  }

  /** On a dead path the count is that of the probes, the restart comes with the probe that makes
      it `threshold`, and each probe is at most `interval + gap` after the one before. */
  lemma {:induction false} DeadPath(d: Dog, ticks: seq<Tick>, interval: nat, threshold: nat, gap: nat)
    requires d.fate == Running && d.seen && d.failures < threshold && 1 <= interval
    requires Dead(ticks, interval, threshold, gap)
    requires ticks != [] ==> d.lastProbe <= ticks[0].now <= d.lastProbe + interval + gap
    ensures OnPath(d, After(d, ticks), Probes(d, ticks), interval, threshold, gap)
    ensures After(d, ticks).fate == Running && ticks != [] ==>
              ticks[|ticks| - 1].now < After(d, ticks).lastProbe + interval
  {
    hide *;
    Nothing(d, interval, threshold, gap);
    if ticks != [] {
      Unfold(d, ticks, interval, threshold, gap);
      var n := |ticks| - 1;
      var pre := ticks[..n];
      DeadPath(d, pre, interval, threshold, gap);
      OnPathStep(d, After(d, pre), Probes(d, pre), ticks[n], interval, threshold, gap);
    }
  }

  lemma Nothing(d: Dog, interval: nat, threshold: nat, gap: nat)
    requires d.fate == Running && d.seen && d.failures < threshold
    ensures After(d, []) == d && Probes(d, []) == 0 && OnPath(d, d, 0, interval, threshold, gap)
  {
  }

  lemma Unfold(d: Dog, ticks: seq<Tick>, interval: nat, threshold: nat, gap: nat)
    requires ticks != [] && Dead(ticks, interval, threshold, gap)
    ensures var n := |ticks| - 1;
            var pre, t := ticks[..n], ticks[n];
            && Dead(pre, interval, threshold, gap) && DeadTick(t, interval, threshold)
            && (n > 0 ==> pre[0] == ticks[0] && pre[n - 1].now <= t.now <= pre[n - 1].now + gap)
            && After(d, ticks) == Step(After(d, pre), t)
            && Probes(d, ticks) ==
               Probes(d, pre)
               + if After(d, pre).fate == Running && t.now - After(d, pre).lastProbe >= interval then 1 else 0
  {
  }

  lemma DeadStep(e: Dog, t: Tick, interval: nat, threshold: nat)
    requires e.seen && 1 <= interval && DeadTick(t, interval, threshold)
    ensures e.fate != Running ==> Step(e, t) == e
    ensures e.fate == Running && t.now - e.lastProbe < interval ==> Step(e, t) == e
    ensures e.fate == Running && t.now - e.lastProbe >= interval ==>
              Step(e, t) == Dog(true, t.now, e.failures + 1, if e.failures + 1 >= threshold then Wedged else Running)
  {
  }

  /** So a wedge is found in bounded time: a run on a dead path that lasts longer has restarted. */
  lemma DetectedInTime(d: Dog, ticks: seq<Tick>, interval: nat, threshold: nat, gap: nat)
    requires d.fate == Running && d.seen && d.failures < threshold && 1 <= interval
    requires Dead(ticks, interval, threshold, gap) && ticks != []
    requires d.lastProbe <= ticks[0].now <= d.lastProbe + interval + gap
    requires ticks[|ticks| - 1].now >= d.lastProbe + (threshold - d.failures) * (interval + gap)
    ensures After(d, ticks).fate == Wedged && Probes(d, ticks) == threshold - d.failures
  {
    TimesIs(threshold - d.failures, interval + gap);
    hide *;
    TooLate(d, ticks, interval, threshold, gap);
  }

  lemma TooLate(d: Dog, ticks: seq<Tick>, interval: nat, threshold: nat, gap: nat)
    requires d.fate == Running && d.seen && d.failures < threshold && 1 <= interval
    requires Dead(ticks, interval, threshold, gap) && ticks != []
    requires d.lastProbe <= ticks[0].now <= d.lastProbe + interval + gap
    requires ticks[|ticks| - 1].now >= d.lastProbe + Times(threshold - d.failures, interval + gap)
    ensures After(d, ticks).fate == Wedged && Probes(d, ticks) == threshold - d.failures
  {
    hide *;
    DeadPath(d, ticks, interval, threshold, gap);
    Meaning(d, After(d, ticks), Probes(d, ticks), interval, threshold, gap);
    var e, p := After(d, ticks), Probes(d, ticks);
    if e.fate == Running {
      StillInTime(e.lastProbe - d.lastProbe, p, threshold - d.failures, interval + gap);
    }
  }

  lemma Meaning(d: Dog, e: Dog, p: nat, interval: nat, threshold: nat, gap: nat)
    requires OnPath(d, e, p, interval, threshold, gap)
    ensures e.failures == d.failures + p && e.lastProbe <= d.lastProbe + Times(p, interval + gap)
    ensures (e.fate == Running && e.failures < threshold) || (e.fate == Wedged && e.failures == threshold)
  {
  }

  lemma StillInTime(elapsed: int, p: nat, need: nat, w: nat)
    requires elapsed <= Times(p, w) && p < need
    ensures elapsed + w <= Times(need, w)
  {
    TimesGrows(p + 1, need, w);
    OneMore(p, w);
    hide Times;
  }

  lemma OneMore(p: nat, w: nat)
    ensures Times(p + 1, w) == Times(p, w) + w
  {
  }

  // ---------------------------------------------------------------------- settings

  class Params {
    var enabled: bool
    var interval: nat
    var threshold: nat

    predicate Valid()
      reads this
    {
      5 <= interval <= 3600 && 1 <= threshold <= 60
    }

    /** Build-time defaults, overlaid with what flash holds where that is in range. */
    constructor (defaultInterval: nat, defaultThreshold: nat, on: Option<bool>, every: Option<nat>, fails: Option<nat>)
      requires 5 <= defaultInterval <= 3600 && 1 <= defaultThreshold <= 60
      ensures Valid()
      ensures enabled == if on.Some? then on.value else true
      ensures interval == if every.Some? && 5 <= every.value <= 3600 then every.value else defaultInterval
      ensures threshold == if fails.Some? && 1 <= fails.value <= 60 then fails.value else defaultThreshold
    {
      enabled, interval, threshold := true, defaultInterval, defaultThreshold;
      if on.Some? {
        enabled := on.value;
      }
      if every.Some? && every.value >= 5 && every.value <= 3600 {
        interval := every.value;
      }
      if fails.Some? && fails.value >= 1 && fails.value <= 60 {
        threshold := fails.value;
      }
    }

    /** A negative setting keeps the old one; any setting out of range rejects them all. */
    method SetParams(on: int, every: int, fails: int) returns (ok: bool)
      requires Valid()
      modifies this
      ensures Valid()
      ensures ok <==> (every < 0 || 5 <= every <= 3600) && (fails < 0 || 1 <= fails <= 60)
      ensures enabled == if ok && on >= 0 then on != 0 else old(enabled)
      ensures interval == if ok && every >= 0 then every else old(interval)
      ensures threshold == if ok && fails >= 0 then fails else old(threshold)
    {
      if every >= 0 && (every < 5 || every > 3600) {
        return false;
      }
      if fails >= 0 && (fails < 1 || fails > 60) {
        return false;
      }
      if on >= 0 {
        enabled := on != 0;
      }
      if every >= 0 {
        interval := every;
      }
      if fails >= 0 {
        threshold := fails;
      }
      ok := true;
    }
  }

  // ----------------------------------------------------------------------- history

  const HIST_LEN: nat := 120

  datatype Sample = Sample(staRssi: int, apRssi: int, rtt: nat, staCount: nat)

  /** Milliseconds of a duration in microseconds, never the value that stands for a loss. */
  function ClampRtt(us: int): (ms: nat)
    ensures ms < LOSS
    ensures us < 0 ==> ms == 0
    ensures 0 <= us < 0xFFFE * 1000 ==> ms * 1000 <= us < ms * 1000 + 1000
    ensures us >= 0xFFFE * 1000 ==> ms == 0xFFFE
  {
    if us < 0 then 0 else if us / 1000 > 0xFFFE then 0xFFFE else us / 1000
  }

  /** The signal of the weakest client, zero without clients. */
  method Weakest(rssi: seq<int>) returns (worst: int)
    ensures rssi == [] ==> worst == 0
    ensures rssi != [] ==> worst in rssi && forall k :: 0 <= k < |rssi| ==> worst <= rssi[k]
  {
    worst := 0;
    var i := 0;
    while i < |rssi|
      invariant 0 <= i <= |rssi|
      invariant i == 0 ==> worst == 0
      invariant i > 0 ==> worst in rssi && forall k :: 0 <= k < i ==> worst <= rssi[k]
    {
      if i == 0 || rssi[i] < worst {
        worst := rssi[i];
      }
      i := i + 1;
    }
  }

  class History {
    var hist: array<Sample>
    var head: nat
    var total: nat
    /** Every sample ever recorded. */
    ghost var all: seq<Sample>

    /** The ring: place `p` holds the latest sample recorded there. */
    ghost predicate Valid()
      reads this, hist
    {
      && hist.Length == HIST_LEN && head < HIST_LEN && total == |all|
      && (total < HIST_LEN ==> head == total)
      && forall p :: 0 <= p < Min(total, HIST_LEN) ==> hist[p] == all[Recorded(p, head, total)]
    }

    constructor ()
      ensures Valid() && all == [] && fresh(hist)
    {
      hist := new Sample[HIST_LEN](_ => Sample(0, 0, 0, 0));
      head, total, all := 0, 0, [];
    }

    method Record(s: Sample)
      requires Valid()
      modifies this`head, this`total, this`all, hist
      ensures Valid() && all == old(all) + [s]
    {
      hist[head] := s;
      head := (head + 1) % HIST_LEN;
      total := total + 1;
      all := all + [s];
    }

    /** The last samples there are, at most `max`, oldest first. */
    method GetHistory(max: nat) returns (out: seq<Sample>)
      requires Valid()
      ensures out == all[|all| - Min(max, Min(|all|, 120))..]
    {
      var avail := if total < HIST_LEN then total else HIST_LEN;
      var n := if avail < max then avail else max;
      var oldest := if total < HIST_LEN then 0 else head;
      var start := (oldest + (avail - n)) % HIST_LEN;
      out := [];
      var i := 0;
      while i < n
        invariant 0 <= i <= n && |out| == i
        invariant forall k :: 0 <= k < i ==> out[k] == all[|all| - n + k]
      {
        Turns(oldest, avail - n, i);
        out := out + [hist[(start + i) % HIST_LEN]];
        i := i + 1;
      }
    }
  }

  /** Which sample is at place `p`, the next going to `head` after `total` of them. */
  function Recorded(p: nat, head: nat, total: nat): int {
    if total < HIST_LEN then p
    else if p >= head then total - HIST_LEN + (p - head)
    else total - head + p
  }

  lemma Turns(oldest: nat, skip: nat, i: nat)
    requires oldest < HIST_LEN && skip + i < HIST_LEN
    ensures var at := oldest + skip + i;
            ((oldest + skip) % HIST_LEN + i) % HIST_LEN == if at < HIST_LEN then at else at - HIST_LEN
  {
  }

  // ----------------------------------------------------------------------- arming

  /** A wake that finds the station associated, with the watchdog on and the grace period over. */
  predicate Arms(t: Tick) {
    !t.force && t.enabled && t.now >= 90 && t.upForLatch
  }

  /** Over every run the watchdog is armed if and only if some wake before a restart has armed it. */
  lemma {:induction false} ArmedIff(ticks: seq<Tick>)
    ensures Run(ticks).seen <==>
            exists k :: 0 <= k < |ticks| && Arms(ticks[k]) && Run(ticks[..k]).fate == Running
  {
    if ticks != [] {
      var n := |ticks| - 1;
      ArmedIff(ticks[..n]);
      StepArms(Run(ticks[..n]), ticks[n]);
      assert Run(ticks) == Step(Run(ticks[..n]), ticks[n]);
      hide Run, Step, Arms;
      assert forall k :: 0 <= k < n ==> ticks[..n][k] == ticks[k] && ticks[..n][..k] == ticks[..k];
      if k :| 0 <= k < n && Arms(ticks[..n][k]) && Run(ticks[..n][..k]).fate == Running {
        assert Arms(ticks[k]) && Run(ticks[..k]).fate == Running;
      }
      if k :| 0 <= k < |ticks| && Arms(ticks[k]) && Run(ticks[..k]).fate == Running {
        assert k < n ==> Arms(ticks[..n][k]) && Run(ticks[..n][..k]).fate == Running;
      }
    }
  }

  lemma StepArms(d: Dog, t: Tick)
    ensures Step(d, t).seen <==> d.seen || (d.fate == Running && Arms(t))
  {
  }

  /** Until it is armed nothing is probed or counted. */
  lemma {:induction false} UnarmedIsIdle(ticks: seq<Tick>)
    requires !Run(ticks).seen
    ensures Run(ticks).lastProbe == 0 && Run(ticks).failures == 0
  {
    if ticks != [] {
      StepUnarmed(Run(ticks[..|ticks| - 1]), ticks[|ticks| - 1]);
      UnarmedIsIdle(ticks[..|ticks| - 1]);
    }
  }

  lemma StepUnarmed(d: Dog, t: Tick)
    requires !Step(d, t).seen
    ensures !d.seen && Step(d, t).lastProbe == d.lastProbe && Step(d, t).failures == d.failures
  {
  }

  lemma {:induction false} RunOn(pre: seq<Tick>, ticks: seq<Tick>)
    ensures Run(pre + ticks) == After(Run(pre), ticks)
    decreases |ticks|
  {
    if ticks == [] {
      assert pre + ticks == pre;
    } else {
      var n := |ticks| - 1;
      RunOn(pre, ticks[..n]);
      assert (pre + ticks)[..|pre + ticks| - 1] == pre + ticks[..n];
      hide Step;
    }
  }

  lemma {:induction false} AfterOn(d: Dog, ticks: seq<Tick>)
    requires ticks != []
    ensures After(d, ticks) == After(Step(d, ticks[0]), ticks[1..])
    ensures Probes(d, ticks) == Probes(d, ticks[..1]) + Probes(Step(d, ticks[0]), ticks[1..])
    decreases |ticks|
  {
    var n := |ticks| - 1;
    if n == 0 {
      assert ticks[..0] == [] && ticks[1..] == [] && ticks[..1] == ticks;
    } else {
      AfterOn(d, ticks[..n]);
      assert ticks[..n][1..] == ticks[1..][..n - 1] && ticks[..n][..1] == ticks[..1];
      assert ticks[1..][n - 1] == ticks[n];
      hide Step;
    }
  }

  /** From a device never yet found associated: once a wake finds it so, and from then on the path is
      dead and the settings stay, it is restarted after exactly `threshold` probes, each at most
      `interval + gap` after the one before and the first at most that late on the clock or at once. */
  lemma DetectedFromAsleep(pre: seq<Tick>, ticks: seq<Tick>, interval: nat, threshold: nat, gap: nat)
    requires Run(pre).fate == Running && forall k :: 0 <= k < |pre| ==> !Arms(pre[k])
    requires 1 <= interval && 1 <= threshold
    requires Dead(ticks, interval, threshold, gap) && ticks != [] && ticks[0].upForLatch
    requires ticks[|ticks| - 1].now >= Max(ticks[0].now, interval + gap) + (threshold - 1) * (interval + gap)
    ensures Run(pre + ticks).fate == Wedged && Probes(Run(pre), ticks) == threshold
  {
    var d := Run(pre);
    hide Run, Step, After, Probes, Dead;
    ArmedIff(pre);
    UnarmedIsIdle(pre);
    RunOn(pre, ticks);
    FirstArms(d, ticks, interval, threshold, gap);
    var armed := d.(seen := true);
    var w := interval + gap;
    if ticks[0].now <= w {
      assert threshold * w == w + (threshold - 1) * w;
      DetectedInTime(armed, ticks, interval, threshold, gap);
    } else {
      TimesIs(threshold - 1, w);
      ProbesAtOnce(armed, ticks, interval, threshold, gap);
    }
  }

  lemma FirstArms(d: Dog, ticks: seq<Tick>, interval: nat, threshold: nat, gap: nat)
    requires d.fate == Running && Dead(ticks, interval, threshold, gap) && ticks != [] && ticks[0].upForLatch
    ensures After(d, ticks) == After(d.(seen := true), ticks) && Probes(d, ticks) == Probes(d.(seen := true), ticks)
  {
    assert DeadTick(ticks[0], interval, threshold);
    AfterOn(d, ticks);
    AfterOn(d.(seen := true), ticks);
    OneProbe(d, ticks[..1]);
    OneProbe(d.(seen := true), ticks[..1]);
    hide After, Probes, Dead;
  }

  lemma OneProbe(d: Dog, ticks: seq<Tick>)
    requires |ticks| == 1 && d.fate == Running
    ensures Probes(d, ticks) == if ticks[0].now - d.lastProbe >= ticks[0].interval then 1 else 0
  {
    assert ticks[..0] == [];
    assert After(d, []) == d && Probes(d, []) == 0;
  }

  /** A wake long after the last probe makes one at once. */
  lemma ProbesAtOnce(d: Dog, ticks: seq<Tick>, interval: nat, threshold: nat, gap: nat)
    requires d.fate == Running && d.seen && d.lastProbe == 0 && d.failures == 0 && 1 <= interval && 1 <= threshold
    requires Dead(ticks, interval, threshold, gap) && ticks != [] && ticks[0].now > interval + gap
    requires ticks[|ticks| - 1].now >= ticks[0].now + Times(threshold - 1, interval + gap)
    ensures After(d, ticks).fate == Wedged && Probes(d, ticks) == threshold
  {
    hide *;
    var e, rest := Step(d, ticks[0]), ticks[1..];
    AtOnce(d, ticks, interval, threshold, gap);
    if threshold == 1 {
      Restarted(e, rest);
    } else {
      OneMore(threshold - 2, interval + gap);
      DeadRest(ticks, interval, threshold, gap);
      assert rest != [] by {
        assert ticks[|ticks| - 1].now > ticks[0].now;
      }
      TooLate(e, rest, interval, threshold, gap);
    }
  }

  lemma AtOnce(d: Dog, ticks: seq<Tick>, interval: nat, threshold: nat, gap: nat)
    requires d.fate == Running && d.seen && d.lastProbe == 0 && d.failures == 0 && 1 <= interval && 1 <= threshold
    requires Dead(ticks, interval, threshold, gap) && ticks != [] && ticks[0].now > interval + gap
    ensures var e, rest := Step(d, ticks[0]), ticks[1..];
            && e == Dog(true, ticks[0].now, 1, if 1 >= threshold then Wedged else Running)
            && After(d, ticks) == After(e, rest) && Probes(d, ticks) == 1 + Probes(e, rest)
  {
    assert DeadTick(ticks[0], interval, threshold);
    hide Dead, Step, After, Probes;
    DeadStep(d, ticks[0], interval, threshold);
    AfterOn(d, ticks);
    OneProbe(d, ticks[..1]);
  }

  lemma DeadRest(ticks: seq<Tick>, interval: nat, threshold: nat, gap: nat)
    requires Dead(ticks, interval, threshold, gap) && ticks != []
    ensures Dead(ticks[1..], interval, threshold, gap)
    ensures |ticks| > 1 ==> ticks[0].now <= ticks[1..][0].now <= ticks[0].now + gap
                            && ticks[1..][|ticks| - 2] == ticks[|ticks| - 1]
  {
    hide DeadTick;
  }

  lemma {:induction false} Restarted(d: Dog, ticks: seq<Tick>)
    requires d.fate != Running
    ensures After(d, ticks) == d && Probes(d, ticks) == 0
  {
    if ticks != [] {
      Restarted(d, ticks[..|ticks| - 1]);
    }
  }

  /** A wake in terms of what it meets: probes are due only to an armed watchdog, switched on, after the
      grace period and an interval after the last; one that finds no association is an outage. */
  lemma KindMeans(d: Dog, t: Tick)
    ensures KindOf(d, t) == Force <==> t.force
    ensures KindOf(d, t) in {Outage, Good, Bad} <==>
            && !t.force && t.enabled && t.now >= 90 && (d.seen || t.upForLatch) && t.now - d.lastProbe >= t.interval
    ensures KindOf(d, t) == Outage ==> !t.up
    ensures KindOf(d, t) == Good ==> t.up && t.ok
    ensures KindOf(d, t) == Bad ==> t.up && !t.ok
  {
  }

  /** A wake that takes a sample: a probe, or an outage noted. */
  predicate Samples(ticks: seq<Tick>, k: nat)
    requires k < |ticks|
  {
    Run(ticks[..k]).fate == Running && KindOf(Run(ticks[..k]), ticks[k]) in {Outage, Good, Bad}
  }

  /** In any run on a clock that does not go back, samples are an interval apart, whatever they found. */
  lemma SamplesApart(ticks: seq<Tick>, j: nat, k: nat)
    requires forall a, b :: 0 <= a < b < |ticks| ==> ticks[a].now <= ticks[b].now
    requires j < k < |ticks| && Samples(ticks, j) && Samples(ticks, k)
    ensures ticks[k].now >= ticks[j].now + ticks[k].interval
  {
    SampledAt(ticks, j, k);
    KindMeans(Run(ticks[..k]), ticks[k]);
    hide Run, KindOf;
  }

  lemma {:induction false} SampledAt(ticks: seq<Tick>, j: nat, k: nat)
    requires forall a, b :: 0 <= a < b < |ticks| ==> ticks[a].now <= ticks[b].now
    requires j < k <= |ticks| && Samples(ticks, j)
    ensures Run(ticks[..k]).lastProbe >= ticks[j].now
  {
    assert ticks[..k][..k - 1] == ticks[..k - 1];
    assert Run(ticks[..k]) == Step(Run(ticks[..k - 1]), ticks[k - 1]);
    hide Run;
    ProbeClock(Run(ticks[..k - 1]), ticks[k - 1]);
    if j < k - 1 {
      SampledAt(ticks, j, k - 1);
    }
    hide Step, KindOf;
  }

  /** The clock of the last sample moves at samples only. */
  lemma ProbeClock(d: Dog, t: Tick)
    ensures Step(d, t).lastProbe ==
            if d.fate == Running && KindOf(d, t) in {Outage, Good, Bad} then t.now else d.lastProbe
  {
  }
}
