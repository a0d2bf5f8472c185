/** The scanner's table of devices seen lately: sightings put rows, a sweep drops the stale ones. */
module DeviceTable {
  import opened Prelude
  import opened LruTable

  const DEV_CAP: nat := 64
  const STALE_MS: nat := 30 * 60 * 1000
  const NAME_CAP: nat := 24

  datatype Device = Device(addrType: byte, rssi: int, name: seq<byte>, advCount: nat,
                           appearance: nat, connectable: bool, tag: Option<string>)

  const NewDevice := Device(0, 0, [], 0, 0, false, None)

  /** What one advertisement tells about its sender. */
  datatype Sighting = Sighting(addrType: byte, rssi: int, name: seq<byte>, appearance: nat,
                               connectable: bool, tag: Option<string>)

  function Merge(d: Device, s: Sighting): Device {
    Device(s.addrType, s.rssi,
           if s.name == [] then d.name else if |s.name| >= NAME_CAP then s.name[..NAME_CAP - 1] else s.name,
           (d.advCount + 1) % WORD,
           if s.appearance == 0 then d.appearance else s.appearance,
           s.connectable,
           if s.tag == None then d.tag else s.tag)
  }

  /** What a row says after a list of sightings of its device. */
  function MergeAll(ss: seq<Sighting>): Device {
    if ss == [] then NewDevice else Merge(MergeAll(ss[..|ss| - 1]), ss[|ss| - 1])
  }

  lemma {:induction false} CountsSightings(ss: seq<Sighting>)
    ensures MergeAll(ss).advCount == |ss| % WORD
  {
    if ss != [] {
      var n := |ss| - 1;
      CountsSightings(ss[..n]);
      assert MergeAll(ss) == Merge(MergeAll(ss[..n]), ss[n]);
      MergeCounts(MergeAll(ss[..n]), ss[n]);
      hide Merge, MergeAll;
      OneUp(n);
    }
  }

  lemma MergeCounts(d: Device, s: Sighting)
    ensures Merge(d, s).advCount == (d.advCount + 1) % WORD
  {
  }

  lemma OneUp(n: nat)
    ensures (n % WORD + 1) % WORD == (n + 1) % WORD
  {
  }

  /** The name told last stays, cut to its field, while later advertisements leave it out;
      appearance and tag likewise. */
  lemma {:induction false} LastToldStays(ss: seq<Sighting>, k: nat)
    requires k < |ss|
    ensures ss[k].name != [] && (forall j :: k < j < |ss| ==> ss[j].name == []) ==>
              MergeAll(ss).name == ss[k].name[..Min(|ss[k].name|, 23)]
    ensures ss[k].appearance != 0 && (forall j :: k < j < |ss| ==> ss[j].appearance == 0) ==>
              MergeAll(ss).appearance == ss[k].appearance
    ensures ss[k].tag.Some? && (forall j :: k < j < |ss| ==> ss[j].tag == None) ==>
              MergeAll(ss).tag == ss[k].tag
  {
    var n := |ss| - 1;
    MergeSilent(MergeAll(ss[..n]), ss[n]);
    if k < n {
      var pre := ss[..n];
      LastToldStays(pre, k);
      assert forall j :: k < j < n ==> pre[j] == ss[j];
    }
    assert MergeAll(ss) == Merge(MergeAll(ss[..n]), ss[n]);
    hide Merge, MergeAll;
  }

  /** The address kind, the signal strength and whether it takes connections are the last told. */
  lemma LastSightingShows(ss: seq<Sighting>)
    requires ss != []
    ensures var last := ss[|ss| - 1];
            && MergeAll(ss).addrType == last.addrType
            && MergeAll(ss).rssi == last.rssi
            && MergeAll(ss).connectable == last.connectable
  {
  }

  /** What was never told stays as in a new row. */
  lemma {:induction false} NeverTold(ss: seq<Sighting>)
    ensures (forall k :: 0 <= k < |ss| ==> ss[k].name == []) ==> MergeAll(ss).name == []
    ensures (forall k :: 0 <= k < |ss| ==> ss[k].appearance == 0) ==> MergeAll(ss).appearance == 0
    ensures (forall k :: 0 <= k < |ss| ==> ss[k].tag == None) ==> MergeAll(ss).tag == None
  {
    if ss != [] {
      NeverTold(ss[..|ss| - 1]);
    }
  }

  lemma MergeSilent(d: Device, s: Sighting)
    ensures Merge(d, s).name == if s.name == [] then d.name else s.name[..Min(|s.name|, NAME_CAP - 1)]
    ensures Merge(d, s).appearance == if s.appearance == 0 then d.appearance else s.appearance
    ensures Merge(d, s).tag == if s.tag == None then d.tag else s.tag
  {
    assert s.name[..|s.name|] == s.name;
  }

  /** Every row is the sum of the sightings logged for its device. */
  predicate Tells(rows: seq<Entry<Device>>, log: map<int, seq<Sighting>>) {
    forall k :: 0 <= k < |rows| ==>
      rows[k].addr in log && log[rows[k].addr] != [] && rows[k].value == MergeAll(log[rows[k].addr])
  }

  /** A sighting keeps that so, with the log of an address starting afresh when it had no row. */
  lemma RecordTells(rows: seq<Entry<Device>>, log: map<int, seq<Sighting>>, addr: int, s: Sighting, now: nat)
    requires Distinct(rows) && |rows| <= DEV_CAP && Tells(rows, log)
    ensures var i := Slot(rows, DEV_CAP, addr);
            var known := Find(rows, addr) < |rows|;
            var d := if known then rows[i].value else NewDevice;
            var told := if known then log[addr] else [];
            Tells(At(rows, i, Entry(addr, now, Merge(d, s))), log[addr := told + [s]])
  {
    hide MergeAll, Merge, IsOldest;
    var i := Slot(rows, DEV_CAP, addr);
    var known := Find(rows, addr) < |rows|;
    var told := if known then log[addr] else [];
    var d := if known then rows[i].value else NewDevice;
    var e := Entry(addr, now, Merge(d, s));
    MergeMore(told, s);
    assert d == MergeAll(told);
    PutDistinct(rows, DEV_CAP, e, i);
    hide IsSlot;
    TellsPut(rows, log, i, e, told + [s]);
  }

  lemma MergeMore(told: seq<Sighting>, s: Sighting)
    ensures MergeAll([]) == NewDevice && MergeAll(told + [s]) == Merge(MergeAll(told), s)
  {
    assert (told + [s])[..|told|] == told;
    hide Merge;
  }

  lemma TellsPut(rows: seq<Entry<Device>>, log: map<int, seq<Sighting>>, i: nat, e: Entry<Device>, told: seq<Sighting>)
    requires i <= |rows| && Distinct(At(rows, i, e))
    requires Tells(rows, log) && told != [] && e.value == MergeAll(told)
    ensures Tells(At(rows, i, e), log[e.addr := told])
  {
    hide MergeAll;
    var next := At(rows, i, e);
    assert next[i] == e;
    assert forall k :: 0 <= k < |next| && k != i ==> next[k] == rows[k] && next[k].addr != next[i].addr;
  }

  /** The unsigned 32-bit difference of two clock readings. */
  function Age(now: int, last: int): (a: nat)
    ensures a < WORD
  {
    (now - last) % WORD
  }

  predicate Stale<V>(now: int, e: Entry<V>) {
    Age(now, e.last) > STALE_MS
  }

  /** The rows a sweep keeps, with how often each occurs. */
  ghost function Kept<V(!new)>(rows: seq<Entry<V>>, now: int): multiset<Entry<V>> {
    if rows == [] then multiset{}
    else
      var n := |rows| - 1;
      Kept(rows[..n], now) + if Stale(now, rows[n]) then multiset{} else multiset{rows[n]}
  }

  lemma {:induction false} KeptCount<V(!new)>(rows: seq<Entry<V>>, now: int, x: Entry<V>)
    ensures Kept(rows, now)[x] == if Stale(now, x) then 0 else multiset(rows)[x]
  {
    if rows != [] {
      var n := |rows| - 1;
      KeptCount(rows[..n], now, x);
      assert rows == rows[..n] + [rows[n]];
      hide Stale;
    }
  }

  lemma FilledBag<T>(s: seq<T>, i: nat)
    requires i < |s|
    ensures multiset(s[i := s[|s| - 1]][..|s| - 1]) + multiset{s[i]} == multiset(s)
  {
    var n := |s| - 1;
    if i == n {
      assert s[i := s[n]][..n] == s[..n];
      assert s == s[..n] + [s[n]];
      assert multiset(s[..n] + [s[n]]) == multiset(s[..n]) + multiset{s[n]};
    } else {
      var before, between, x, last := s[..i], s[i + 1..n], s[i], s[n];
      assert s == before + [x] + between + [last];
      assert s[i := last][..n] == before + [last] + between;
      SwappedBag(before, x, between, last);
    }
  }

  lemma SwappedBag<T>(before: seq<T>, x: T, between: seq<T>, last: T)
    ensures multiset(before + [last] + between) + multiset{x} == multiset(before + [x] + between + [last])
  {
    assert multiset(before + [last] + between) == multiset(before) + multiset{last} + multiset(between);
    assert multiset(before + [x] + between + [last]) == multiset(before + [x] + between) + multiset{last};
    assert multiset(before + [x] + between) == multiset(before) + multiset{x} + multiset(between);
  }

  /** Moving the last row into the hole of a stale one loses nothing that is kept. */
  lemma FillHole<V(!new)>(rows: seq<Entry<V>>, now: int, i: nat)
    requires i < |rows| && Stale(now, rows[i])
    ensures Kept(rows[i := rows[|rows| - 1]][..|rows| - 1], now) == Kept(rows, now)
  {
    var n := |rows| - 1;
    var filled := rows[i := rows[n]][..n];
    FilledBag(rows, i);
    forall x ensures Kept(filled, now)[x] == Kept(rows, now)[x] {
      KeptCount(filled, now, x);
      KeptCount(rows, now, x);
      hide Kept;
    }
    hide Stale;
  }

  lemma {:induction false} AllFresh<V(!new)>(rows: seq<Entry<V>>, now: int)
    requires forall k :: 0 <= k < |rows| ==> !Stale(now, rows[k])
    ensures Kept(rows, now) == multiset(rows)
  {
    hide Stale;
    if rows != [] {
      var n := |rows| - 1;
      AllFresh(rows[..n], now);
      assert rows == rows[..n] + [rows[n]];
    }
  }

  class Table {
    var rows: array<Entry<Device>>
    var count: nat

    predicate Valid()
      reads this
    {
      rows.Length == DEV_CAP && count <= DEV_CAP
    }

    function Rows(): seq<Entry<Device>>
      reads this, rows
      requires Valid()
    {
      rows[..count]
    }

    constructor ()
      ensures Valid() && fresh(rows) && Rows() == []
    {
      rows := new Entry<Device>[DEV_CAP](_ => Entry(0, 0, NewDevice));
      count := 0;
    }

    /** The row of `addr`, made afresh in a free place or over the oldest row when it has none. */
    method FindOrAlloc(addr: int) returns (i: nat)
      requires Valid()
      modifies this`count, rows
      ensures Valid() && i < count && i == Slot(old(Rows()), DEV_CAP, addr)
      ensures if Find(old(Rows()), addr) < |old(Rows())| then Rows() == old(Rows())
              else Rows() == At(old(Rows()), i, Entry(addr, 0, NewDevice))
    {
      ghost var before := Rows();
      i := SlotFor(rows, count, addr);
      OneSlot(before, DEV_CAP, addr, i, Slot(before, DEV_CAP, addr));
      if i == count {
        count := count + 1;
        rows[i] := Entry(addr, 0, NewDevice);
        assert Rows() == before + [Entry(addr, 0, NewDevice)];
      } else if rows[i].addr != addr {
        rows[i] := Entry(addr, 0, NewDevice);
        assert Rows() == before[i := Entry(addr, 0, NewDevice)];
      }
    }

    method Record(addr: int, s: Sighting, now: nat)
      requires Valid()
      modifies this`count, rows
      ensures Valid()
      ensures var i := Slot(old(Rows()), DEV_CAP, addr);
              var known := Find(old(Rows()), addr) < |old(Rows())|;
              var d := if known then old(Rows())[i].value else NewDevice;
              Rows() == At(old(Rows()), i, Entry(addr, now, Merge(d, s)))
    {
      hide Merge;
      ghost var before := Rows();
      var i := FindOrAlloc(addr);
      hide IsSlot;
      ghost var between := Rows();
      rows[i] := Entry(addr, now, Merge(rows[i].value, s));
      assert Rows() == between[i := Entry(addr, now, Merge(between[i].value, s))];
    }

    /** The sweep keeps exactly the rows that are not stale. */
    method Prune(now: nat)
      requires Valid()
      modifies this`count, rows
      ensures Valid() && multiset(Rows()) == Kept(old(Rows()), now)
    {
      hide Stale, Kept;
      var i := 0;
      while i < count
        invariant Valid() && i <= count && rows == old(rows)
        invariant forall k :: 0 <= k < i ==> !Stale(now, rows[k])
        invariant Kept(rows[..count], now) == Kept(old(Rows()), now)
        decreases count - i
      {
        if Stale(now, rows[i]) {
          ghost var before := rows[..count];
          FillHole(before, now, i);
          count := count - 1;
          rows[i] := rows[count];
          assert rows[..count] == before[i := before[count]][..count];
        } else {
          i := i + 1;
        }
      }
      AllFresh(rows[..count], now);
    }
  }

  // --------------------------------------------------------------- as a map

  lemma {:induction false} DistinctHasNoRepeats<V(!new)>(rows: seq<Entry<V>>, x: Entry<V>)
    requires Distinct(rows)
    ensures multiset(rows)[x] == if x in rows then 1 else 0
  {
    if rows != [] {
      var n := |rows| - 1;
      DistinctHasNoRepeats(rows[..n], x);
      assert rows == rows[..n] + [rows[n]];
    }
  }

  /** On distinct rows the sweep is a restriction of the map: the rows stay distinct, and an
      address is kept, with its row, exactly when that row is not stale. */
  lemma PruneRefinesMap<V(!new)>(before: seq<Entry<V>>, after: seq<Entry<V>>, now: int)
    requires Distinct(before) && multiset(after) == Kept(before, now)
    ensures Distinct(after)
    ensures forall x :: x in after <==> x in before && !Stale(now, x)
    ensures AsMap(after) == map a | a in AsMap(before) && !Stale(now, AsMap(before)[a]) :: AsMap(before)[a]
  {
    hide Stale, Distinct;
    forall x
      ensures multiset(after)[x] <= 1
      ensures x in after <==> x in before && !Stale(now, x)
    {
      KeptCount(before, now, x);
      DistinctHasNoRepeats(before, x);
      assert x in after <==> x in multiset(after);
    }
    SubsetDistinct(before, after);
    hide AsMap;
    forall a
      ensures a in AsMap(after) <==> a in AsMap(before) && !Stale(now, AsMap(before)[a])
      ensures a in AsMap(after) ==> AsMap(after)[a] == AsMap(before)[a]
    {
      SameRow(before, after, a, now);
    }
  }

  lemma TwiceIsTwo<T>(s: seq<T>, i: nat, j: nat)
    requires i < j < |s| && s[i] == s[j]
    ensures multiset(s)[s[i]] >= 2
  {
    assert s == s[..j] + s[j..];
    assert s[i] in s[..j] && s[i] in s[j..];
    assert multiset(s)[s[i]] == multiset(s[..j])[s[i]] + multiset(s[j..])[s[i]];
  }

  lemma SubsetDistinct<V(!new)>(before: seq<Entry<V>>, after: seq<Entry<V>>)
    requires Distinct(before)
    requires forall x :: x in after ==> x in before
    requires forall x :: multiset(after)[x] <= 1
    ensures Distinct(after)
  {
    forall i, j | 0 <= i < j < |after| ensures after[i].addr != after[j].addr {
      if after[i] == after[j] {
        TwiceIsTwo(after, i, j);
      }
      assert after[i] in after && after[j] in after;
      var p :| 0 <= p < |before| && before[p] == after[i];
      var q :| 0 <= q < |before| && before[q] == after[j];
    }
  }

  lemma SameRow<V(!new)>(before: seq<Entry<V>>, after: seq<Entry<V>>, a: int, now: int)
    requires Distinct(before) && Distinct(after)
    requires forall x :: x in after <==> x in before && !Stale(now, x)
    ensures a in AsMap(after) <==> a in AsMap(before) && !Stale(now, AsMap(before)[a])
    ensures a in AsMap(after) ==> AsMap(after)[a] == AsMap(before)[a]
  {
    InMap(before, a);
    InMap(after, a);
    hide AsMap, Stale;
    if a in AsMap(after) {
      var x := AsMap(after)[a];
      assert x in after;
      var k :| 0 <= k < |before| && before[k] == x;
      FindAt(before, a, k);
    }
    if a in AsMap(before) && !Stale(now, AsMap(before)[a]) {
      var x := AsMap(before)[a];
      var k :| 0 <= k < |after| && after[k] == x;
      FindAt(after, a, k);
    }
  }

  // ------------------------------------------------------------ in real time

  /** A run on a clock that does not wrap; the rows hold its low 32 bits, and here each row
      also carries the true time of its latest sighting. */
  datatype Event = Sight(addr: int, at: nat) | Sweep(at: nat)

  ghost predicate Stepped(rows: seq<Entry<nat>>, next: seq<Entry<nat>>, e: Event) {
    match e
    case Sight(addr, at) =>
      exists i: nat ::
        i <= |rows| && IsSlot(rows, DEV_CAP, addr, i) && next == At(rows, i, Entry(addr, at % WORD, at))
    case Sweep(at) => multiset(next) == Kept(rows, at % WORD)
  }

  ghost predicate IsRun(events: seq<Event>, states: seq<seq<Entry<nat>>>) {
    && |states| == |events| + 1 && states[0] == []
    && forall k :: 0 <= k < |events| ==> Stepped(states[k], states[k + 1], events[k])
  }

  /** The time of the last sweep, zero before the first. */
  function LastSweep(events: seq<Event>): nat {
    if events == [] then 0
    else
      var e := events[|events| - 1];
      if e.Sweep? then e.at else LastSweep(events[..|events| - 1])
  }

  /** Time does not go back, and no two sweeps are so far apart that the clock wraps unseen. */
  ghost predicate Timely(events: seq<Event>) {
    && (forall j, k :: 0 <= j < k < |events| ==> events[j].at <= events[k].at)
    && forall k :: 0 <= k < |events| ==>
         LastSweep(events[..k]) <= events[k].at < LastSweep(events[..k]) + WORD - STALE_MS
  }

  /** The rows' true ages: no row predates the last sweep by more than the limit. */
  predicate Honest(rows: seq<Entry<nat>>, now: nat, sweep: nat) {
    forall k :: 0 <= k < |rows| ==>
      && rows[k].last == rows[k].value % WORD
      && rows[k].value <= now && sweep <= rows[k].value + STALE_MS
  }

  lemma TrueAge(now: nat, seen: nat)
    requires seen <= now < seen + WORD
    ensures Age(now % WORD, seen % WORD) == now - seen
  {
  }

  /** In a timely run the wrapped ages are the true ones: a sweep keeps exactly the rows truly
      seen within the limit. */
  lemma SweepIsExact(events: seq<Event>, states: seq<seq<Entry<nat>>>, x: Entry<nat>)
    requires events != [] && IsRun(events, states) && Timely(events) && events[|events| - 1].Sweep?
    ensures x in states[|events|] <==>
            x in states[|events| - 1] && events[|events| - 1].at - x.value <= 1_800_000
  {
    var n := |events| - 1;
    Prefix(events, states);
    RunHonest(events[..n], states[..n + 1]);
    hide IsRun, Timely;
    SweepKeeps(states[n], states[n + 1], events[n].at, LastSweep(events[..n]), x);
  }

  lemma SweepKeeps(rows: seq<Entry<nat>>, next: seq<Entry<nat>>, at: nat, sweep: nat, x: Entry<nat>)
    requires multiset(next) == Kept(rows, at % WORD)
    requires forall k :: 0 <= k < |rows| ==>
               && rows[k].last == rows[k].value % WORD
               && rows[k].value <= at && sweep <= rows[k].value + STALE_MS
    requires sweep <= at < sweep + WORD - STALE_MS
    ensures x in next <==> x in rows && at - x.value <= STALE_MS
  {
    KeptCount(rows, at % WORD, x);
    assert x in next <==> x in multiset(next);
    hide Kept;
    if x in rows {
      var k :| 0 <= k < |rows| && rows[k] == x;
      TrueAge(at, x.value);
    }
    hide Age;
  }

  lemma Prefix(events: seq<Event>, states: seq<seq<Entry<nat>>>)
    requires events != [] && IsRun(events, states) && Timely(events)
    ensures var n := |events| - 1;
            && IsRun(events[..n], states[..n + 1]) && Timely(events[..n])
            && states[..n + 1][n] == states[n]
            && Stepped(states[n], states[n + 1], events[n])
            && (n > 0 ==> events[..n][n - 1].at <= events[n].at)
            && LastSweep(events[..n]) <= events[n].at < LastSweep(events[..n]) + WORD - STALE_MS
  {
    hide Stepped, LastSweep;
    var n := |events| - 1;
    assert forall k :: 0 <= k < n ==> events[..n][..k] == events[..k];
  }

  lemma {:induction false} RunHonest(events: seq<Event>, states: seq<seq<Entry<nat>>>)
    requires IsRun(events, states) && Timely(events)
    ensures |states| == |events| + 1
    ensures Honest(states[|events|], if events == [] then 0 else events[|events| - 1].at, LastSweep(events))
  {
    if events != [] {
      var n := |events| - 1;
      hide Stepped, Timely, Honest, IsRun, LastSweep;
      Prefix(events, states);
      RunHonest(events[..n], states[..n + 1]);
      var now := if n == 0 then 0 else events[n - 1].at;
      SweepAfter(events);
      StepHonest(states[n], states[n + 1], events[n], now, LastSweep(events[..n]));
    }
  }

  lemma SweepAfter(events: seq<Event>)
    requires events != []
    ensures var n := |events| - 1;
            LastSweep(events) == if events[n].Sweep? then events[n].at else LastSweep(events[..n])
  {
  }

  lemma StepHonest(rows: seq<Entry<nat>>, next: seq<Entry<nat>>, e: Event, now: nat, sweep: nat)
    requires Honest(rows, now, sweep) && Stepped(rows, next, e)
    requires now <= e.at && sweep <= e.at < sweep + WORD - STALE_MS
    ensures Honest(next, e.at, if e.Sweep? then e.at else sweep)
  {
    if e.Sweep? {
      forall k | 0 <= k < |next| ensures next[k] in rows && e.at <= next[k].value + STALE_MS {
        SweepKeeps(rows, next, e.at, sweep, next[k]);
      }
    }
  }

  // ----------------------------------------------------- whole runs of sightings and sweeps

  /** A run is as much of a run up to any event, and as timely. */
  lemma RunTo(events: seq<Event>, states: seq<seq<Entry<nat>>>, n: nat)
    requires IsRun(events, states) && n <= |events|
    ensures |states| == |events| + 1 && IsRun(events[..n], states[..n + 1])
    ensures Timely(events) ==> Timely(events[..n])
  {
    hide Stepped, LastSweep;
    assert forall k :: 0 <= k < n ==> events[..n][..k] == events[..k];
  }

  lemma StepAt(events: seq<Event>, states: seq<seq<Entry<nat>>>, k: nat)
    requires IsRun(events, states) && k < |events|
    ensures |states| == |events| + 1 && Stepped(states[k], states[k + 1], events[k])
  {
    hide Stepped;
  }

  lemma {:induction false} KeptCard<V(!new)>(rows: seq<Entry<V>>, now: int)
    ensures |Kept(rows, now)| <= |rows|
  {
    if rows != [] {
      KeptCard(rows[..|rows| - 1], now);
    }
    hide Stale;
  }

  /** In every run the rows have distinct addresses and are at most sixty-four. */
  lemma {:induction false} RunFits(events: seq<Event>, states: seq<seq<Entry<nat>>>)
    requires IsRun(events, states)
    ensures |states| == |events| + 1
    ensures Distinct(states[|events|]) && |states[|events|]| <= 64
  {
    if events != [] {
      hide IsRun, Stepped, Distinct;
      var n := |events| - 1;
      RunTo(events, states, n);
      StepAt(events, states, n);
      RunFits(events[..n], states[..n + 1]);
      StepFits(states[n], states[n + 1], events[n]);
    }
  }

  lemma StepFits(rows: seq<Entry<nat>>, next: seq<Entry<nat>>, e: Event)
    requires Distinct(rows) && |rows| <= DEV_CAP && Stepped(rows, next, e)
    ensures Distinct(next) && |next| <= DEV_CAP
  {
    hide Distinct;
    match e {
      case Sight(addr, at) =>
        var i: nat :| i <= |rows| && IsSlot(rows, DEV_CAP, addr, i) && next == At(rows, i, Entry(addr, at % WORD, at));
        hide IsSlot;
        PutDistinct(rows, DEV_CAP, Entry(addr, at % WORD, at), i);
      case Sweep(at) =>
        KeptCard(rows, at % WORD);
        PruneRefinesMap(rows, next, at % WORD);
        assert |next| == |multiset(next)|;
    }
  }

  /** The full table gives up the row of `a` for a new address: its stored time is the lowest. */
  ghost predicate GivesUp(rows: seq<Entry<nat>>, e: Event, a: int) {
    && e.Sight? && Find(rows, e.addr) == |rows| >= DEV_CAP
    && Find(rows, a) < |rows| && IsOldest(rows, Find(rows, a))
  }

  /** The event `k` takes away the row of an address last seen at `t`. */
  ghost predicate Takes(events: seq<Event>, states: seq<seq<Entry<nat>>>, k: nat, a: int, t: nat) {
    && k < |events| < |states|
    && (GivesUp(states[k], events[k], a) || (events[k].Sweep? && events[k].at - t > STALE_MS))
  }

  predicate Sees(e: Event, a: int) {
    e.Sight? && e.addr == a
  }

  /** The row of an address is there, and as last seen. */
  ghost predicate HasLatest(rows: seq<Entry<nat>>, a: int, t: nat, there: bool) {
    && (a in AsMap(rows) <==> there)
    && (there ==> AsMap(rows)[a] == Entry(a, t % WORD, t))
  }

  lemma JustSeen(rows: seq<Entry<nat>>, next: seq<Entry<nat>>, e: Event)
    requires Distinct(rows) && |rows| <= DEV_CAP && e.Sight? && Stepped(rows, next, e)
    ensures HasLatest(next, e.addr, e.at, true)
  {
    var x := Entry(e.addr, e.at % WORD, e.at);
    var i: nat :| i <= |rows| && IsSlot(rows, DEV_CAP, e.addr, i) && next == At(rows, i, x);
    hide AsMap, IsSlot, Distinct;
    PutDistinct(rows, DEV_CAP, x, i);
    PutLookup(rows, DEV_CAP, x, i, e.addr);
  }

  lemma SightKeeps(rows: seq<Entry<nat>>, next: seq<Entry<nat>>, e: Event, a: int, t: nat, there: bool)
    requires Distinct(rows) && |rows| <= DEV_CAP && e.Sight? && e.addr != a && Stepped(rows, next, e)
    requires HasLatest(rows, a, t, there)
    ensures HasLatest(next, a, t, there && !GivesUp(rows, e, a))
  {
    var x := Entry(e.addr, e.at % WORD, e.at);
    var i: nat :| i <= |rows| && IsSlot(rows, DEV_CAP, e.addr, i) && next == At(rows, i, x);
    PutDistinct(rows, DEV_CAP, x, i);
    PutLookup(rows, DEV_CAP, x, i, a);
    InMap(rows, a);
    GivesUpIff(rows, e, a, i);
    hide AsMap, IsSlot, Distinct, GivesUp, Evicted, Stepped;
  }

  lemma GivesUpIff(rows: seq<Entry<nat>>, e: Event, a: int, i: nat)
    requires Distinct(rows) && |rows| <= DEV_CAP && e.Sight? && i <= |rows| && IsSlot(rows, DEV_CAP, e.addr, i)
    ensures GivesUp(rows, e, a) <==> Find(rows, a) < |rows| && a in Evicted(rows, DEV_CAP, e.addr, i)
  {
    var f := Find(rows, a);
    if f < |rows| && i < |rows| && rows[i].addr == a {
      FindAt(rows, a, i);
    }
  }

  lemma SweepTakes(rows: seq<Entry<nat>>, next: seq<Entry<nat>>, e: Event, sweep: nat, a: int, t: nat, there: bool)
    requires Distinct(rows) && e.Sweep? && Stepped(rows, next, e) && HasLatest(rows, a, t, there)
    requires Honest(rows, e.at, sweep) && sweep <= e.at < sweep + WORD - STALE_MS
    ensures HasLatest(next, a, t, there && e.at - t <= STALE_MS)
  {
    PruneRefinesMap(rows, next, e.at % WORD);
    InMap(rows, a);
    hide AsMap, Distinct, Stepped;
    if there {
      TrueAge(e.at, t);
    }
    hide Age;
  }

  /** Honest rows stay so as time goes on. */
  lemma HonestLater(rows: seq<Entry<nat>>, now: nat, later: nat, sweep: nat)
    requires Honest(rows, now, sweep) && now <= later
    ensures Honest(rows, later, sweep)
  {
  }

  /** Nothing between the events `i` and `n` takes the row away. */
  ghost predicate Spared(events: seq<Event>, states: seq<seq<Entry<nat>>>, i: nat, n: nat, a: int, t: nat) {
    forall k: nat :: i < k < n ==> !Takes(events, states, k, a, t)
  }

  /** In every timely run of sightings and sweeps, from the last sighting of an address on: its row is
      there, with that sighting, until the full table gives it up or a sweep comes after the limit, and
      not there any more from then on. */
  lemma {:induction false} LatestStays(events: seq<Event>, states: seq<seq<Entry<nat>>>, i: nat, n: nat, a: int)
    requires IsRun(events, states) && Timely(events)
    requires i < n <= |events| && Sees(events[i], a) && forall j :: i < j < n ==> !Sees(events[j], a)
    ensures |states| == |events| + 1
    ensures HasLatest(states[n], a, events[i].at, Spared(events, states, i, n, a, events[i].at))
    decreases n
  {
    hide IsRun, Timely, Stepped, HasLatest, Spared, Takes;
    StepAt(events, states, n - 1);
    var t := events[i].at;
    if i == n - 1 {
      FitsAt(events, states, i);
      JustSeen(states[i], states[n], events[i]);
      NothingBetween(events, states, i, a, t);
    } else {
      LatestStays(events, states, i, n - 1, a);
      StaysStep(events, states, n - 1, a, t, Spared(events, states, i, n - 1, a, t));
      TakenBy(events, states, i, n, a, t);
    }
  }

  lemma FitsAt(events: seq<Event>, states: seq<seq<Entry<nat>>>, k: nat)
    requires IsRun(events, states) && k <= |events|
    ensures |states| == |events| + 1 && Distinct(states[k]) && |states[k]| <= DEV_CAP
  {
    hide IsRun, Distinct;
    RunTo(events, states, k);
    RunFits(events[..k], states[..k + 1]);
  }

  lemma NothingBetween(events: seq<Event>, states: seq<seq<Entry<nat>>>, i: nat, a: int, t: nat)
    ensures Spared(events, states, i, i + 1, a, t)
  {
  }

  lemma StaysStep(events: seq<Event>, states: seq<seq<Entry<nat>>>, k: nat, a: int, t: nat, there: bool)
    requires IsRun(events, states) && Timely(events) && k < |events| < |states|
    requires !Sees(events[k], a) && HasLatest(states[k], a, t, there)
    ensures HasLatest(states[k + 1], a, t, there && !Takes(events, states, k, a, t))
  {
    hide IsRun, Timely, Stepped, HasLatest, Honest, Distinct, GivesUp, LastSweep;
    FitsAt(events, states, k);
    StepAt(events, states, k);
    if events[k].Sight? {
      SightKeeps(states[k], states[k + 1], events[k], a, t, there);
    } else {
      HonestBefore(events, states, k);
      SweepTakes(states[k], states[k + 1], events[k], LastSweep(events[..k]), a, t, there);
      OnlySightsGiveUp(states[k], events[k], a);
    }
  }

  lemma OnlySightsGiveUp(rows: seq<Entry<nat>>, e: Event, a: int)
    ensures GivesUp(rows, e, a) ==> e.Sight?
  {
  }

  /** Spared by then is spared before and by the last event. */
  lemma TakenBy(events: seq<Event>, states: seq<seq<Entry<nat>>>, i: nat, n: nat, a: int, t: nat)
    requires i < n - 1
    ensures Spared(events, states, i, n, a, t) <==>
            Spared(events, states, i, n - 1, a, t) && !Takes(events, states, n - 1, a, t)
  {
    hide Takes;
  }

  lemma HonestBefore(events: seq<Event>, states: seq<seq<Entry<nat>>>, k: nat)
    requires IsRun(events, states) && Timely(events) && k < |events| && |states| == |events| + 1
    ensures Honest(states[k], events[k].at, LastSweep(events[..k]))
    ensures LastSweep(events[..k]) <= events[k].at < LastSweep(events[..k]) + WORD - STALE_MS
  {
    hide IsRun, Honest, LastSweep, Stepped;
    RunTo(events, states, k);
    RunHonest(events[..k], states[..k + 1]);
    var now := if k == 0 then 0 else events[k - 1].at;
    HonestLater(states[k], now, events[k].at, LastSweep(events[..k]));
  }

  /** So an address truly seen within the limit has its latest sighting in the table, unless since then
      the full table gave it up, as the row with the lowest stored time, for a new one. */
  lemma SeenLatelyIsThere(events: seq<Event>, states: seq<seq<Entry<nat>>>, i: nat, a: int)
    requires IsRun(events, states) && Timely(events)
    requires i < |events| && Sees(events[i], a) && forall j :: i < j < |events| ==> !Sees(events[j], a)
    requires events[|events| - 1].at - events[i].at <= STALE_MS
    ensures |states| == |events| + 1
    ensures HasLatest(states[|events|], a, events[i].at,
                      forall k: nat :: i < k < |events| ==> !GivesUp(states[k], events[k], a))
  {
    hide IsRun, HasLatest, GivesUp, Timely, Takes, Spared;
    LatestStays(events, states, i, |events|, a);
    SparedLately(events, states, i, a);
  }

  lemma SparedLately(events: seq<Event>, states: seq<seq<Entry<nat>>>, i: nat, a: int)
    requires Timely(events) && i < |events| < |states| && events[|events| - 1].at - events[i].at <= STALE_MS
    ensures Spared(events, states, i, |events|, a, events[i].at) <==>
            forall k: nat :: i < k < |events| ==> !GivesUp(states[k], events[k], a)
  {
    hide GivesUp, LastSweep;
    var t := events[i].at;
    forall k: nat | i < k < |events|
      ensures Takes(events, states, k, a, t) <==> GivesUp(states[k], events[k], a)
    {
      assert events[k].at <= events[|events| - 1].at;
      OnlySightsGiveUp(states[k], events[k], a);
    }
    hide Takes, Timely;
  }
}
