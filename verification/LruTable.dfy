/** A bounded table of rows keyed by address whose fullest state gives up the row seen
    longest ago: the shape of the scanner's device table and of the BTHome cache. */
module LruTable {
  import opened Prelude

  /** `last` is the time of the latest sighting. */
  datatype Entry<+V> = Entry(addr: int, last: int, value: V)

  predicate Distinct<V>(rows: seq<Entry<V>>) {
    forall i, j :: 0 <= i < j < |rows| ==> rows[i].addr != rows[j].addr
  }

  /** The first row of the address, or the length when it has none. */
  function Find<V>(rows: seq<Entry<V>>, addr: int): (i: nat)
    ensures i <= |rows| && (i < |rows| ==> rows[i].addr == addr)
    ensures forall k :: 0 <= k < i ==> rows[k].addr != addr
  {
    if rows == [] || rows[0].addr == addr then 0 else 1 + Find(rows[1..], addr)
  }

  lemma {:induction false} FindAt<V>(rows: seq<Entry<V>>, addr: int, i: nat)
    requires i <= |rows| && (i < |rows| ==> rows[i].addr == addr)
    requires forall k :: 0 <= k < i ==> rows[k].addr != addr
    ensures Find(rows, addr) == i
  {
    if i > 0 {
      FindAt(rows[1..], addr, i - 1);
    }
  }

  /** The first of the rows seen longest ago. */
  predicate IsOldest<V>(rows: seq<Entry<V>>, i: nat) {
    && i < |rows|
    && (forall k :: 0 <= k < |rows| ==> rows[i].last <= rows[k].last)
    && (forall k :: 0 <= k < i ==> rows[i].last < rows[k].last)
  }

  /** The place of an address: its row, else the next unused one, else the oldest. */
  predicate IsSlot<V>(rows: seq<Entry<V>>, cap: nat, addr: int, i: nat) {
    if Find(rows, addr) < |rows| then i == Find(rows, addr)
    else if |rows| < cap then i == |rows|
    else IsOldest(rows, i)
  }

  lemma OneSlot<V>(rows: seq<Entry<V>>, cap: nat, addr: int, i: nat, j: nat)
    requires IsSlot(rows, cap, addr, i) && IsSlot(rows, cap, addr, j)
    ensures i == j
  {
  }

  /** The rows once the place `i` holds `e`. */
  function At<V>(rows: seq<Entry<V>>, i: nat, e: Entry<V>): seq<Entry<V>>
    requires i <= |rows|
  {
    if i == |rows| then rows + [e] else rows[i := e]
  }

  /** The abstract table. */
  ghost function AsMap<V>(rows: seq<Entry<V>>): map<int, Entry<V>> {
    map i | 0 <= i < |rows| :: rows[i].addr := rows[Find(rows, rows[i].addr)]
  }

  lemma MapOf<V>(rows: seq<Entry<V>>, i: nat)
    requires Distinct(rows) && i < |rows|
    ensures rows[i].addr in AsMap(rows) && AsMap(rows)[rows[i].addr] == rows[i]
  {
    FindAt(rows, rows[i].addr, i);
  }

  lemma InMap<V>(rows: seq<Entry<V>>, addr: int)
    ensures addr in AsMap(rows) <==> Find(rows, addr) < |rows|
    ensures addr in AsMap(rows) ==> AsMap(rows)[addr] == rows[Find(rows, addr)]
  {
    if addr in AsMap(rows) {
      var i: nat :| i < |rows| && rows[i].addr == addr;
      assert Find(rows, addr) <= i;
    }
  }

  /** The address that gives way: none while it fits or is known, else that of the row at `i`. */
  function Evicted<V>(rows: seq<Entry<V>>, cap: nat, addr: int, i: nat): set<int> {
    if Find(rows, addr) == |rows| >= cap && i < |rows| then {rows[i].addr} else {}
  }

  /** Putting a row is putting it into the map, less the row that gives way: one that no
      other row is older than, and only when the table is full and the address new. */
  lemma PutRefinesMap<V>(rows: seq<Entry<V>>, cap: nat, e: Entry<V>, i: nat)
    requires Distinct(rows) && |rows| <= cap && 0 < cap && IsSlot(rows, cap, e.addr, i)
    ensures i <= |rows|
    ensures Distinct(At(rows, i, e)) && |rows| <= |At(rows, i, e)| <= cap
    ensures AsMap(At(rows, i, e)) == (AsMap(rows) - Evicted(rows, cap, e.addr, i))[e.addr := e]
    ensures forall a, b :: a in Evicted(rows, cap, e.addr, i) && b in AsMap(rows)
                           ==> a in AsMap(rows) && AsMap(rows)[a].last <= AsMap(rows)[b].last
  {
    hide *;
    PutDistinct(rows, cap, e, i);
    GivesWay(rows, cap, e.addr, i);
    PutMap(rows, cap, e, i);
  }

  /** What a map says of a key once `gone` gave way and the key `key` was put. */
  ghost predicate IsPut<K, V>(now: map<K, V>, was: map<K, V>, gone: set<K>, key: K, v: V, k: K) {
    && (k in now <==> k == key || (k in was && k !in gone))
    && (k in now ==> now[k] == if k == key then v else was[k])
  }

  lemma PutMap<V>(rows: seq<Entry<V>>, cap: nat, e: Entry<V>, i: nat)
    requires Distinct(rows) && |rows| <= cap && 0 < cap && IsSlot(rows, cap, e.addr, i)
    requires i <= |rows| && Distinct(At(rows, i, e))
    ensures AsMap(At(rows, i, e)) == (AsMap(rows) - Evicted(rows, cap, e.addr, i))[e.addr := e]
  {
    hide AsMap, Evicted, IsSlot, Distinct, At;
    var now, was, gone := AsMap(At(rows, i, e)), AsMap(rows), Evicted(rows, cap, e.addr, i);
    forall a ensures IsPut(now, was, gone, e.addr, e, a) {
      PutLookup(rows, cap, e, i, a);
    }
    hide IsPut;
    MapPut(now, was, gone, e.addr, e);
  }

  lemma MapPut<K, V>(now: map<K, V>, was: map<K, V>, gone: set<K>, key: K, v: V)
    requires forall k :: IsPut(now, was, gone, key, v, k)
    ensures now == (was - gone)[key := v]
  {
    assert forall k :: k in now <==> k in (was - gone)[key := v] by {
      forall k ensures k in now <==> k in (was - gone)[key := v] {
        assert IsPut(now, was, gone, key, v, k);
      }
    }
    forall k | k in now ensures now[k] == (was - gone)[key := v][k] {
      assert IsPut(now, was, gone, key, v, k);
    }
  }

  lemma GivesWay<V>(rows: seq<Entry<V>>, cap: nat, addr: int, i: nat)
    requires Distinct(rows) && |rows| <= cap && 0 < cap && IsSlot(rows, cap, addr, i)
    ensures forall a, b :: a in Evicted(rows, cap, addr, i) && b in AsMap(rows)
                           ==> a in AsMap(rows) && AsMap(rows)[a].last <= AsMap(rows)[b].last
  {
    if Find(rows, addr) == |rows| >= cap {
      MapOf(rows, i);
      forall b | b in AsMap(rows) ensures rows[i].last <= AsMap(rows)[b].last {
        InMap(rows, b);
      }
    }
  }

  lemma PutDistinct<V>(rows: seq<Entry<V>>, cap: nat, e: Entry<V>, i: nat)
    requires Distinct(rows) && |rows| <= cap && 0 < cap && IsSlot(rows, cap, e.addr, i)
    ensures i <= |rows| && Distinct(At(rows, i, e)) && |rows| <= |At(rows, i, e)| <= cap
  {
  }

  /** Where an address is found after the put: the new one at its place, another where it
      was unless its row was the one replaced. */
  lemma PutFind<V>(rows: seq<Entry<V>>, i: nat, e: Entry<V>, a: int)
    requires i <= |rows| && Distinct(At(rows, i, e))
    requires a != e.addr ==> Distinct(rows)
    ensures Find(At(rows, i, e), a) ==
            if a == e.addr then i
            else if Find(rows, a) < |rows| && Find(rows, a) != i then Find(rows, a)
            else |At(rows, i, e)|
  {
    var now := At(rows, i, e);
    var k := Find(rows, a);
    if a == e.addr {
      FindAt(now, a, i);
    } else if k < |rows| && k != i {
      FindAt(now, a, k);
    } else {
      FindAt(now, a, |now|);
    }
  }

  lemma PutLookup<V>(rows: seq<Entry<V>>, cap: nat, e: Entry<V>, i: nat, a: int)
    requires Distinct(rows) && |rows| <= cap && 0 < cap && IsSlot(rows, cap, e.addr, i)
    requires i <= |rows| && Distinct(At(rows, i, e))
    ensures a in AsMap(At(rows, i, e)) <==> a == e.addr || (a in AsMap(rows) && a !in Evicted(rows, cap, e.addr, i))
    ensures a in AsMap(At(rows, i, e)) ==>
              AsMap(At(rows, i, e))[a] == if a == e.addr then e else AsMap(rows)[a]
  {
    InMap(At(rows, i, e), a);
    InMap(rows, a);
    PutFind(rows, i, e, a);
    hide AsMap, Distinct, IsOldest;
  }

  /** The scan both tables make for an address. */
  method SlotFor<V>(rows: array<Entry<V>>, count: nat, addr: int) returns (i: nat)
    requires 0 < rows.Length && count <= rows.Length
    ensures IsSlot(rows[..count], rows.Length, addr, i)
  {
    i := 0;
    while i < count && rows[i].addr != addr
      invariant i <= count && forall k :: 0 <= k < i ==> rows[k].addr != addr
    {
      i := i + 1;
    }
    FindAt(rows[..count], addr, i);
    if i == count == rows.Length {
      i := 0;
      var k := 1;
      while k < count
        invariant i < k <= count
        invariant forall j :: 0 <= j < k ==> rows[i].last <= rows[j].last
        invariant forall j :: 0 <= j < i ==> rows[i].last < rows[j].last
      {
        if rows[k].last < rows[i].last {
          i := k;
        }
        k := k + 1;
      }
    }
  }

  // ---------------------------------------------------------------- whole runs

  /** The slot of an address. */
  ghost function Slot<V>(rows: seq<Entry<V>>, cap: nat, addr: int): (i: nat)
    requires 0 < cap
    ensures IsSlot(rows, cap, addr, i) && i <= |rows|
  {
    if Find(rows, addr) < |rows| then Find(rows, addr)
    else if |rows| < cap then |rows|
    else Oldest(rows)
  }

  ghost function Oldest<V>(rows: seq<Entry<V>>): (i: nat)
    requires rows != []
    ensures IsOldest(rows, i)
  {
    if |rows| == 1 then 0
    else
      var m := Oldest(rows[..|rows| - 1]);
      if rows[|rows| - 1].last < rows[m].last then |rows| - 1 else m
  }

  /** The table after a run of sightings, each replacing the row of its address. */
  ghost function Run<V>(cap: nat, seen: seq<Entry<V>>): seq<Entry<V>>
    requires 0 < cap
  {
    if seen == [] then []
    else
      var rows := Run(cap, seen[..|seen| - 1]);
      At(rows, Slot(rows, cap, seen[|seen| - 1].addr), seen[|seen| - 1])
  }

  /** The latest sighting of each address. */
  ghost function Latest<V>(seen: seq<Entry<V>>): map<int, Entry<V>> {
    if seen == [] then map[]
    else Latest(seen[..|seen| - 1])[seen[|seen| - 1].addr := seen[|seen| - 1]]
  }

  predicate InOrder<V>(seen: seq<Entry<V>>) {
    forall i, j :: 0 <= i < j < |seen| ==> seen[i].last <= seen[j].last
  }

  lemma {:induction false} LatestIsSeen<V>(seen: seq<Entry<V>>, a: int)
    requires a in Latest(seen)
    ensures exists k :: 0 <= k < |seen| && seen[k] == Latest(seen)[a]
  {
    var n := |seen| - 1;
    if seen[n].addr == a {
      assert Latest(seen)[a] == seen[n];
    } else {
      LatestIsSeen(seen[..n], a);
      var k :| 0 <= k < n && seen[..n][k] == Latest(seen[..n])[a];
      assert seen[k] == Latest(seen)[a];
    }
  }

  predicate Crowded<V>(cap: nat, rows: seq<Entry<V>>, since: int) {
    |rows| == cap && forall k :: 0 <= k < |rows| ==> rows[k].last >= since
  }

  /** What the table says of an address: its latest sighting, or, once `cap` others have
      been seen no earlier than that, nothing. */
  ghost predicate Tracks<V>(cap: nat, rows: seq<Entry<V>>, latest: map<int, Entry<V>>, a: int) {
    if a !in latest then a !in AsMap(rows)
    else if a in AsMap(rows) then AsMap(rows)[a] == latest[a]
    else Crowded(cap, rows, latest[a].last)
  }

  /** At the end of any run the table has each address's latest sighting, unless as many
      other addresses as it has rows were seen since. */
  lemma {:induction false} KeepsTheMostRecent<V>(cap: nat, seen: seq<Entry<V>>, a: int)
    requires 0 < cap && InOrder(seen)
    ensures Distinct(Run(cap, seen)) && |Run(cap, seen)| <= cap
    ensures Tracks(cap, Run(cap, seen), Latest(seen), a)
  {
    if seen != [] {
      var n := |seen| - 1;
      var e, rows, latest := seen[n], Run(cap, seen[..n]), Latest(seen[..n]);
      KeepsTheMostRecent(cap, seen[..n], a);
      KeepsTheMostRecent(cap, seen[..n], e.addr);
      if a in latest {
        LatestIsSeen(seen[..n], a);
      }
      hide Run, Latest;
      TracksStep(cap, rows, latest, e, a);
    }
  }

  lemma TracksStep<V>(cap: nat, rows: seq<Entry<V>>, latest: map<int, Entry<V>>, e: Entry<V>, a: int)
    requires 0 < cap && Distinct(rows) && |rows| <= cap
    requires Tracks(cap, rows, latest, a) && (a in latest ==> latest[a].last <= e.last)
    ensures var now := At(rows, Slot(rows, cap, e.addr), e);
            Distinct(now) && |now| <= cap && Tracks(cap, now, latest[e.addr := e], a)
  {
    var i := Slot(rows, cap, e.addr);
    PutDistinct(rows, cap, e, i);
    PutLookup(rows, cap, e, i, a);
    InMap(rows, a);
    var now := At(rows, i, e);
    if a != e.addr && a in latest && a !in AsMap(now) {
      if a in AsMap(rows) {
        assert rows[i].addr == a;
      } else {
        assert Crowded(cap, rows, latest[a].last);
      }
      assert |now| == cap;
      hide AsMap;
    }
  }

  // ---------------------------------------------------------- a clock that wraps

  /** The rows hold the low 32 bits of the clock; here `value` is the true time. */
  const WORD: nat := 0x1_0000_0000

  predicate Stamped(rows: seq<Entry<nat>>) {
    forall k :: 0 <= k < |rows| ==> rows[k].last == rows[k].value % WORD
  }

  /** The rows by the true clock. */
  function True(rows: seq<Entry<nat>>): (r: seq<Entry<nat>>)
    ensures |r| == |rows|
    ensures forall k :: 0 <= k < |rows| ==> r[k] == Entry(rows[k].addr, rows[k].value, rows[k].value)
  {
    seq(|rows|, k requires 0 <= k < |rows| => Entry(rows[k].addr, rows[k].value, rows[k].value))
  }

  /** No row was last seen in an earlier turn of the clock than row `i`. */
  predicate EarliestTurn(rows: seq<Entry<nat>>, i: nat)
    requires i < |rows|
  {
    forall k :: 0 <= k < |rows| ==> rows[i].value / WORD <= rows[k].value / WORD
  }

  /** The row picked as the oldest is truly the oldest exactly when no row is from an earlier turn
      of the clock: a wrap between the sightings of two rows misleads the comparison. */
  lemma OldestIsTrulyOldest(rows: seq<Entry<nat>>, i: nat)
    requires Stamped(rows) && IsOldest(rows, i)
    ensures (forall k :: 0 <= k < |rows| ==> rows[i].value <= rows[k].value) <==> EarliestTurn(rows, i)
    ensures EarliestTurn(rows, i) ==> IsOldest(True(rows), i)
  {
    forall k | 0 <= k < |rows|
      ensures rows[i].value <= rows[k].value <==> rows[i].value / WORD <= rows[k].value / WORD
      ensures rows[i].last < rows[k].last ==> rows[i].value != rows[k].value
    {
      TurnsOrder(rows[i].value, rows[k].value);
    }
  }

  lemma TurnsOrder(t: nat, u: nat)
    requires t % WORD <= u % WORD
    ensures t <= u <==> t / WORD <= u / WORD
  {
  }

  /** A wrap does mislead it: the first of these rows is the older, and the second is picked. */
  lemma WrapMisleads()
    ensures var rows := [Entry(1, 0xFFFF_FFFF, 0xFFFF_FFFF), Entry(2, 5, 0x1_0000_0005)];
            Stamped(rows) && IsOldest(rows, 1) && rows[0].value < rows[1].value
  {
    assert 0x1_0000_0005 % WORD == 5;
  }

  /** Nothing was evicted in the run while a row from an earlier turn of the clock stayed. */
  ghost predicate TrueChoices(cap: nat, seen: seq<Entry<nat>>)
    requires 0 < cap
  {
    forall k :: 0 <= k < |seen| ==> TrueChoice(cap, Run(cap, seen[..k]), seen[k].addr)
  }

  ghost predicate TrueChoice(cap: nat, rows: seq<Entry<nat>>, addr: int)
    requires 0 < cap
  {
    Find(rows, addr) == |rows| >= cap ==> EarliestTurn(rows, Slot(rows, cap, addr))
  }

  /** Such a run goes as it would by a clock that does not wrap. */
  lemma {:induction false} RunsByTheTrueClock(cap: nat, seen: seq<Entry<nat>>)
    requires 0 < cap && Stamped(seen) && TrueChoices(cap, seen)
    ensures Stamped(Run(cap, seen)) && True(Run(cap, seen)) == Run(cap, True(seen))
  {
    if seen != [] {
      hide Run, TrueChoices, TrueChoice, Slot, At;
      var n := |seen| - 1;
      var pre, e := seen[..n], seen[n];
      ChoicesPrefix(cap, seen);
      RunsByTheTrueClock(cap, pre);
      RunMore(cap, seen);
      assert True(seen)[..n] == True(pre);
      RunMore(cap, True(seen));
      SameChoice(cap, Run(cap, pre), e);
    }
  }

  lemma RunMore<V>(cap: nat, seen: seq<Entry<V>>)
    requires 0 < cap && seen != []
    ensures var rows, e := Run(cap, seen[..|seen| - 1]), seen[|seen| - 1];
            Run(cap, seen) == At(rows, Slot(rows, cap, e.addr), e)
  {
    hide Slot, At;
  }

  lemma ChoicesPrefix(cap: nat, seen: seq<Entry<nat>>)
    requires 0 < cap && seen != [] && TrueChoices(cap, seen)
    ensures var n := |seen| - 1;
            TrueChoices(cap, seen[..n]) && TrueChoice(cap, Run(cap, seen[..n]), seen[n].addr)
  {
    hide Run, TrueChoice;
    var n := |seen| - 1;
    assert forall k :: 0 <= k < n ==> seen[..n][..k] == seen[..k];
  }

  lemma SameChoice(cap: nat, rows: seq<Entry<nat>>, e: Entry<nat>)
    requires 0 < cap && Stamped(rows) && e.last == e.value % WORD && TrueChoice(cap, rows, e.addr)
    ensures var next := At(rows, Slot(rows, cap, e.addr), e);
            && Stamped(next)
            && True(next) == At(True(rows), Slot(True(rows), cap, e.addr), Entry(e.addr, e.value, e.value))
  {
    var i := Slot(rows, cap, e.addr);
    FindAt(True(rows), e.addr, Find(rows, e.addr));
    if Find(rows, e.addr) == |rows| >= cap {
      OldestIsTrulyOldest(rows, i);
    }
    OneSlot(True(rows), cap, e.addr, i, Slot(True(rows), cap, e.addr));
    hide IsSlot, IsOldest, EarliestTurn;
  }

  /** So across any number of wraps the table has each address's latest sighting, unless it is full
      of others truly seen no earlier, as long as no eviction was misled. */
  lemma KeepsTheTrulyMostRecent(cap: nat, seen: seq<Entry<nat>>, a: int)
    requires 0 < cap && Stamped(seen) && TrueChoices(cap, seen)
    requires forall i, j :: 0 <= i < j < |seen| ==> seen[i].value <= seen[j].value
    ensures Distinct(Run(cap, seen)) && |Run(cap, seen)| <= cap
    ensures Tracks(cap, True(Run(cap, seen)), Latest(True(seen)), a)
  {
    RunsByTheTrueClock(cap, seen);
    hide Run, Tracks, Latest, TrueChoices;
    var rows := Run(cap, seen);
    KeepsTheMostRecent(cap, True(seen), a);
    assert forall k :: 0 <= k < |rows| ==> rows[k].addr == True(rows)[k].addr;
  }
}
