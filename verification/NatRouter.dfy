/** Port forwarding: a stored table of rules, its copy in flash, and the live rules of the
    network stack, kept together across edits, address changes and the SoftAP going up and down. */
module NatRouter {
  import opened Prelude

  const PORTMAP_MAX: nat := 16

  datatype Key = Key(proto: nat, mport: nat)

  datatype Target = Target(daddr: nat, dport: nat)

  datatype Entry = Entry(valid: bool, key: Key, target: Target)

  const Unused := Entry(false, Key(0, 0), Target(0, 0))

  /** A rule in the network stack, at the station's address it was added for. */
  datatype LiveRule = LiveRule(ip: nat, target: Target)

  // ------------------------------------------------------------ the table as a map

  predicate Holds(e: Entry, key: Key) {
    e.valid && e.key == key
  }

  /** The first valid entry with the key, or the length. */
  function FindRule(t: seq<Entry>, key: Key): (i: nat)
    ensures i <= |t| && (i < |t| ==> Holds(t[i], key))
    ensures forall k :: 0 <= k < i ==> !Holds(t[k], key)
  {
    if t == [] || Holds(t[0], key) then 0 else 1 + FindRule(t[1..], key)
  }

  lemma {:induction false} FindRuleAt(t: seq<Entry>, key: Key, i: nat)
    requires i <= |t| && (i < |t| ==> Holds(t[i], key))
    requires forall k :: 0 <= k < i ==> !Holds(t[k], key)
    ensures FindRule(t, key) == i
  {
    if i > 0 {
      FindRuleAt(t[1..], key, i - 1);
    }
  }

  function FindUnused(t: seq<Entry>): (i: nat)
    ensures i <= |t| && (i < |t| ==> !t[i].valid)
    ensures forall k :: 0 <= k < i ==> t[k].valid
  {
    if t == [] || !t[0].valid then 0 else 1 + FindUnused(t[1..])
  }

  lemma {:induction false} FindUnusedAt(t: seq<Entry>, i: nat)
    requires i <= |t| && (i < |t| ==> !t[i].valid)
    requires forall k :: 0 <= k < i ==> t[k].valid
    ensures FindUnused(t) == i
  {
    if i > 0 {
      FindUnusedAt(t[1..], i - 1);
    }
  }

  predicate Distinct(t: seq<Entry>) {
    forall i, j :: 0 <= i < j < |t| && t[i].valid && t[j].valid ==> t[i].key != t[j].key
  }

  /** The stored rules. */
  ghost function Rules(t: seq<Entry>): map<Key, Target> {
    map i | 0 <= i < |t| && t[i].valid :: t[i].key := t[FindRule(t, t[i].key)].target
  }

  lemma InRules(t: seq<Entry>, key: Key)
    ensures key in Rules(t) <==> FindRule(t, key) < |t|
    ensures key in Rules(t) ==> Rules(t)[key] == t[FindRule(t, key)].target
  {
    if key in Rules(t) {
      var i: nat :| i < |t| && Holds(t[i], key);
      assert FindRule(t, key) <= i;
    }
  }

  lemma RuleOf(t: seq<Entry>, i: nat)
    requires Distinct(t) && i < |t| && t[i].valid
    ensures t[i].key in Rules(t) && Rules(t)[t[i].key] == t[i].target
  {
    FindRuleAt(t, t[i].key, i);
  }

  /** The stored rules as live rules at an address. */
  ghost function LiveAt(rules: map<Key, Target>, ip: nat): map<Key, LiveRule> {
    map k | k in rules :: LiveRule(ip, rules[k])
  }

  /** Where an added rule goes: over the rule with its key, else into an unused entry. */
  function PlaceOf(t: seq<Entry>, key: Key): (i: nat)
    ensures i <= |t|
  {
    if FindRule(t, key) < |t| then FindRule(t, key) else FindUnused(t)
  }

  /** Where a key is found once entry `i` is replaced. */
  lemma FoundAfter(t: seq<Entry>, i: nat, e: Entry, k: Key)
    requires i < |t| && Distinct(t) && Distinct(t[i := e])
    requires t[i].valid ==> t[i].key == e.key
    ensures FindRule(t[i := e], k) ==
            if e.valid && k == e.key then i
            else if FindRule(t, k) < |t| && FindRule(t, k) != i then FindRule(t, k) else |t|
    ensures FindRule(t, k) == i ==> k == e.key
  {
    var now, j := t[i := e], FindRule(t, k);
    if e.valid && k == e.key {
      FindRuleAt(now, k, i);
    } else if j < |t| && j != i {
      FindRuleAt(now, k, j);
    } else {
      FindRuleAt(now, k, |t|);
    }
  }

  /** Replacing the entry of a key touches that key's rule only. */
  lemma Replaced(t: seq<Entry>, i: nat, e: Entry, k: Key)
    requires i < |t| && Distinct(t) && Distinct(t[i := e])
    requires t[i].valid ==> t[i].key == e.key
    requires e.valid || t[i].valid
    ensures k in Rules(t[i := e]) <==> if k == e.key then e.valid else k in Rules(t)
    ensures k in Rules(t[i := e]) ==> Rules(t[i := e])[k] == if k == e.key then e.target else Rules(t)[k]
  {
    FoundAfter(t, i, e, k);
    InRules(t[i := e], k);
    InRules(t, k);
    if t[i].valid {
      FindRuleAt(t, t[i].key, i);
    }
    hide Rules, Distinct;
  }

  /** An added rule is put into the map; it finds no place only when its key is new and the
      table is full of other rules. */
  lemma AddRefinesMap(t: seq<Entry>, key: Key, target: Target)
    requires Distinct(t)
    ensures PlaceOf(t, key) < |t| ==>
              var now := t[PlaceOf(t, key) := Entry(true, key, target)];
              Distinct(now) && Rules(now) == Rules(t)[key := target]
    ensures PlaceOf(t, key) == |t| <==> key !in Rules(t) && forall k :: 0 <= k < |t| ==> t[k].valid
  {
    InRules(t, key);
    var i, e := PlaceOf(t, key), Entry(true, key, target);
    if i < |t| {
      PlacedDistinct(t, key, target);
      hide Rules, Distinct, PlaceOf, Holds;
      AddedRules(t, i, e);
    } else {
      hide Rules;
    }
  }

  lemma AddedRules(t: seq<Entry>, i: nat, e: Entry)
    requires i < |t| && Distinct(t) && Distinct(t[i := e]) && e.valid && (t[i].valid ==> t[i].key == e.key)
    ensures Rules(t[i := e]) == Rules(t)[e.key := e.target]
  {
    hide Rules, Distinct, Holds;
    var now, want := Rules(t[i := e]), Rules(t)[e.key := e.target];
    forall k
      ensures k in now <==> k in want
      ensures k in now ==> now[k] == want[k]
    {
      Replaced(t, i, e, k);
    }
  }

  lemma PlacedDistinct(t: seq<Entry>, key: Key, target: Target)
    requires Distinct(t) && PlaceOf(t, key) < |t|
    ensures Distinct(t[PlaceOf(t, key) := Entry(true, key, target)])
    ensures t[PlaceOf(t, key)].valid ==> t[PlaceOf(t, key)].key == key
  {
  }

  lemma DeletedDistinct(t: seq<Entry>, i: nat)
    requires i < |t| && Distinct(t)
    ensures Distinct(t[i := t[i].(valid := false)])
  {
  }

  /** A deleted rule leaves the map and nothing else does. */
  lemma DeleteRefinesMap(t: seq<Entry>, key: Key)
    requires Distinct(t) && FindRule(t, key) < |t|
    ensures var now := t[FindRule(t, key) := t[FindRule(t, key)].(valid := false)];
            Distinct(now) && Rules(now) == Rules(t) - {key}
  {
    DroppedRules(t, FindRule(t, key));
    hide Rules, Distinct;
  }

  lemma DroppedRules(t: seq<Entry>, i: nat)
    requires i < |t| && Distinct(t) && t[i].valid
    ensures Distinct(t[i := t[i].(valid := false)])
    ensures Rules(t[i := t[i].(valid := false)]) == Rules(t) - {t[i].key}
  {
    DeletedDistinct(t, i);
    var e := t[i].(valid := false);
    hide Rules, Distinct, Holds;
    var now, was := Rules(t[i := e]), Rules(t);
    forall k
      ensures k in now <==> k in was && k != e.key
      ensures k in now ==> now[k] == was[k]
    {
      Replaced(t, i, e, k);
    }
    MapMinus(now, was, e.key);
  }

  lemma MapMinus<K, V>(now: map<K, V>, was: map<K, V>, key: K)
    requires forall k :: k in now <==> k in was && k != key
    requires forall k :: k in now ==> now[k] == was[k]
    ensures now == was - {key}
  {
  }

  // ------------------------------------------------------------------ the router

  /** The state of the whole: `stored` and `storedEnabled` are the copies in flash. */
  datatype Router = Router(table: seq<Entry>, ip: nat, enabled: bool, resumeAp: bool,
                           live: map<Key, LiveRule>, stored: seq<Entry>, storedEnabled: bool)

  ghost function RemovedAll(s: Router): Router {
    s.(live := s.live - Rules(s.table).Keys)
  }

  ghost function Applied(s: Router): Router {
    if s.ip == 0 then s else s.(live := s.live + LiveAt(Rules(s.table), s.ip))
  }

  ghost function Up(s: Router): Router {
    Applied(s).(enabled := true)
  }

  ghost function Down(s: Router): Router {
    RemovedAll(s).(enabled := false)
  }

  ghost function GotIp(s: Router, ip: nat): Router {
    if s.enabled && ip != s.ip then Applied(RemovedAll(s.(ip := ip))) else s.(ip := ip)
  }

  ghost function Enable(s: Router, want: bool): Router {
    if want == s.enabled then s else (if want then Up(s) else Down(s)).(storedEnabled := want)
  }

  ghost function Paused(s: Router): Router {
    var t := s.(resumeAp := s.enabled);
    if s.enabled then Down(t) else t
  }

  ghost function Resumed(s: Router): Router {
    (if s.resumeAp then Up(s) else s).(resumeAp := false)
  }

  /** A restart with the address the station has by then, zero for none. */
  ghost function Restarted(s: Router, ip: nat): Router {
    var t := Router(s.stored, ip, s.storedEnabled, false, map[], s.stored, s.storedEnabled);
    if t.enabled then Up(t) else t
  }

  datatype Reply = Done | BadMport | BadDaddr | BadDport | TableFull

  /** A request to add: the address is None when it does not parse. */
  function AddReply(s: Router, proto: nat, mport: int, daddr: Option<nat>, dport: int): Reply {
    if !(1 <= mport <= 65535) then BadMport
    else if daddr == None then BadDaddr
    else if !(1 <= dport <= 65535) then BadDport
    else if PlaceOf(s.table, Key(proto, mport)) == |s.table| then TableFull
    else Done
  }

  function Added(s: Router, key: Key, target: Target): Router
    requires PlaceOf(s.table, key) < |s.table|
  {
    var t := s.table[PlaceOf(s.table, key) := Entry(true, key, target)];
    s.(table := t, stored := t, live := if s.ip == 0 then s.live else s.live[key := LiveRule(s.ip, target)])
  }

  function Deleted(s: Router, key: Key): Router {
    var i := FindRule(s.table, key);
    if i == |s.table| then s
    else
      var t := s.table[i := s.table[i].(valid := false)];
      s.(table := t, stored := t, live := s.live - {key})
  }

  class Nat {
    var table: array<Entry>
    var staIp: nat
    var enabled: bool
    var otaResumeAp: bool
    /** The network stack's rules and the flash, as far as this component writes them. */
    var live: map<Key, LiveRule>
    var flashTable: seq<Entry>
    var flashEnabled: bool

    ghost predicate Valid()
      reads this, table
    {
      table.Length == PORTMAP_MAX && |flashTable| == PORTMAP_MAX && Distinct(table[..])
    }

    ghost function View(): Router
      reads this, table
    {
      Router(table[..], staIp, enabled, otaResumeAp, live, flashTable, flashEnabled)
    }

    method RemoveAllLive()
      requires Valid()
      modifies this`live
      ensures Valid() && View() == RemovedAll(old(View()))
    {
      hide Distinct, Rules;
      var i := 0;
      while i < table.Length
        invariant i <= table.Length && live == RemoveFirst(old(live), table[..], i)
      {
        if table[i].valid {
          live := live - {table[i].key};
        }
        i := i + 1;
      }
      RemoveFirstAll(old(live), table[..]);
    }

    method ApplyPortmap()
      requires Valid()
      modifies this`live
      ensures Valid() && View() == Applied(old(View()))
    {
      if staIp == 0 {
        return;
      }
      var i := 0;
      while i < table.Length
        invariant i <= table.Length && live == AddFirst(old(live), table[..], i, staIp)
      {
        if table[i].valid {
          live := live[table[i].key := LiveRule(staIp, table[i].target)];
        }
        i := i + 1;
      }
      AddFirstAll(old(live), table[..], staIp);
      hide Distinct, Rules;
    }

    method ApUp()
      requires Valid()
      modifies this`live, this`enabled
      ensures Valid() && View() == Up(old(View()))
    {
      ApplyPortmap();
      enabled := true;
    }

    method ApDown()
      requires Valid()
      modifies this`live, this`enabled
      ensures Valid() && View() == Down(old(View()))
    {
      RemoveAllLive();
      enabled := false;
    }

    method OnStaGotIp(newIp: nat)
      requires Valid()
      modifies this`live, this`staIp
      ensures Valid() && View() == GotIp(old(View()), newIp)
    {
      var changed := newIp != staIp;
      staIp := newIp;
      if !enabled {
        return;
      }
      if !changed {
        return;
      }
      RemoveAllLive();
      ApplyPortmap();
    }

    method SetEnabled(want: bool)
      requires Valid()
      modifies this`live, this`enabled, this`flashEnabled
      ensures Valid() && View() == Enable(old(View()), want)
    {
      if want != enabled {
        if want {
          ApUp();
        } else {
          ApDown();
        }
        flashEnabled := want;
      }
    }

    method PauseForOta()
      requires Valid()
      modifies this`live, this`enabled, this`otaResumeAp
      ensures Valid() && View() == Paused(old(View()))
    {
      otaResumeAp := enabled;
      if enabled {
        ApDown();
      }
    }

    method ResumeAfterOta()
      requires Valid()
      modifies this`live, this`enabled, this`otaResumeAp
      ensures Valid() && View() == Resumed(old(View()))
    {
      if otaResumeAp {
        ApUp();
      }
      otaResumeAp := false;
    }

    method PortmapAdd(proto: nat, mport: int, daddr: Option<nat>, dport: int) returns (reply: Reply)
      requires Valid()
      modifies this`live, this`flashTable, table
      ensures Valid() && reply == AddReply(old(View()), proto, mport, daddr, dport)
      ensures reply == BadMport <==> mport < 1 || 65535 < mport
      ensures reply == BadDaddr <==> 1 <= mport <= 65535 && daddr == None
      ensures reply == BadDport <==> 1 <= mport <= 65535 && daddr != None && (dport < 1 || 65535 < dport)
      ensures reply == TableFull ==>
                forall k :: 0 <= k < table.Length ==> old(table[k].valid && table[k].key != Key(proto, mport))
      ensures View() == if reply == Done then Added(old(View()), Key(proto, mport), Target(daddr.value, dport))
                        else old(View())
    {
      if mport < 1 || mport > 65535 {
        return BadMport;
      }
      if daddr == None {
        return BadDaddr;
      }
      if dport < 1 || dport > 65535 {
        return BadDport;
      }
      var key, target := Key(proto, mport), Target(daddr.value, dport);
      var slot := Place(key);
      if slot == table.Length {
        return TableFull;
      }
      PlacedDistinct(table[..], key, target);
      hide Distinct, PlaceOf;
      Save(slot, Entry(true, key, target));
      if staIp != 0 {
        live := live[key := LiveRule(staIp, target)];
      }
      reply := Done;
    }

    /** Replaces an entry and writes the table to flash. */
    method Save(slot: nat, e: Entry)
      requires Valid() && slot < table.Length && Distinct(table[..][slot := e])
      modifies this`flashTable, table
      ensures Valid() && table[..] == old(table[..])[slot := e] && flashTable == table[..]
    {
      hide Distinct;
      ghost var was := table[..];
      table[slot] := e;
      assert table[..] == was[slot := e];
      flashTable := table[..];
    }

    method Locate(key: Key) returns (i: nat)
      requires Valid()
      ensures i == FindRule(table[..], key)
    {
      i := 0;
      while i < table.Length && !(table[i].valid && table[i].key == key)
        invariant i <= table.Length && forall k :: 0 <= k < i ==> !Holds(table[k], key)
      {
        i := i + 1;
      }
      FindRuleAt(table[..], key, i);
    }

    method Place(key: Key) returns (slot: nat)
      requires Valid()
      ensures slot == PlaceOf(table[..], key)
    {
      slot := Locate(key);
      if slot == table.Length {
        slot := 0;
        while slot < table.Length && table[slot].valid
          invariant slot <= table.Length && forall k :: 0 <= k < slot ==> table[k].valid
        {
          slot := slot + 1;
        }
        FindUnusedAt(table[..], slot);
      }
    }

    method PortmapDelete(proto: nat, mport: int) returns (reply: Reply)
      requires Valid()
      modifies this`live, this`flashTable, table
      ensures Valid()
      ensures reply == if 1 <= mport <= 65535 then Done else BadMport
      ensures View() == if reply == Done then Deleted(old(View()), Key(proto, mport)) else old(View())
    {
      if mport < 1 || mport > 65535 {
        return BadMport;
      }
      var key := Key(proto, mport);
      var i := Locate(key);
      if i < table.Length {
        DeletedDistinct(table[..], i);
        hide Distinct, FindRule;
        Save(i, table[i].(valid := false));
        live := live - {key};
      }
      reply := Done;
    }
  }

  /** The live rules once those of the first `n` entries are removed. */
  function RemoveFirst(live: map<Key, LiveRule>, t: seq<Entry>, n: nat): map<Key, LiveRule>
    requires n <= |t|
  {
    if n == 0 then live
    else if t[n - 1].valid then RemoveFirst(live, t, n - 1) - {t[n - 1].key}
    else RemoveFirst(live, t, n - 1)
  }

  /** The live rules once those of the first `n` entries are added. */
  function AddFirst(live: map<Key, LiveRule>, t: seq<Entry>, n: nat, ip: nat): map<Key, LiveRule>
    requires n <= |t|
  {
    if n == 0 then live
    else if t[n - 1].valid then AddFirst(live, t, n - 1, ip)[t[n - 1].key := LiveRule(ip, t[n - 1].target)]
    else AddFirst(live, t, n - 1, ip)
  }

  /** Some valid entry before `n` has the key. */
  predicate KeyBefore(t: seq<Entry>, n: nat, key: Key) {
    exists i :: 0 <= i < |t| && i < n && Holds(t[i], key)
  }

  lemma KeyStep(t: seq<Entry>, n: nat, k: Key)
    requires n < |t|
    ensures KeyBefore(t, n + 1, k) <==> KeyBefore(t, n, k) || Holds(t[n], k)
  {
    if KeyBefore(t, n + 1, k) {
      var i :| 0 <= i < |t| && i < n + 1 && Holds(t[i], k);
      assert i < n || i == n;
    }
  }

  lemma KeyAll(t: seq<Entry>, k: Key)
    ensures KeyBefore(t, |t|, k) <==> k in Rules(t)
  {
    InRules(t, k);
  }

  lemma {:induction false} RemoveFirstKey(live: map<Key, LiveRule>, t: seq<Entry>, n: nat, k: Key)
    requires n <= |t|
    ensures k in RemoveFirst(live, t, n) <==> k in live && !KeyBefore(t, n, k)
    ensures k in RemoveFirst(live, t, n) ==> RemoveFirst(live, t, n)[k] == live[k]
  {
    if n > 0 {
      RemoveFirstKey(live, t, n - 1, k);
      KeyStep(t, n - 1, k);
      hide KeyBefore;
    }
  }

  lemma RemoveFirstAll(live: map<Key, LiveRule>, t: seq<Entry>)
    ensures RemoveFirst(live, t, |t|) == live - Rules(t).Keys
  {
    hide RemoveFirst, KeyBefore, Rules;
    forall k
      ensures k in RemoveFirst(live, t, |t|) <==> k in live && k !in Rules(t)
      ensures k in RemoveFirst(live, t, |t|) ==> RemoveFirst(live, t, |t|)[k] == live[k]
    {
      RemoveFirstKey(live, t, |t|, k);
      KeyAll(t, k);
    }
  }

  lemma {:induction false} AddFirstKey(live: map<Key, LiveRule>, t: seq<Entry>, n: nat, ip: nat, k: Key)
    requires n <= |t| && Distinct(t)
    ensures k in AddFirst(live, t, n, ip) <==> k in live || KeyBefore(t, n, k)
    ensures KeyBefore(t, n, k) ==> k in Rules(t) && AddFirst(live, t, n, ip)[k] == LiveRule(ip, Rules(t)[k])
    ensures k in live && !KeyBefore(t, n, k) ==> AddFirst(live, t, n, ip)[k] == live[k]
  {
    hide Rules, Distinct, KeyBefore, Holds;
    if n == 0 {
      NoneBefore(t, k);
    } else {
      var prev, e, before := AddFirst(live, t, n - 1, ip), t[n - 1], KeyBefore(t, n - 1, k);
      var now := AddFirst(live, t, n, ip);
      AddFirstKey(live, t, n - 1, ip, k);
      KeyStep(t, n - 1, k);
      var target := if before then Rules(t)[k] else e.target;
      RuleHeld(t, n - 1, k);
      assert now == if e.valid then prev[e.key := LiveRule(ip, e.target)] else prev;
      hide *;
      AddOne(live, prev, now, e, ip, k, before, target);
    }
  }

  lemma NoneBefore(t: seq<Entry>, k: Key)
    ensures !KeyBefore(t, 0, k)
  {
  }

  lemma RuleHeld(t: seq<Entry>, i: nat, k: Key)
    requires Distinct(t) && i < |t|
    ensures Holds(t[i], k) ==> k in Rules(t) && Rules(t)[k] == t[i].target
  {
    if t[i].valid {
      RuleOf(t, i);
    }
  }

  lemma AddOne(live: map<Key, LiveRule>, prev: map<Key, LiveRule>, now: map<Key, LiveRule>, e: Entry, ip: nat,
               k: Key, before: bool, target: Target)
    requires k in prev <==> k in live || before
    requires before ==> prev[k] == LiveRule(ip, target)
    requires k in live && !before ==> prev[k] == live[k]
    requires Holds(e, k) ==> e.target == target
    requires now == if e.valid then prev[e.key := LiveRule(ip, e.target)] else prev
    ensures k in now <==> k in live || before || Holds(e, k)
    ensures before || Holds(e, k) ==> now[k] == LiveRule(ip, target)
    ensures k in live && !before && !Holds(e, k) ==> now[k] == live[k]
  {
  }

  lemma AddFirstAll(live: map<Key, LiveRule>, t: seq<Entry>, ip: nat)
    requires Distinct(t)
    ensures AddFirst(live, t, |t|, ip) == live + LiveAt(Rules(t), ip)
  {
    hide AddFirst, KeyBefore, Rules, Distinct;
    forall k
      ensures k in AddFirst(live, t, |t|, ip) <==> k in live || k in Rules(t)
      ensures k in Rules(t) ==> AddFirst(live, t, |t|, ip)[k] == LiveRule(ip, Rules(t)[k])
      ensures k in live && k !in Rules(t) ==> AddFirst(live, t, |t|, ip)[k] == live[k]
    {
      AddFirstKey(live, t, |t|, ip, k);
      KeyAll(t, k);
    }
  }

  // ------------------------------------------------------------------- whole runs

  datatype Action =
    | Add(key: Key, target: Target)
    | Delete(key: Key)
    | NewIp(ip: nat)
    | Switch(on: bool)
    | Pause
    | Resume
    | Restart(ip: nat)

  ghost function Step(s: Router, a: Action): Router {
    match a
    case Add(key, target) => if PlaceOf(s.table, key) < |s.table| then Added(s, key, target) else s
    case Delete(key) => Deleted(s, key)
    case NewIp(ip) => GotIp(s, ip)
    case Switch(on) => Enable(s, on)
    case Pause => Paused(s)
    case Resume => Resumed(s)
    case Restart(ip) => Restarted(s, ip)
  }

  ghost function Run(s: Router, acts: seq<Action>): Router {
    if acts == [] then s else Step(Run(s, acts[..|acts| - 1]), acts[|acts| - 1])
  }

  /** Rules have distinct keys, the flash has them all, no rule is live that is not stored, and
      while the AP is up at a known address the live rules are the stored ones at it. */
  ghost predicate Agrees(s: Router) {
    && Distinct(s.table) && s.stored == s.table
    && (forall k :: k in s.live ==> k in Rules(s.table))
    && (s.enabled && s.ip != 0 ==> s.live == LiveAt(Rules(s.table), s.ip))
  }

  lemma AppliedAgrees(s: Router)
    requires Distinct(s.table) && s.stored == s.table && forall k :: k in s.live ==> k in Rules(s.table)
    ensures Agrees(Applied(s)) && Agrees(Up(s))
  {
    hide Rules, Distinct;
    var all := LiveAt(Rules(s.table), s.ip);
    assert all.Keys == Rules(s.table).Keys;
    assert s.live + all == all;
  }

  lemma RemovedIsEmpty(s: Router)
    requires Agrees(s)
    ensures RemovedAll(s).live == map[]
  {
    hide Rules;
  }

  lemma AddAgrees(s: Router, key: Key, target: Target)
    requires Agrees(s) && PlaceOf(s.table, key) < |s.table|
    ensures Agrees(Added(s, key, target))
  {
    AddRefinesMap(s.table, key, target);
    var i := PlaceOf(s.table, key);
    var table := s.table[i := Entry(true, key, target)];
    assert Added(s, key, target).table == table;
    hide Rules, Distinct, PlaceOf;
    PutLive(Rules(s.table), Rules(table), key, target, s.ip);
  }

  lemma PutLive(rules: map<Key, Target>, now: map<Key, Target>, key: Key, target: Target, ip: nat)
    requires now == rules[key := target]
    ensures LiveAt(now, ip) == LiveAt(rules, ip)[key := LiveRule(ip, target)]
  {
  }

  lemma DropLive(rules: map<Key, Target>, now: map<Key, Target>, key: Key, ip: nat)
    requires now == rules - {key}
    ensures LiveAt(now, ip) == LiveAt(rules, ip) - {key}
  {
  }

  lemma DeleteAgrees(s: Router, key: Key)
    requires Agrees(s)
    ensures Agrees(Deleted(s, key))
  {
    var i := FindRule(s.table, key);
    if i < |s.table| {
      DeleteRefinesMap(s.table, key);
      var table := s.table[i := s.table[i].(valid := false)];
      hide Rules, Distinct;
      DropLive(Rules(s.table), Rules(table), key, s.ip);
    }
  }

  lemma DownAgrees(s: Router)
    requires Agrees(s)
    ensures Agrees(Down(s))
  {
    RemovedIsEmpty(s);
    hide Distinct, Rules;
  }

  lemma UpAgrees(s: Router)
    requires Agrees(s)
    ensures Agrees(Up(s))
  {
    hide Distinct, Rules;
    AppliedAgrees(s);
  }

  lemma GotIpAgrees(s: Router, ip: nat)
    requires Agrees(s)
    ensures Agrees(GotIp(s, ip))
  {
    RemovedIsEmpty(s);
    hide Distinct, Rules;
    AppliedAgrees(RemovedAll(s.(ip := ip)));
  }

  lemma RestartedAgrees(s: Router, ip: nat)
    requires Agrees(s)
    ensures Agrees(Restarted(s, ip))
  {
    hide Distinct, Rules;
    AppliedAgrees(Router(s.stored, ip, s.storedEnabled, false, map[], s.stored, s.storedEnabled));
  }

  lemma StepAgrees(s: Router, a: Action)
    requires Agrees(s)
    ensures Agrees(Step(s, a))
  {
    match a {
      case Add(key, target) =>
        if PlaceOf(s.table, key) < |s.table| {
          AddAgrees(s, key, target);
        }
      case Delete(key) => DeleteAgrees(s, key);
      case NewIp(ip) => GotIpAgrees(s, ip);
      case Restart(ip) => RestartedAgrees(s, ip);
      case Switch(on) =>
        DownAgrees(s);
        UpAgrees(s);
        hide Up, Down, Distinct, Rules;
      case Pause =>
        DownAgrees(s.(resumeAp := s.enabled));
        hide Down, Distinct, Rules;
      case Resume =>
        UpAgrees(s);
        hide Up, Distinct, Rules;
    }
  }

  function EmptyTable(): (t: seq<Entry>)
    ensures |t| == PORTMAP_MAX && forall k :: 0 <= k < |t| ==> t[k] == Unused
  {
    seq(PORTMAP_MAX, _ => Unused)
  }

  const Fresh := Router(EmptyTable(), 0, true, false, map[], EmptyTable(), true)

  /** In every run from an empty table the four agree after every action. */
  lemma {:induction false} AlwaysAgrees(acts: seq<Action>)
    ensures Agrees(Run(Fresh, acts))
  {
    if acts != [] {
      AlwaysAgrees(acts[..|acts| - 1]);
      StepAgrees(Run(Fresh, acts[..|acts| - 1]), acts[|acts| - 1]);
    }
  }

  /** An update that fails leaves everything as it was, live rules included, except when the AP
      was up without an address and rules were live all the same. */
  lemma PauseResumeRestores(s: Router)
    requires Agrees(s) && !s.resumeAp
    ensures Resumed(Paused(s)) == s <==> (s.enabled && s.ip == 0 ==> s.live == map[])
  {
    RemovedIsEmpty(s);
    RemovedIsEmpty(s.(resumeAp := s.enabled));
    hide Rules, Distinct;
    assert map[] + LiveAt(Rules(s.table), s.ip) == LiveAt(Rules(s.table), s.ip);
  }

  // ------------------------------------------------------------ live with the AP down

  /** The action `i` adds the rule of `k`, not refused, while an address is known. */
  ghost predicate Placed(acts: seq<Action>, i: nat, k: Key) {
    && i < |acts| && acts[i].Add? && acts[i].key == k
    && HasPlace(Run(Fresh, acts[..i]), k)
  }

  ghost predicate HasPlace(s: Router, k: Key) {
    PlaceOf(s.table, k) < |s.table| && s.ip != 0
  }

  /** What ends a live rule, or replaces it: a restart, the AP coming up, its deletion, a new add. */
  ghost predicate Ends(acts: seq<Action>, j: nat, k: Key)
    requires j < |acts|
  {
    acts[j].Restart? || acts[j] == Delete(k) || Placed(acts, j, k) || Run(Fresh, acts[..j + 1]).enabled
  }

  /** A rule added with the AP down, and nothing since to end it. */
  ghost predicate LeftOver(acts: seq<Action>, i: nat, k: Key) {
    && Placed(acts, i, k) && !Run(Fresh, acts[..i]).enabled
    && forall j :: i < j < |acts| ==> !Ends(acts, j, k)
  }

  lemma PrefixEnds(acts: seq<Action>, n: nat, j: nat, k: Key)
    requires n == |acts| - 1 && j < n
    ensures Placed(acts, j, k) <==> Placed(acts[..n], j, k)
    ensures Ends(acts, j, k) <==> Ends(acts[..n], j, k)
    ensures Run(Fresh, acts[..j]) == Run(Fresh, acts[..n][..j])
  {
    hide Run, PlaceOf;
    assert acts[..n][..j] == acts[..j] && acts[..n][..j + 1] == acts[..j + 1];
  }

  lemma LeftOverSnoc(acts: seq<Action>, i: nat, k: Key)
    requires acts != [] && i < |acts|
    ensures var n := |acts| - 1;
            LeftOver(acts, i, k) <==>
            if i == n then Placed(acts, n, k) && !Run(Fresh, acts[..n]).enabled
            else LeftOver(acts[..n], i, k) && !Ends(acts, n, k)
  {
    var n := |acts| - 1;
    hide Run, Placed, Ends;
    if i < n {
      PrefixEnds(acts, n, i, k);
      forall j | i < j < n ensures Ends(acts, j, k) <==> Ends(acts[..n], j, k) {
        PrefixEnds(acts, n, j, k);
      }
    }
  }

  /** While the AP is up no rule counts as left over. */
  lemma NoneLeftWhileUp(acts: seq<Action>, i: nat, k: Key)
    requires Run(Fresh, acts).enabled && i < |acts|
    ensures !LeftOver(acts, i, k)
  {
    hide Run, Step, LeftOver, HasPlace;
    var n := |acts| - 1;
    LeftOverSnoc(acts, i, k);
    assert acts[..n + 1] == acts;
    RunSnoc(acts);
    if acts[n].Add? {
      AddKeepsSwitch(Run(Fresh, acts[..n]), acts[n]);
    }
  }

  lemma AddKeepsSwitch(s: Router, a: Action)
    requires a.Add?
    ensures Step(s, a).enabled == s.enabled
  {
    hide PlaceOf;
  }

  lemma RunSnoc(acts: seq<Action>)
    requires acts != []
    ensures Run(Fresh, acts) == Step(Run(Fresh, acts[..|acts| - 1]), acts[|acts| - 1])
  {
  }

  /** What one action does to the live rule of `k` when the AP is down behind it. */
  lemma LiveStep(s: Router, a: Action, k: Key)
    requires Agrees(s) && !Step(s, a).enabled
    ensures s.enabled || a.Restart? ==> Step(s, a).live == map[]
    ensures !s.enabled && !a.Restart? ==> LiveAfter(s, a, Step(s, a), k)
  {
    hide Rules, Distinct, PlaceOf, FindRule;
    match a {
      case Add(_, _) => hide Agrees;
      case Delete(key) => DeleteLive(s, key, k);
      case Switch(_) => RemovedIsEmpty(s);
      case Pause => RemovedIsEmpty(s.(resumeAp := s.enabled));
      case _ => hide Agrees;
    }
  }

  /** The live rule of `k` behind an action with the AP down before and behind it. */
  ghost predicate LiveAfter(s: Router, a: Action, t: Router, k: Key) {
    if a.Add? && a.key == k && HasPlace(s, k) then k in t.live && t.live[k] == LiveRule(s.ip, a.target)
    else if a == Delete(k) then k !in t.live
    else (k in t.live <==> k in s.live) && (k in t.live ==> t.live[k] == s.live[k])
  }

  lemma DeleteLive(s: Router, key: Key, k: Key)
    requires Agrees(s)
    ensures var t := Deleted(s, key);
            t.enabled == s.enabled && (k in t.live <==> k in s.live && k != key)
            && (k in t.live ==> t.live[k] == s.live[k])
  {
    InRules(s.table, key);
    hide Rules, Distinct, FindRule;
  }

  /** In every run, while the AP is down, the live rules are exactly those left over: added at a known
      address since it last went down or the device last restarted, and not deleted since, each as last
      added so and at the address of that time. */
  lemma {:induction false} LiveWhileDownIff(acts: seq<Action>, k: Key)
    requires !Run(Fresh, acts).enabled
    ensures var live := Run(Fresh, acts).live;
            && (k in live <==> exists i: nat :: LeftOver(acts, i, k))
            && forall i: nat :: LeftOver(acts, i, k) ==>
                 k in live && live[k] == LiveRule(Run(Fresh, acts[..i]).ip, acts[i].target)
  {
    assert acts != [];
    var n := |acts| - 1;
    var pre, a := acts[..n], acts[n];
    var s := Run(Fresh, pre);
    RunSnoc(acts);
    AlwaysAgrees(pre);
    hide Run, Step, Agrees, LeftOver, HasPlace;
    LiveStep(s, a, k);
    if s.enabled {
      forall i: nat ensures !LeftOver(acts, i, k) {
        NoLeftOverBehindUp(acts, i, k);
      }
    } else {
      LiveWhileDownIff(pre, k);
      StillLeft(acts, k);
      if a.Add? && a.key == k && HasPlace(s, k) {
        assert LeftOver(acts, n, k);
      } else if a == Delete(k) || a.Restart? {
        assert forall i: nat :: !LeftOver(acts, i, k);
      } else if k in s.live {
        var i: nat :| LeftOver(pre, i, k);
        assert LeftOver(acts, i, k);
      }
    }
  }

  lemma NoLeftOverBehindUp(acts: seq<Action>, i: nat, k: Key)
    requires acts != [] && Run(Fresh, acts[..|acts| - 1]).enabled
    ensures !LeftOver(acts, i, k)
  {
    hide Run, Ends;
    if i < |acts| {
      LeftOverSnoc(acts, i, k);
      if i < |acts| - 1 {
        NoneLeftWhileUp(acts[..|acts| - 1], i, k);
      }
    } else {
      assert !Placed(acts, i, k);
    }
  }

  /** The left-over rules behind one more action, with the AP down before and behind it. */
  lemma StillLeft(acts: seq<Action>, k: Key)
    requires acts != [] && !Run(Fresh, acts[..|acts| - 1]).enabled && !Run(Fresh, acts).enabled
    ensures var n := |acts| - 1;
            var s, a := Run(Fresh, acts[..n]), acts[n];
            var placed := a.Add? && a.key == k && HasPlace(s, k);
            forall i: nat :: LeftOver(acts, i, k) <==>
              if placed then i == n
              else LeftOver(acts[..n], i, k) && !a.Restart? && a != Delete(k)
    ensures forall i: nat :: LeftOver(acts[..|acts| - 1], i, k) ==>
              i < |acts| - 1 && acts[..|acts| - 1][..i] == acts[..i]
  {
    var n := |acts| - 1;
    assert acts[..n + 1] == acts;
    hide Run, HasPlace;
    forall i: nat
      ensures LeftOver(acts, i, k) <==>
              if Placed(acts, n, k) then i == n
              else LeftOver(acts[..n], i, k) && !acts[n].Restart? && acts[n] != Delete(k)
    {
      if i < |acts| {
        LeftOverSnoc(acts, i, k);
      }
      assert LeftOver(acts[..n], i, k) ==> i < n;
      assert LeftOver(acts, i, k) ==> i <= n;
      hide LeftOver;
    }
  }

  /** So the live rules need not be empty while the AP is down. */
  lemma LiveWhileDown(key: Key, target: Target, ip: nat)
    requires ip != 0
    ensures var s := Run(Fresh, [Switch(false), NewIp(ip), Add(key, target)]);
            !s.enabled && s.live == map[key := LiveRule(ip, target)]
  {
    var acts := [Switch(false), NewIp(ip), Add(key, target)];
    assert acts[..2] == [Switch(false), NewIp(ip)] && acts[..2][..1] == [Switch(false)] && acts[..2][..1][..0] == [];
    AlwaysAgrees([]);
    RemovedIsEmpty(Fresh);
    var down := Down(Fresh).(storedEnabled := false);
    assert Run(Fresh, []) == Fresh;
    assert Run(Fresh, acts[..2][..1]) == down;
    assert Run(Fresh, acts[..2]) == down.(ip := ip);
    assert down.table[0] == Unused;
  }

  // --------------------------------------------------------------------- updates

  /** An update is under way: it began, and neither failed nor restarted the device. */
  function Open(acts: seq<Action>): bool {
    if acts == [] then false
    else
      match acts[|acts| - 1]
      case Pause => true
      case Resume => false
      case Restart(_) => false
      case _ => Open(acts[..|acts| - 1])
  }

  /** What can come next. The requests are served one after another, and an update is one request: it
      pauses, and then resumes or restarts the device, and only the station's address can change in
      between. The stack reports no address that is zero. */
  predicate Served(open: bool, a: Action) {
    && (if open then a.NewIp? || a.Resume? || a.Restart? else !a.Resume?)
    && (a.NewIp? ==> a.ip != 0)
  }

  predicate Serial(acts: seq<Action>) {
    forall k :: 0 <= k < |acts| ==> Served(Open(acts[..k]), acts[k])
  }

  /** The run without its updates. */
  function Erased(acts: seq<Action>): seq<Action> {
    if acts == [] then []
    else
      var pre, a := Erased(acts[..|acts| - 1]), acts[|acts| - 1];
      if a.Pause? || a.Resume? then pre else pre + [a]
  }

  /** A router as it is during an update. */
  ghost function During(q: Router): Router {
    if q.enabled then Down(q).(resumeAp := true) else q
  }

  /** The router between requests: all agree, the flash has the switch, nothing is live without an address. */
  ghost predicate AtRest(q: Router) {
    Agrees(q) && q.enabled == q.storedEnabled && !q.resumeAp && (q.ip == 0 ==> q.live == map[])
  }

  lemma RestStep(q: Router, a: Action)
    requires AtRest(q) && !a.Pause? && !a.Resume? && (a.NewIp? ==> a.ip != 0)
    ensures AtRest(Step(q, a))
  {
    StepAgrees(q, a);
    RemovedIsEmpty(q);
    hide Agrees, Rules, PlaceOf, FindRule;
    match a {
      case Add(_, _) =>
      case Delete(_) =>
      case NewIp(_) =>
      case Switch(_) =>
      case Restart(_) =>
    }
  }

  lemma UpdateStep(q: Router, a: Action)
    requires AtRest(q) && Served(true, a)
    ensures a.NewIp? ==> Step(During(q), a) == During(Step(q, a))
    ensures a.Resume? ==> Step(During(q), a) == q
    ensures a.Restart? ==> Step(During(q), a) == Step(q, a)
  {
    RemovedIsEmpty(q);
    match a {
      case NewIp(ip) =>
        GotIpAgrees(q, ip);
        RemovedIsEmpty(GotIp(q, ip));
        hide Agrees, Rules, Distinct, Applied;
      case Resume => ResumeStep(q);
      case Restart(_) => hide Agrees, Rules, Distinct, Up;
    }
  }

  lemma ResumeStep(q: Router)
    requires AtRest(q)
    ensures Resumed(During(q)) == q
  {
    RemovedIsEmpty(q);
    var all := LiveAt(Rules(q.table), q.ip);
    NothingPlus(all);
    if q.enabled {
      assert During(q) == q.(live := map[], enabled := false, resumeAp := true);
    }
    hide Rules, Distinct, RemovedAll, Down, During, LiveAt;
  }

  lemma NothingPlus<K, V>(m: map<K, V>)
    ensures map[] + m == m
  {
  }

  /** In every run in which an update is one request, a failed update leaves no trace: the switch, its
      copy, the table, its copy and the live rules are those of the run without it, which in particular
      are at the final address. */
  lemma {:induction false} UpdatesLeaveNoTrace(acts: seq<Action>)
    requires Serial(acts)
    ensures var q := Run(Fresh, Erased(acts));
            && AtRest(q)
            && Run(Fresh, acts) == if Open(acts) then During(q) else q
  {
    if acts == [] {
      assert AtRest(Fresh);
    } else {
      var n := |acts| - 1;
      var pre, a := acts[..n], acts[n];
      assert forall k :: 0 <= k < n ==> pre[..k] == acts[..k];
      UpdatesLeaveNoTrace(pre);
      assert Served(Open(acts[..n]), a);
      RunSnoc(acts);
      ErasedSnoc(acts);
      var q := Run(Fresh, Erased(pre));
      if !a.Pause? && !a.Resume? {
        RestStep(q, a);
      }
      if Open(pre) {
        UpdateStep(q, a);
      }
      hide Run, AtRest, Down, Erased, Serial;
    }
  }

  lemma ErasedSnoc(acts: seq<Action>)
    requires acts != []
    ensures var pre, a := acts[..|acts| - 1], acts[|acts| - 1];
            Run(Fresh, Erased(acts)) ==
            if a.Pause? || a.Resume? then Run(Fresh, Erased(pre)) else Step(Run(Fresh, Erased(pre)), a)
  {
    var pre, a := acts[..|acts| - 1], acts[|acts| - 1];
    if !a.Pause? && !a.Resume? {
      assert (Erased(pre) + [a])[..|Erased(pre)|] == Erased(pre);
    }
    hide Step;
  }

  /** And a request to switch the AP behind an update is carried out and recorded, like any other. */
  lemma SwitchIsRecorded(acts: seq<Action>, on: bool)
    requires Serial(acts) && !Open(acts)
    ensures var s := Run(Fresh, acts + [Switch(on)]);
            s.enabled == on && s.storedEnabled == on && (!on ==> s.live.Keys <= Run(Fresh, acts).live.Keys)
    ensures Run(Fresh, acts).enabled && !on ==> Run(Fresh, acts + [Switch(on)]).live == map[]
  {
    UpdatesLeaveNoTrace(acts);
    var more := acts + [Switch(on)];
    assert more[..|acts|] == acts;
    RunSnoc(more);
    hide Run, Serial;
    RemovedIsEmpty(Run(Fresh, acts));
    hide Rules, Distinct;
  }

  // ------------------------------------------------------- what the actions come to

  /** The rules by the actions alone: an added rule replaces the one with its key, else it is refused
      when there are sixteen; nothing but a deletion takes one away. */
  function Book(acts: seq<Action>): map<Key, Target> {
    if acts == [] then map[]
    else
      var pre := Book(acts[..|acts| - 1]);
      match acts[|acts| - 1]
      case Add(key, target) => if key in pre || |pre| < 16 then pre[key := target] else pre
      case Delete(key) => pre - {key}
      case _ => pre
  }

  /** The station's address, zero before the first. */
  function LastAddress(acts: seq<Action>): nat {
    if acts == [] then 0
    else
      match acts[|acts| - 1]
      case NewIp(ip) => ip
      case Restart(ip) => ip
      case _ => LastAddress(acts[..|acts| - 1])
  }

  /** The switch as last set; on at first. */
  function LastSwitch(acts: seq<Action>): bool {
    if acts == [] then true
    else
      match acts[|acts| - 1]
      case Switch(on) => on
      case _ => LastSwitch(acts[..|acts| - 1])
  }

  ghost function Keys(t: seq<Entry>): set<Key> {
    set i | 0 <= i < |t| && t[i].valid :: t[i].key
  }

  lemma {:induction false} KeysCount(t: seq<Entry>)
    requires Distinct(t)
    ensures |Keys(t)| <= |t|
    ensures |Keys(t)| == |t| <==> forall k :: 0 <= k < |t| ==> t[k].valid
  {
    if t != [] {
      var n := |t| - 1;
      assert Distinct(t[..n]);
      KeysCount(t[..n]);
      KeysSnoc(t);
      hide Keys, Distinct;
    }
  }

  lemma KeysSnoc(t: seq<Entry>)
    requires Distinct(t) && t != []
    ensures var n := |t| - 1;
            && Distinct(t[..n])
            && Keys(t) == Keys(t[..n]) + (if t[n].valid then {t[n].key} else {})
            && (t[n].valid ==> t[n].key !in Keys(t[..n]))
  {
  }

  lemma RulesCount(t: seq<Entry>)
    requires Distinct(t)
    ensures |Rules(t)| <= |t|
    ensures |Rules(t)| == |t| <==> forall k :: 0 <= k < |t| ==> t[k].valid
  {
    KeysCount(t);
    assert Rules(t).Keys == Keys(t);
    KeysOfMap(Rules(t));
    hide Rules, Keys, Distinct;
  }

  lemma KeysOfMap<K, V>(m: map<K, V>)
    ensures |m| == |m.Keys|
  {
  }

  lemma BookAdd(s: Router, key: Key, target: Target)
    requires Distinct(s.table) && |s.table| == 16
    ensures var t, rules := Step(s, Add(key, target)).table, Rules(s.table);
            |t| == 16 && Rules(t) == if key in rules || |rules| < 16 then rules[key := target] else rules
  {
    AddRefinesMap(s.table, key, target);
    RulesCount(s.table);
    hide Rules, Distinct, PlaceOf;
  }

  lemma BookDelete(s: Router, key: Key)
    requires Distinct(s.table) && |s.table| == 16
    ensures var t := Step(s, Delete(key)).table; |t| == 16 && Rules(t) == Rules(s.table) - {key}
  {
    InRules(s.table, key);
    if FindRule(s.table, key) < |s.table| {
      DeleteRefinesMap(s.table, key);
    } else {
      Absent(Rules(s.table), key);
    }
    hide Rules, Distinct, FindRule;
  }

  lemma Absent<K, V>(m: map<K, V>, k: K)
    requires k !in m
    ensures m - {k} == m
  {
  }

  lemma TableStays(s: Router, a: Action)
    requires s.stored == s.table && !a.Add? && !a.Delete?
    ensures Step(s, a).table == s.table
  {
    hide Rules;
  }

  /** In every run the table holds the rules of the book and the address is the last one. */
  lemma {:induction false} TableIsTheBook(acts: seq<Action>)
    ensures var s := Run(Fresh, acts);
            |s.table| == 16 && Rules(s.table) == Book(acts) && s.ip == LastAddress(acts)
  {
    if acts == [] {
      assert Book(acts) == map[];
    } else {
      var n := |acts| - 1;
      TableIsTheBook(acts[..n]);
      AlwaysAgrees(acts[..n]);
      RunSnoc(acts);
      var s, a := Run(Fresh, acts[..n]), acts[n];
      AddressStep(s, a);
      match a {
        case Add(key, target) => BookAdd(s, key, target);
        case Delete(key) => BookDelete(s, key);
        case _ => TableStays(s, a);
      }
      hide Run, Step, Distinct, Rules;
    }
  }

  lemma AddressStep(s: Router, a: Action)
    ensures Step(s, a).ip == match a case NewIp(ip) => ip case Restart(ip) => ip case _ => s.ip
  {
    hide PlaceOf, Rules, FindRule;
  }

  /** The switch of a run without updates is the one last asked for. */
  lemma {:induction false} SwitchStays(acts: seq<Action>)
    requires forall k :: 0 <= k < |acts| ==> !acts[k].Pause? && !acts[k].Resume?
    ensures var s := Run(Fresh, acts); s.enabled == s.storedEnabled == LastSwitch(acts)
  {
    if acts != [] {
      SwitchStays(acts[..|acts| - 1]);
      RunSnoc(acts);
      SwitchStep(Run(Fresh, acts[..|acts| - 1]), acts[|acts| - 1]);
      hide Run, Step;
    }
  }

  lemma SwitchStep(s: Router, a: Action)
    requires s.enabled == s.storedEnabled && !a.Pause? && !a.Resume?
    ensures var t := Step(s, a); t.enabled == t.storedEnabled == if a.Switch? then a.on else s.enabled
  {
    hide PlaceOf, Rules, FindRule;
  }

  lemma {:induction false} ErasedIsPlain(acts: seq<Action>)
    ensures forall k :: 0 <= k < |Erased(acts)| ==> !Erased(acts)[k].Pause? && !Erased(acts)[k].Resume?
    ensures LastSwitch(Erased(acts)) == LastSwitch(acts)
  {
    if acts != [] {
      var pre, a := acts[..|acts| - 1], acts[|acts| - 1];
      ErasedIsPlain(pre);
      if !a.Pause? && !a.Resume? {
        assert (Erased(pre) + [a])[..|Erased(pre)|] == Erased(pre);
      }
    }
  }

  /** Whatever a run of requests, updates, restarts and new addresses came to: outside an update the AP is up
      exactly when it was last switched on, and while it is up with an address the network stack has exactly
      the rules of the book, at that address. */
  lemma ServedByTheBook(acts: seq<Action>)
    requires Serial(acts) && !Open(acts)
    ensures var s := Run(Fresh, acts);
            && s.enabled == LastSwitch(acts)
            && (s.enabled && LastAddress(acts) != 0 ==>
                  s.live == map k | k in Book(acts) :: LiveRule(LastAddress(acts), Book(acts)[k]))
  {
    UpdatesLeaveNoTrace(acts);
    ErasedIsPlain(acts);
    SwitchStays(Erased(acts));
    TableIsTheBook(acts);
    hide Run, Serial, Rules, Distinct, Book, LastAddress, LastSwitch, Erased;
  }
}
