/** Host names of the SoftAP's stations: read from DHCP option 12 of any message, kept for the
    last eight stations that told one. */
module DhcpHostname {
  import opened Prelude

  const HOST_NAME: byte := 12
  const END: byte := 255
  const PAD: byte := 0
  const COOKIE: nat := 4
  const NAME_MAX: nat := 32
  const SLOTS: nat := 8
  const QUESTION: byte := 63

  // -------------------------------------------------------------------- the option

  /** The first host name option with anything in it, as far as the options can be read. */
  function FirstName(s: seq<byte>): Option<seq<byte>>
    decreases |s|
  {
    if s == [] || s[0] == END then None
    else if s[0] == PAD then FirstName(s[1..])
    else if |s| < 2 || 2 + s[1] > |s| then None
    else if s[0] == HOST_NAME && s[1] > 0 then Some(s[2..2 + s[1]])
    else FirstName(s[2 + s[1]..])
  }

  function Printable(c: byte): (p: byte)
    ensures 0x20 <= p < 0x7f && (0x20 <= c < 0x7f ==> p == c)
  {
    if 0x20 <= c < 0x7f then c else QUESTION
  }

  /** The text before the first NUL, made printable. */
  function Clean(raw: seq<byte>): seq<byte> {
    if raw == [] || raw[0] == 0 then [] else [Printable(raw[0])] + Clean(raw[1..])
  }

  /** The name a message tells, in a field of `cap` bytes with its terminator. */
  function NameIn(options: seq<byte>, cap: nat): seq<byte> {
    if |options| < COOKIE || cap == 0 then []
    else
      match FirstName(options[COOKIE..])
      case None => []
      case Some(raw) => Clean(raw[..Min(|raw|, cap - 1)])
  }

  lemma {:induction false} CleanShape(raw: seq<byte>)
    ensures var n := IndexOf(raw, 0);
            |Clean(raw)| == n && forall k :: 0 <= k < n ==> Clean(raw)[k] == Printable(raw[k])
    ensures forall k :: 0 <= k < |Clean(raw)| ==> Clean(raw)[k] == if 32 <= raw[k] < 127 then raw[k] else 63
  {
    if raw != [] && raw[0] != 0 {
      CleanShape(raw[1..]);
    }
  }

  datatype Opt = Padding | Opt(code: byte, data: seq<byte>)

  predicate WellFormed(o: Opt) {
    o.Opt? ==> o.code != PAD && o.code != END && |o.data| < 256
  }

  function Wire(o: Opt): seq<byte>
    requires WellFormed(o)
  {
    if o.Padding? then [PAD] else [o.code, |o.data|] + o.data
  }

  predicate AllWellFormed(opts: seq<Opt>) {
    forall k :: 0 <= k < |opts| ==> WellFormed(opts[k])
  }

  function Wires(opts: seq<Opt>): seq<byte>
    requires AllWellFormed(opts)
  {
    if opts == [] then [] else Wire(opts[0]) + Wires(opts[1..])
  }

  predicate Names(o: Opt) {
    o.Opt? && o.code == HOST_NAME && o.data != []
  }

  /** The data of the first option that names the host. */
  function FirstNaming(opts: seq<Opt>): (r: Option<seq<byte>>)
    ensures r == None <==> forall k :: 0 <= k < |opts| ==> !Names(opts[k])
    ensures r.Some? ==> exists k :: 0 <= k < |opts| && Names(opts[k]) && opts[k].data == r.value
                                    && forall j :: 0 <= j < k ==> !Names(opts[j])
  {
    if opts == [] then None
    else if Names(opts[0]) then Some(opts[0].data)
    else
      var r := FirstNaming(opts[1..]);
      NamingShift(opts, r);
      r
  }

  lemma NamingShift(opts: seq<Opt>, r: Option<seq<byte>>)
    requires opts != [] && !Names(opts[0])
    requires r == None <==> forall k :: 0 <= k < |opts[1..]| ==> !Names(opts[1..][k])
    requires r.Some? ==> exists k :: 0 <= k < |opts[1..]| && Names(opts[1..][k]) && opts[1..][k].data == r.value
                                     && forall j :: 0 <= j < k ==> !Names(opts[1..][j])
    ensures r == None <==> forall k :: 0 <= k < |opts| ==> !Names(opts[k])
    ensures r.Some? ==> exists k :: 0 <= k < |opts| && Names(opts[k]) && opts[k].data == r.value
                                    && forall j :: 0 <= j < k ==> !Names(opts[j])
  {
    var tail := opts[1..];
    assert forall k :: 1 <= k < |opts| ==> opts[k] == tail[k - 1];
    if r == None {
      assert forall k :: 0 <= k < |opts| ==> !Names(opts[k]);
    } else {
      var k :| 0 <= k < |tail| && Names(tail[k]) && tail[k].data == r.value && forall j :: 0 <= j < k ==> !Names(tail[j]);
      assert Names(opts[k + 1]) && opts[k + 1].data == r.value;
      assert forall j :: 0 <= j < k + 1 ==> !Names(opts[j]);
    }
  }

  /** Well-formed options give their first host name, whatever follows the end marker, and
      whether or not there is one. */
  lemma {:induction false} FirstNameOfOptions(opts: seq<Opt>, tail: seq<byte>)
    requires AllWellFormed(opts) && (tail == [] || tail[0] == END)
    ensures FirstName(Wires(opts) + tail) == FirstNaming(opts)
    decreases |opts|
  {
    if opts == [] {
      assert Wires(opts) + tail == tail;
    } else {
      hide FirstName, Wires, Wire, WellFormed, Names;
      FirstNameOfOptions(opts[1..], tail);
      FirstWire(opts, tail);
      OneOption(opts[0], Wires(opts[1..]) + tail);
    }
  }

  /** Options that name nothing and then an option that ends behind the field tell no name, were it a
      host name or not; nor does a last byte alone. */
  lemma {:induction false} CutOptionTellsNothing(opts: seq<Opt>, code: byte, rest: seq<byte>)
    requires AllWellFormed(opts) && (forall k :: 0 <= k < |opts| ==> !Names(opts[k]))
    requires code != 0 && (rest == [] || |rest| - 1 < rest[0])
    ensures FirstName(Wires(opts) + ([code] + rest)) == None
    decreases |opts|
  {
    var tail := [code] + rest;
    if opts == [] {
      assert Wires(opts) + tail == tail;
    } else {
      hide FirstName, Wires, Wire, WellFormed, Names;
      CutOptionTellsNothing(opts[1..], code, rest);
      FirstWire(opts, tail);
      OneOption(opts[0], Wires(opts[1..]) + tail);
    }
  }

  lemma FirstWire(opts: seq<Opt>, tail: seq<byte>)
    requires opts != [] && AllWellFormed(opts)
    ensures Wires(opts) + tail == Wire(opts[0]) + (Wires(opts[1..]) + tail)
  {
    hide Wire;
  }

  lemma OneOption(o: Opt, rest: seq<byte>)
    requires WellFormed(o)
    ensures FirstName(Wire(o) + rest) == if Names(o) then Some(o.data) else FirstName(rest)
  {
    var s := Wire(o) + rest;
    if o.Padding? {
      assert s[1..] == rest;
    } else {
      assert s[0] == o.code && s[1] == |o.data|;
      assert s[2..2 + |o.data|] == o.data && s[2 + |o.data|..] == rest;
    }
  }

  /** A message whose options are well formed tells the printable text of its first naming option,
      cut to the field and at the first NUL. */
  lemma NameOfMessage(cookie: seq<byte>, opts: seq<Opt>, tail: seq<byte>, cap: nat)
    requires |cookie| == COOKIE && AllWellFormed(opts) && (tail == [] || tail[0] == END) && cap > 0
    ensures NameIn(cookie + (Wires(opts) + tail), cap) ==
            match FirstNaming(opts)
            case None => []
            case Some(raw) => Clean(raw[..Min(|raw|, cap - 1)])
  {
    assert (cookie + (Wires(opts) + tail))[COOKIE..] == Wires(opts) + tail;
    FirstNameOfOptions(opts, tail);
  }

  /** Copies the name into `out`, terminated; false when there is none. */
  method ExtractHostname(options: seq<byte>, out: array<byte>) returns (found: bool, len: nat)
    requires |options| >= COOKIE
    modifies out
    ensures found <==> NameIn(options, out.Length) != []
    ensures found ==> len < out.Length && out[..len] == NameIn(options, out.Length) && out[len] == 0
    ensures !found && out.Length > 0 ==> out[0] == 0
  {
    hide Clean, FirstName;
    found, len := false, 0;
    if out.Length == 0 {
      return;
    }
    Named(options, out.Length);
    hide NameIn;
    out[0] := 0;
    var opt := COOKIE;
    while opt < |options|
      invariant COOKIE <= opt <= |options| && out[0] == 0
      invariant FirstName(options[opt..]) == FirstName(options[COOKIE..])
    {
      ghost var s := options[opt..];
      Reads(s);
      var code := options[opt];
      if code == END {
        return;
      }
      if code == PAD {
        assert s[1..] == options[opt + 1..];
        opt := opt + 1;
        continue;
      }
      if opt + 2 > |options| {
        return;
      }
      var olen := options[opt + 1];
      assert s[1] == olen;
      if opt + 2 + olen > |options| {
        return;
      }
      if code == HOST_NAME && olen > 0 {
        assert s[2..2 + olen] == options[opt + 2..opt + 2 + olen];
        found, len := CopyName(options[opt + 2..opt + 2 + olen], out);
        return;
      }
      assert s[2 + olen..] == options[opt + 2 + olen..];
      opt := opt + 2 + olen;
    }
    NothingToRead(options[opt..]);
  }

  lemma Named(options: seq<byte>, cap: nat)
    requires |options| >= COOKIE && cap > 0
    ensures FirstName(options[COOKIE..]) == None ==> NameIn(options, cap) == []
    ensures FirstName(options[COOKIE..]).Some? ==>
              var raw := FirstName(options[COOKIE..]).value;
              NameIn(options, cap) == Clean(raw[..Min(|raw|, cap - 1)])
  {
  }

  lemma NothingToRead(s: seq<byte>)
    requires s == []
    ensures FirstName(s) == None
  {
  }

  /** One step of reading options. */
  lemma Reads(s: seq<byte>)
    requires s != []
    ensures FirstName(s) ==
            if s[0] == END then None
            else if s[0] == PAD then FirstName(s[1..])
            else if |s| < 2 || 2 + s[1] > |s| then None
            else if s[0] == HOST_NAME && s[1] > 0 then Some(s[2..2 + s[1]])
            else FirstName(s[2 + s[1]..])
  {
  }

  method CopyName(raw: seq<byte>, out: array<byte>) returns (found: bool, len: nat)
    requires out.Length > 0
    modifies out
    ensures found <==> Clean(raw[..Min(|raw|, out.Length - 1)]) != []
    ensures len < out.Length && out[..len] == Clean(raw[..Min(|raw|, out.Length - 1)]) && out[len] == 0
  {
    var n := if |raw| < out.Length - 1 then |raw| else out.Length - 1;
    ghost var part := raw[..n];
    CleanShape(part);
    len := 0;
    var i := 0;
    while i < n
      invariant 0 <= i <= n && len == i
      invariant forall k :: 0 <= k < i ==> part[k] != 0 && out[k] == Printable(part[k])
    {
      var c := raw[i];
      assert c == part[i];
      if c == 0 {
        break;
      }
      out[len] := Printable(c);
      len := len + 1;
      i := i + 1;
    }
    IndexAt(part, 0, i);
    out[len] := 0;
    assert out[..len] == Clean(part);
    found := len > 0;
  }

  // ------------------------------------------------------------------ the registry

  datatype Name = Name(mac: nat, name: seq<byte>)

  datatype Entry = Entry(used: bool, mac: nat, name: seq<byte>)

  predicate Has(e: Entry, mac: nat) {
    e.used && e.mac == mac
  }

  /** The registry: entries, and the one to be given up next once all are used. */
  datatype Table = Table(entries: seq<Entry>, next: nat)

  function Used(es: seq<Entry>): (n: nat)
    ensures n <= |es| && (n < |es| ==> !es[n].used)
    ensures forall k :: 0 <= k < n ==> es[k].used
  {
    if es == [] || !es[0].used then 0 else 1 + Used(es[1..])
  }

  lemma {:induction false} UsedIs(es: seq<Entry>, n: nat)
    requires n <= |es| && (n < |es| ==> !es[n].used)
    requires forall k :: 0 <= k < n ==> es[k].used
    ensures Used(es) == n
  {
    if n > 0 {
      UsedIs(es[1..], n - 1);
    }
  }

  /** Used entries come first; until all are, none has been given up. */
  predicate TableOk(t: Table) {
    && |t.entries| == SLOTS && t.next < SLOTS
    && (forall k :: Used(t.entries) <= k < SLOTS ==> !t.entries[k].used)
    && (Used(t.entries) < SLOTS ==> t.next == 0)
    && forall i, j :: 0 <= i < j < Used(t.entries) ==> t.entries[i].mac != t.entries[j].mac
  }

  function Listed(e: Entry): Name {
    Name(e.mac, e.name)
  }

  /** The names from the one recorded longest ago as new to the latest new one. */
  function Queue(t: Table): (q: seq<Name>)
    requires TableOk(t)
    ensures |q| == Used(t.entries)
    ensures forall k :: 0 <= k < |q| ==> q[k] == Listed(t.entries[Turn(t.next + k, |q|)])
  {
    var n := Used(t.entries);
    seq(n, k requires 0 <= k < n => Listed(t.entries[Turn(t.next + k, n)]))
  }

  /** An index at most one turn ahead, brought back. */
  function Turn(i: nat, n: nat): nat
    requires i < 2 * n
  {
    if i < n then i else i - n
  }

  /** A name told again is renewed in its place; a new one goes to the end, and the first
      goes when there were eight. */
  function Put(q: seq<Name>, mac: nat, name: seq<byte>): seq<Name> {
    var i := At(q, mac);
    if i < |q| then q[i := Name(mac, name)]
    else (if |q| >= SLOTS then q[1..] else q) + [Name(mac, name)]
  }

  function At(q: seq<Name>, mac: nat): (i: nat)
    ensures i <= |q| && (i < |q| ==> q[i].mac == mac)
    ensures forall k :: 0 <= k < i ==> q[k].mac != mac
  {
    if q == [] || q[0].mac == mac then 0 else 1 + At(q[1..], mac)
  }

  lemma {:induction false} AtIs(q: seq<Name>, mac: nat, i: nat)
    requires i <= |q| && (i < |q| ==> q[i].mac == mac)
    requires forall k :: 0 <= k < i ==> q[k].mac != mac
    ensures At(q, mac) == i
  {
    if i > 0 {
      AtIs(q[1..], mac, i - 1);
    }
  }

  predicate DistinctMacs(q: seq<Name>) {
    forall i, j :: 0 <= i < j < |q| ==> q[i].mac != q[j].mac
  }

  class Registry {
    var entries: array<Entry>
    var next: nat

    ghost predicate Valid()
      reads this, entries
    {
      entries.Length == SLOTS && TableOk(View())
    }

    function View(): Table
      reads this, entries
    {
      Table(entries[..], next)
    }

    constructor ()
      ensures Valid() && fresh(entries) && Queue(View()) == []
    {
      entries := new Entry[SLOTS](_ => Entry(false, 0, []));
      next := 0;
      new;
      UsedIs(entries[..], 0);
    }

    /** Recording is putting into the queue; the names come with room for their terminator. */
    method Record(mac: nat, name: seq<byte>)
      requires Valid() && |name| < NAME_MAX
      modifies this`next, entries
      ensures Valid() && Queue(View()) == Put(old(Queue(View())), mac, name)
    {
      hide Queue, Put, At;
      ghost var t := View();
      var e := Entry(true, mac, name);
      var slot := 0;
      while slot < entries.Length && !(entries[slot].used && entries[slot].mac == mac)
        invariant 0 <= slot <= entries.Length && forall k :: 0 <= k < slot ==> !Has(entries[k], mac)
      {
        slot := slot + 1;
      }
      if slot < entries.Length {
        Renewed(t, slot, e);
      } else {
        slot := 0;
        while slot < entries.Length && entries[slot].used
          invariant 0 <= slot <= entries.Length && forall k :: 0 <= k < slot ==> entries[k].used
        {
          slot := slot + 1;
        }
        UsedIs(entries[..], slot);
        if slot < entries.Length {
          Appended(t, e);
        } else {
          GivenUp(t, e);
          slot := next;
          next := (next + 1) % SLOTS;
        }
      }
      hide TableOk;
      entries[slot] := e;
      assert entries[..] == t.entries[slot := e];
    }

    method Lookup(mac: nat, cap: nat) returns (found: bool, name: seq<byte>)
      requires Valid()
      ensures var q := Queue(View());
              var i := At(q, mac);
              && (found <==> i < |q| && q[i].name != [])
              && name == if i < |q| && cap > 0 then q[i].name[..Min(|q[i].name|, cap - 1)] else []
    {
      found, name := false, [];
      var i := 0;
      while i < entries.Length && !(entries[i].used && entries[i].mac == mac)
        invariant 0 <= i <= entries.Length && forall k :: 0 <= k < i ==> !Has(entries[k], mac)
      {
        i := i + 1;
      }
      if i < entries.Length {
        Present(View(), mac, i);
        if cap > 0 {
          var own := entries[i].name;
          name := own[..if |own| < cap then |own| else cap - 1];
        }
        found := entries[i].name != [];
      } else {
        Absent(View(), mac);
      }
    }

    /** The server's hook: any message that tells a name has it recorded for its sender. */
    method PostState(mac: nat, options: seq<byte>)
      requires Valid() && |options| >= COOKIE
      modifies this`next, entries
      ensures Valid()
      ensures var name := NameIn(options, 32);
              Queue(View()) == if name == [] then old(Queue(View())) else Put(old(Queue(View())), mac, name)
    {
      var out := new byte[NAME_MAX](_ => 0);
      var found, len := ExtractHostname(options, out);
      if found {
        Record(mac, out[..len]);
      }
    }
  }

  /** Where entry `i` stands in the queue. */
  function Rank(i: nat, next: nat, n: nat): nat
    requires i < n && next < n
  {
    if i >= next then i - next else n - next + i
  }

  lemma QueueAt(t: Table, i: nat)
    requires TableOk(t) && i < Used(t.entries)
    ensures var n := Used(t.entries);
            Rank(i, t.next, n) < n && Queue(t)[Rank(i, t.next, n)] == Listed(t.entries[i])
  {
    var n := Used(t.entries);
    assert Turn(t.next + Rank(i, t.next, n), n) == i;
  }

  lemma QueueDistinct(t: Table)
    requires TableOk(t)
    ensures DistinctMacs(Queue(t))
  {
    var n := Used(t.entries);
    forall i, j | 0 <= i < j < n ensures Queue(t)[i].mac != Queue(t)[j].mac {
      var a, b := Turn(t.next + i, n), Turn(t.next + j, n);
      assert a < b || b < a;
    }
  }

  lemma Present(t: Table, mac: nat, i: nat)
    requires TableOk(t) && i < SLOTS && Has(t.entries[i], mac)
    ensures var r := At(Queue(t), mac);
            r < |Queue(t)| && Queue(t)[r] == Listed(t.entries[i]) && i < Used(t.entries)
            && r == Rank(i, t.next, Used(t.entries))
  {
    QueueAt(t, i);
    QueueDistinct(t);
    hide TableOk, Queue;
    AtIs(Queue(t), mac, Rank(i, t.next, Used(t.entries)));
  }

  lemma Absent(t: Table, mac: nat)
    requires TableOk(t) && forall k :: 0 <= k < SLOTS ==> !Has(t.entries[k], mac)
    ensures At(Queue(t), mac) == |Queue(t)|
  {
    var q := Queue(t);
    forall k | 0 <= k < |q| ensures q[k].mac != mac {
      assert !Has(t.entries[Turn(t.next + k, |q|)], mac);
    }
    AtIs(q, mac, |q|);
  }

  lemma Renewed(t: Table, i: nat, e: Entry)
    requires TableOk(t) && i < SLOTS && Has(t.entries[i], e.mac) && e.used
    ensures TableOk(t.(entries := t.entries[i := e]))
    ensures Queue(t.(entries := t.entries[i := e])) == Put(Queue(t), e.mac, e.name)
  {
    Present(t, e.mac, i);
    RenewedOk(t, i, e);
    RenewedQueue(t, i, e);
    hide TableOk, Used, At, Queue;
  }

  lemma RenewedQueue(t: Table, i: nat, e: Entry)
    requires TableOk(t) && i < Used(t.entries) == Used(t.entries[i := e])
    requires TableOk(t.(entries := t.entries[i := e]))
    ensures Queue(t.(entries := t.entries[i := e])) == Queue(t)[Rank(i, t.next, Used(t.entries)) := Listed(e)]
  {
    var n, now := Used(t.entries), t.(entries := t.entries[i := e]);
    var r := Rank(i, t.next, n);
    hide Used, Queue;
    forall k | 0 <= k < n ensures Queue(now)[k] == Queue(t)[r := Listed(e)][k] {
      assert Turn(t.next + k, n) == i <==> k == r;
    }
  }

  lemma RenewedOk(t: Table, i: nat, e: Entry)
    requires TableOk(t) && i < Used(t.entries) && t.entries[i].mac == e.mac && e.used
    ensures TableOk(t.(entries := t.entries[i := e])) && Used(t.entries[i := e]) == Used(t.entries)
  {
    UsedIs(t.entries[i := e], Used(t.entries));
    hide Used;
  }

  lemma Appended(t: Table, e: Entry)
    requires TableOk(t) && Used(t.entries) < SLOTS && e.used
    requires forall k :: 0 <= k < SLOTS ==> !Has(t.entries[k], e.mac)
    ensures var now := t.(entries := t.entries[Used(t.entries) := e]);
            TableOk(now) && Queue(now) == Put(Queue(t), e.mac, e.name)
  {
    Absent(t, e.mac);
    var n := Used(t.entries);
    var now := t.(entries := t.entries[n := e]);
    UsedIs(now.entries, n + 1);
    hide Used;
    assert TableOk(now) by {
      assert forall k :: 0 <= k < n ==> !Has(t.entries[k], e.mac);
    }
    assert t.next == 0;
    hide TableOk;
    assert Queue(now) == Queue(t) + [Listed(e)];
  }

  lemma GivenUp(t: Table, e: Entry)
    requires TableOk(t) && Used(t.entries) == SLOTS && e.used
    requires forall k :: 0 <= k < SLOTS ==> !Has(t.entries[k], e.mac)
    ensures var now := Table(t.entries[t.next := e], (t.next + 1) % SLOTS);
            TableOk(now) && Queue(now) == Put(Queue(t), e.mac, e.name)
  {
    Absent(t, e.mac);
    GivenUpOk(t, e);
    hide TableOk, Used, At;
    GivenUpQueue(t, e);
  }

  lemma GivenUpOk(t: Table, e: Entry)
    requires TableOk(t) && Used(t.entries) == SLOTS && e.used
    requires forall k :: 0 <= k < SLOTS ==> !Has(t.entries[k], e.mac)
    ensures var now := Table(t.entries[t.next := e], (t.next + 1) % SLOTS);
            TableOk(now) && Used(now.entries) == SLOTS
  {
    UsedIs(t.entries[t.next := e], SLOTS);
    hide Used;
  }

  lemma GivenUpQueue(t: Table, e: Entry)
    requires TableOk(t) && Used(t.entries) == SLOTS
    requires TableOk(Table(t.entries[t.next := e], (t.next + 1) % SLOTS)) && Used(t.entries[t.next := e]) == SLOTS
    ensures Queue(Table(t.entries[t.next := e], (t.next + 1) % SLOTS)) == Queue(t)[1..] + [Listed(e)]
  {
    var now := Table(t.entries[t.next := e], (t.next + 1) % SLOTS);
    hide Used;
    assert now.next == if t.next == SLOTS - 1 then 0 else t.next + 1;
    assert t.next < SLOTS;
    hide TableOk;
  }

  // ------------------------------------------------------------------- whole runs

  function PutAll(q: seq<Name>, told: seq<Name>): seq<Name> {
    if told == [] then q
    else Put(PutAll(q, told[..|told| - 1]), told[|told| - 1].mac, told[|told| - 1].name)
  }

  /** How many of the names told were of stations not in the queue at the time. */
  function NewOnes(q: seq<Name>, told: seq<Name>): nat {
    if told == [] then 0
    else
      var pre, m := told[..|told| - 1], told[|told| - 1].mac;
      NewOnes(q, pre) + if At(PutAll(q, pre), m) == |PutAll(q, pre)| then 1 else 0
  }

  /** The name a station told last, `first` when none since. */
  function LatestName(first: seq<byte>, mac: nat, told: seq<Name>): seq<byte> {
    if told == [] then first
    else if told[|told| - 1].mac == mac then told[|told| - 1].name
    else LatestName(first, mac, told[..|told| - 1])
  }

  /** One name told, seen from another station's place or from its own. */
  lemma PutMoves(q: seq<Name>, i: nat, mac: nat, name: seq<byte>)
    requires DistinctMacs(q) && |q| <= SLOTS && i < |q|
    ensures DistinctMacs(Put(q, mac, name)) && |Put(q, mac, name)| <= SLOTS
    ensures var now, isNew := Put(q, mac, name), At(q, mac) == |q|;
            && (isNew && |q| == SLOTS && i == 0 ==> At(now, q[i].mac) == |now|)
            && (!(isNew && |q| == SLOTS && i == 0) ==>
                  var j := if isNew && |q| == SLOTS then i - 1 else i;
                  && |now| == (if isNew && |q| < SLOTS then |q| + 1 else |q|)
                  && now[j] == if q[i].mac == mac then Name(mac, name) else q[i])
  {
    var now := Put(q, mac, name);
    if At(q, mac) == |q| && |q| == SLOTS && i == 0 {
      AtIs(now, q[0].mac, |now|);
    }
  }

  /** The station's name has `n` newer ones behind it, in a queue that had `size` names when it
      was new. */
  predicate Kept(q: seq<Name>, size: nat, n: nat, own: Name) {
    DistinctMacs(q) && |q| == Min(SLOTS, size + n) && n < |q| && q[|q| - 1 - n] == own
  }

  lemma KeptStep(q: seq<Name>, size: nat, n: nat, own: Name, told: Name)
    requires Kept(q, size, n, own)
    requires n + (if At(q, told.mac) == |q| then 1 else 0) < 8
    ensures var m := n + if At(q, told.mac) == |q| then 1 else 0;
            Kept(Put(q, told.mac, told.name), size, m, if told.mac == own.mac then told else own)
  {
    hide Put, At, DistinctMacs;
    PutMoves(q, |q| - 1 - n, told.mac, told.name);
    if At(q, told.mac) == |q| {
      NotThere(q, |q| - 1 - n, told.mac);
    }
  }

  /** A station's latest name stays until the eighth station after it that was new. */
  lemma {:induction false} KeptUntilTheEighth(q: seq<Name>, mac: nat, name: seq<byte>, told: seq<Name>)
    requires DistinctMacs(q) && |q| <= SLOTS && At(q, mac) == |q|
    requires NewOnes(Put(q, mac, name), told) < 8
    ensures var first := Put(q, mac, name);
            Kept(PutAll(first, told), |first|, NewOnes(first, told), Name(mac, LatestName(name, mac, told)))
  {
    hide *;
    if told == [] {
      NoneTold(q, mac, name);
    } else {
      var first, pre, last := Put(q, mac, name), told[..|told| - 1], told[|told| - 1];
      OneTold(first, told, name, mac);
      KeptUntilTheEighth(q, mac, name, pre);
      KeptStep(PutAll(first, pre), |first|, NewOnes(first, pre), Name(mac, LatestName(name, mac, pre)), last);
    }
  }

  /** So it is found until then. */
  lemma FoundUntilTheEighth(q: seq<Name>, mac: nat, name: seq<byte>, told: seq<Name>)
    requires DistinctMacs(q) && |q| <= SLOTS && At(q, mac) == |q|
    requires NewOnes(Put(q, mac, name), told) < 8
    ensures var now := PutAll(Put(q, mac, name), told);
            At(now, mac) < |now| && now[At(now, mac)].name == LatestName(name, mac, told)
  {
    KeptUntilTheEighth(q, mac, name, told);
    var now := PutAll(Put(q, mac, name), told);
    var i := |now| - 1 - NewOnes(Put(q, mac, name), told);
    hide Put, PutAll, NewOnes, LatestName, At;
    AtIs(now, mac, i);
  }

  lemma OneTold(q: seq<Name>, told: seq<Name>, name: seq<byte>, mac: nat)
    requires told != []
    ensures var pre, last := told[..|told| - 1], told[|told| - 1];
            var was := PutAll(q, pre);
            && PutAll(q, told) == Put(was, last.mac, last.name)
            && NewOnes(q, told) == NewOnes(q, pre) + (if At(was, last.mac) == |was| then 1 else 0)
            && LatestName(name, mac, told) == if last.mac == mac then last.name else LatestName(name, mac, pre)
  {
  }

  lemma NotThere(q: seq<Name>, i: nat, mac: nat)
    requires At(q, mac) == |q| && i < |q|
    ensures q[i].mac != mac
  {
  }

  lemma NoneTold(q: seq<Name>, mac: nat, name: seq<byte>)
    requires DistinctMacs(q) && |q| <= SLOTS && At(q, mac) == |q|
    ensures var first := Put(q, mac, name);
            Kept(PutAll(first, []), |first|, NewOnes(first, []), Name(mac, LatestName(name, mac, [])))
  {
    FirstPut(q, mac, name);
    hide Put, At, DistinctMacs;
  }

  lemma FirstPut(q: seq<Name>, mac: nat, name: seq<byte>)
    requires DistinctMacs(q) && |q| <= SLOTS && At(q, mac) == |q|
    ensures var first := Put(q, mac, name);
            && DistinctMacs(first) && 1 <= |first| <= SLOTS && first[|first| - 1] == Name(mac, name)
  {
  }

  /** And that one takes its place: the name is gone with the eighth new station. */
  lemma GoneWithTheEighth(q: seq<Name>, mac: nat, name: seq<byte>, told: seq<Name>, eighth: Name)
    requires DistinctMacs(q) && |q| <= SLOTS && At(q, mac) == |q|
    requires NewOnes(Put(q, mac, name), told) == 7
    requires NewOnes(Put(q, mac, name), told + [eighth]) == 8
    ensures var now := PutAll(Put(q, mac, name), told + [eighth]);
            At(now, mac) == |now|
  {
    var first := Put(q, mac, name);
    KeptUntilTheEighth(q, mac, name, told);
    FirstPut(q, mac, name);
    assert (told + [eighth])[..|told|] == told;
    var was := PutAll(first, told);
    hide Put, DistinctMacs;
    PutMoves(was, 0, eighth.mac, eighth.name);
  }

  /** A request of a station that calls itself abc, with the options behind the cookie: message type, host
      name, end; what follows the end is not looked at. */
  lemma NameExample()
    ensures NameIn([99, 130, 83, 99, 53, 1, 3, 0, 12, 3, 97, 98, 99, 255, 12, 1, 120], 32) == [97, 98, 99]
  {
    hide NameIn, FirstName, Clean;
    var options: seq<byte> := [99, 130, 83, 99, 53, 1, 3, 0, 12, 3, 97, 98, 99, 255, 12, 1, 120];
    assert options[4..] == [53, 1, 3] + ([0] + ([12, 3, 97, 98, 99] + [255, 12, 1, 120]));
    OptionsExample([255, 12, 1, 120]);
    Named(options, 32);
    assert [97, 98, 99][..3] == [97, 98, 99];
    CleanExample();
  }

  lemma OptionsExample(rest: seq<byte>)
    ensures FirstName([53, 1, 3] + ([0] + ([12, 3, 97, 98, 99] + rest))) == Some([97, 98, 99])
  {
    hide FirstName;
    OneOption(Opt(53, [3]), [0] + ([12, 3, 97, 98, 99] + rest));
    OneOption(Padding, [12, 3, 97, 98, 99] + rest);
    OneOption(Opt(12, [97, 98, 99]), rest);
    assert [53, 1] + [3] == [53, 1, 3] && [12, 3] + [97, 98, 99] == [12, 3, 97, 98, 99];
  }

  lemma CleanExample()
    ensures Clean([97, 98, 99]) == [97, 98, 99]
  {
    IndexAt([97, 98, 99], 0, 3);
    CleanShape([97, 98, 99]);
    hide Clean;
  }

  /** A message with the end marker first, as with nothing behind the cookie, tells none. */
  lemma EndTellsNothing(rest: seq<byte>)
    ensures FirstName([255] + rest) == None && FirstName([]) == None
  {
  }
}
