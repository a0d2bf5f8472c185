/** The clone's mirror table: a row per local characteristic, bound anew to the upstream
    attribute with the same pair of UUIDs after every reconnect. */
module CloneMirror {
  import opened Prelude

  const MAX_CHARS: nat := 64
  const CACHE_BYTES: nat := 64

  datatype Uuid = Uuid(bits: nat, value: nat)

  /** A characteristic as upstream presents it. */
  datatype Chr = Chr(uuid: Uuid, handle: nat)

  datatype Service = Service(uuid: Uuid, chars: seq<Chr>)

  /** A characteristic together with its service's UUID. */
  datatype Attr = Attr(svc: Uuid, chr: Uuid, handle: nat)

  datatype Row = Row(local: nat, svc: Uuid, chr: Uuid, handle: nat, upstream: Option<Attr>,
                     cache: seq<byte>, primed: bool, value: seq<byte>)

  /** The services NimBLE registers itself. */
  predicate Standard(u: Uuid) {
    u.bits == 16 && (u.value == 0x1800 || u.value == 0x1801)
  }

  function Attrs(s: Service): (r: seq<Attr>)
    ensures |r| == |s.chars|
    ensures forall k :: 0 <= k < |r| ==> r[k] == Attr(s.uuid, s.chars[k].uuid, s.chars[k].handle)
  {
    seq(|s.chars|, k requires 0 <= k < |s.chars| => Attr(s.uuid, s.chars[k].uuid, s.chars[k].handle))
  }

  /** All upstream characteristics in discovery order. */
  function Flat(services: seq<Service>): seq<Attr> {
    if services == [] then [] else Flat(services[..|services| - 1]) + Attrs(services[|services| - 1])
  }

  /** Those the mirror takes over. */
  function Mirrored(services: seq<Service>): seq<Attr> {
    if services == [] then []
    else
      var last := services[|services| - 1];
      Mirrored(services[..|services| - 1]) + if Standard(last.uuid) then [] else Attrs(last)
  }

  predicate Same(a: Attr, svc: Uuid, chr: Uuid) {
    a.svc == svc && a.chr == chr
  }

  /** The first attribute with the pair of UUIDs. */
  function Find(attrs: seq<Attr>, svc: Uuid, chr: Uuid): (r: Option<Attr>)
    ensures r.Some? ==> Same(r.value, svc, chr) && exists k :: 0 <= k < |attrs| && attrs[k] == r.value
    ensures r.None? ==> forall k :: 0 <= k < |attrs| ==> !Same(attrs[k], svc, chr)
  {
    if attrs == [] then None
    else if Same(attrs[0], svc, chr) then Some(attrs[0])
    else
      var r := Find(attrs[1..], svc, chr);
      assert r.Some? ==> exists k :: 0 <= k < |attrs[1..]| && attrs[1..][k] == r.value;
      r
  }

  lemma {:induction false} FindAt(attrs: seq<Attr>, svc: Uuid, chr: Uuid, k: nat)
    requires k < |attrs| && Same(attrs[k], svc, chr)
    requires forall j :: 0 <= j < k ==> !Same(attrs[j], svc, chr)
    ensures Find(attrs, svc, chr) == Some(attrs[k])
  {
    if k > 0 {
      FindAt(attrs[1..], svc, chr, k - 1);
    }
  }

  lemma {:induction false} FindNone(attrs: seq<Attr>, svc: Uuid, chr: Uuid)
    requires forall j :: 0 <= j < |attrs| ==> !Same(attrs[j], svc, chr)
    ensures Find(attrs, svc, chr) == None
  {
  }

  function Bound(row: Row, attrs: seq<Attr>): Row {
    match Find(attrs, row.svc, row.chr)
    case None => row.(upstream := None)
    case Some(a) => row.(upstream := Some(a), handle := a.handle)
  }

  function Rebound(rows: seq<Row>, attrs: seq<Attr>): (r: seq<Row>)
    ensures |r| == |rows| && forall k :: 0 <= k < |r| ==> r[k] == Bound(rows[k], attrs)
  {
    seq(|rows|, k requires 0 <= k < |rows| => Bound(rows[k], attrs))
  }

  predicate Matched(row: Row, attrs: seq<Attr>) {
    Find(attrs, row.svc, row.chr).Some?
  }

  /** The first row with the handle; the length when there is none. */
  function RowOf(rows: seq<Row>, handle: nat): (i: nat)
    ensures i <= |rows| && (i < |rows| ==> rows[i].handle == handle)
    ensures forall k :: 0 <= k < i ==> rows[k].handle != handle
  {
    if rows == [] || rows[0].handle == handle then 0 else 1 + RowOf(rows[1..], handle)
  }

  lemma {:induction false} RowAt(rows: seq<Row>, handle: nat, i: nat)
    requires i <= |rows| && (i < |rows| ==> rows[i].handle == handle)
    requires forall k :: 0 <= k < i ==> rows[k].handle != handle
    ensures RowOf(rows, handle) == i
  {
    if i > 0 {
      RowAt(rows[1..], handle, i - 1);
    }
  }

  function Cached(row: Row, data: seq<byte>): Row {
    row.(cache := data[..Min(|data|, CACHE_BYTES)], primed := true)
  }

  /** A value that came in for a handle, in the first row with that handle. A notification
      is kept whole in the local characteristic, a primed value cut to the cache. */
  function Received(rows: seq<Row>, handle: nat, data: seq<byte>, whole: bool): seq<Row> {
    var i := RowOf(rows, handle);
    if i == |rows| then rows
    else rows[i := Cached(rows[i], data).(value := if whole then data else data[..Min(|data|, CACHE_BYTES)])]
  }

  datatype Notice = Notice(local: nat, data: seq<byte>)

  // ------------------------------------------------------------------ the table

  class Mirror {
    var rows: array<Row>
    var count: nat
    /** Notifications sent to the local centrals. */
    var notified: seq<Notice>

    /** Rows have their own local characteristics, and none is bound to an attribute with
        another pair of UUIDs. */
    predicate Valid()
      reads this, rows
    {
      && rows.Length == MAX_CHARS && count <= MAX_CHARS
      && (forall k :: 0 <= k < count ==> rows[k].local == k)
      && (forall k :: 0 <= k < count ==> WellBound(rows[k]))
    }

    function Rows(): seq<Row>
      reads this, rows
      requires Valid()
    {
      rows[..count]
    }

    /** A row for each upstream characteristic, in discovery order, as far as the table goes. */
    constructor BuildFrom(services: seq<Service>)
      ensures Valid() && fresh(rows) && notified == []
      ensures |Rows()| == Min(|Mirrored(services)|, 64)
      ensures forall k :: 0 <= k < |Rows()| ==> Rows()[k] == NewRow(k, Mirrored(services)[k])
      ensures forall k :: 0 <= k < |Rows()| ==> Rows()[k].cache == [] && !Rows()[k].primed && Rows()[k].value == []
    {
      rows := new Row[MAX_CHARS](_ => NewRow(0, Attr(Uuid(0, 0), Uuid(0, 0), 0)));
      count := 0;
      notified := [];
      new;
      var s := 0;
      while s < |services|
        invariant s <= |services| && fresh(rows) && notified == [] && Holds(Mirrored(services[..s]))
      {
        ghost var before := Mirrored(services[..s]);
        assert services[..s + 1][..s] == services[..s];
        var svc := services[s];
        if !Standard(svc.uuid) {
          AddService(before, svc);
        }
        s := s + 1;
      }
      assert services[..s] == services;
    }

    method AddService(ghost before: seq<Attr>, svc: Service)
      requires Holds(before)
      modifies this`count, rows
      ensures Holds(before + Attrs(svc))
    {
      var c := 0;
      assert before + Attrs(svc)[..0] == before;
      while c < |svc.chars|
        invariant c <= |svc.chars| && Holds(before + Attrs(svc)[..c])
      {
        if count >= MAX_CHARS {
          assert Holds(before + Attrs(svc));
          return;
        }
        var a := Attr(svc.uuid, svc.chars[c].uuid, svc.chars[c].handle);
        assert before + Attrs(svc)[..c + 1] == before + Attrs(svc)[..c] + [a];
        hide Attrs;
        rows[count] := NewRow(count, a);
        count := count + 1;
        c := c + 1;
      }
      assert Attrs(svc)[..|svc.chars|] == Attrs(svc);
    }

    ghost predicate Holds(attrs: seq<Attr>)
      reads this, rows
    {
      && rows.Length == MAX_CHARS && count == Min(|attrs|, MAX_CHARS)
      && forall k :: 0 <= k < count ==> rows[k] == NewRow(k, attrs[k])
    }

    /** Binds every row to the first upstream attribute with its pair of UUIDs; a row without
        one loses its attribute but keeps its handle. */
    method RebindUpstream(services: seq<Service>) returns (any: bool)
      requires Valid()
      modifies rows
      ensures Valid() && Rows() == Rebound(old(Rows()), Flat(services))
      ensures any <==> exists k :: 0 <= k < count && Matched(old(Rows()[k]), Flat(services))
    {
      hide Find, Flat, Bound, WellBound, Matched;
      ghost var was, attrs := Rows(), Flat(services);
      any := false;
      var i := 0;
      while i < count
        invariant Valid() && i <= count
        invariant forall k :: 0 <= k < i ==> rows[k] == Bound(was[k], attrs)
        invariant forall k :: i <= k < count ==> rows[k] == was[k]
        invariant any <==> exists k :: 0 <= k < i && Matched(was[k], attrs)
      {
        var found := RebindRow(i, services);
        any := any || found;
        i := i + 1;
      }
    }

    method RebindRow(i: nat, services: seq<Service>) returns (found: bool)
      requires Valid() && i < count
      modifies rows
      ensures Valid() && rows[i] == Bound(old(rows[i]), Flat(services))
      ensures forall k :: 0 <= k < count && k != i ==> rows[k] == old(rows[k])
      ensures found <==> Matched(old(rows[i]), Flat(services))
    {
      hide Find, Flat;
      var row := rows[i];
      var a := Lookup(services, row.svc, row.chr);
      found := a.Some?;
      row := row.(upstream := None);
      if found {
        row := row.(upstream := a, handle := a.value.handle);
      }
      rows[i] := row;
    }

    method DisconnectUpstream()
      requires Valid()
      modifies rows
      ensures Valid() && |Rows()| == |old(Rows())|
      ensures forall k :: 0 <= k < |Rows()| ==> Rows()[k] == old(Rows()[k]).(upstream := None, primed := false)
    {
      ghost var was := Rows();
      var i := 0;
      while i < count
        invariant Valid() && i <= count
        invariant forall k :: 0 <= k < i ==> rows[k] == was[k].(upstream := None, primed := false)
        invariant forall k :: i <= k < count ==> rows[k] == was[k]
      {
        rows[i] := rows[i].(upstream := None, primed := false);
        i := i + 1;
      }
    }

    method Locate(handle: nat) returns (i: nat)
      requires Valid()
      ensures i == RowOf(Rows(), handle)
    {
      i := 0;
      while i < count && rows[i].handle != handle
        invariant i <= count && forall k :: 0 <= k < i ==> rows[k].handle != handle
      {
        i := i + 1;
      }
      RowAt(Rows(), handle, i);
    }

    method PrimeCache(handle: nat, data: seq<byte>)
      requires Valid()
      modifies rows
      ensures Valid() && Rows() == Received(old(Rows()), handle, data, false)
    {
      ghost var was := Rows();
      var i := Locate(handle);
      if i < count {
        var n := if |data| < CACHE_BYTES then |data| else CACHE_BYTES;
        rows[i] := rows[i].(cache := data[..n], primed := true);
        rows[i] := rows[i].(value := data[..n]);
        assert Rows() == was[i := Cached(was[i], data).(value := data[..n])];
      }
    }

    method OnUpstreamNotify(handle: nat, data: seq<byte>)
      requires Valid()
      modifies this`notified, rows
      ensures Valid() && Rows() == Received(old(Rows()), handle, data, true)
      ensures notified ==
              if RowOf(old(Rows()), handle) == |old(Rows())| then old(notified)
              else old(notified) + [Notice(RowOf(old(Rows()), handle), data)]
    {
      ghost var was := Rows();
      var i := Locate(handle);
      if i < count {
        var n := if |data| < CACHE_BYTES then |data| else CACHE_BYTES;
        rows[i] := rows[i].(cache := data[..n], primed := true);
        var local := rows[i].local;
        rows[i] := rows[i].(value := data);
        notified := notified + [Notice(local, data)];
        assert Rows() == was[i := Cached(was[i], data).(value := data)];
      }
    }

    /** A central's write goes to the attribute the row is bound to, so always to one with the
        row's UUIDs, and is dropped while there is none. */
    method OnWrite(local: nat, data: seq<byte>) returns (to: Option<Attr>)
      requires Valid()
      modifies rows
      ensures Valid()
      ensures local >= count ==> to == None && Rows() == old(Rows())
      ensures local < count ==>
                && to == old(Rows()[local].upstream)
                && (to.Some? ==> Same(to.value, Rows()[local].svc, Rows()[local].chr))
                && Rows() == old(Rows())[local := old(Rows()[local]).(cache := [], primed := false)]
    {
      ghost var was := Rows();
      var i := 0;
      while i < count && rows[i].local != local
        invariant i <= count && forall k :: 0 <= k < i ==> rows[k].local != local
      {
        i := i + 1;
      }
      if i == count {
        return None;
      }
      assert i == local;
      to := rows[i].upstream;
      rows[i] := rows[i].(cache := [], primed := false);
      assert Rows() == was[local := was[local].(cache := [], primed := false)];
    }
  }

  predicate WellBound(row: Row) {
    row.upstream.Some? ==>
      Same(row.upstream.value, row.svc, row.chr) && row.upstream.value.handle == row.handle
  }

  function NewRow(local: nat, a: Attr): Row {
    Row(local, a.svc, a.chr, a.handle, Some(a), [], false, [])
  }

  /** The search a rebind makes for one row. */
  method Lookup(services: seq<Service>, svc: Uuid, chr: Uuid) returns (found: Option<Attr>)
    ensures found == Find(Flat(services), svc, chr)
  {
    ghost var seen: seq<Attr> := [];
    var s := 0;
    while s < |services|
      invariant s <= |services| && seen == Flat(services[..s])
      invariant forall k :: 0 <= k < |seen| ==> !Same(seen[k], svc, chr)
    {
      assert services[..s + 1][..s] == services[..s];
      var service := services[s];
      if service.uuid == svc {
        var c := 0;
        while c < |service.chars|
          invariant c <= |service.chars|
          invariant forall k :: 0 <= k < c ==> !Same(Attrs(service)[k], svc, chr)
        {
          if service.chars[c].uuid == chr {
            FoundAt(services, s, c, svc, chr);
            return Some(Attr(service.uuid, service.chars[c].uuid, service.chars[c].handle));
          }
          c := c + 1;
        }
      }
      seen := seen + Attrs(service);
      s := s + 1;
    }
    assert services[..s] == services;
    FindNone(Flat(services), svc, chr);
    return None;
  }

  lemma {:induction false} FlatPrefix(services: seq<Service>, s: nat)
    requires s <= |services|
    ensures |Flat(services[..s])| <= |Flat(services)|
    ensures Flat(services)[..|Flat(services[..s])|] == Flat(services[..s])
  {
    if s == |services| {
      assert services[..s] == services;
    } else {
      var n := |services| - 1;
      FlatPrefix(services[..n], s);
      assert services[..n][..s] == services[..s];
    }
  }

  lemma FoundAt(services: seq<Service>, s: nat, c: nat, svc: Uuid, chr: Uuid)
    requires s < |services| && c < |services[s].chars|
    requires forall k :: 0 <= k < |Flat(services[..s])| ==> !Same(Flat(services[..s])[k], svc, chr)
    requires forall k :: 0 <= k < c ==> !Same(Attrs(services[s])[k], svc, chr)
    requires Same(Attrs(services[s])[c], svc, chr)
    ensures Find(Flat(services), svc, chr) == Some(Attrs(services[s])[c])
  {
    hide Find, Attrs, Same;
    FlatPrefix(services, s + 1);
    assert services[..s + 1][..s] == services[..s];
    var head, own, all := Flat(services[..s]), Attrs(services[s]), Flat(services);
    assert Flat(services[..s + 1]) == head + own;
    hide Flat;
    FindBehind(all, head, own, c, svc, chr);
  }

  lemma FindBehind(all: seq<Attr>, head: seq<Attr>, own: seq<Attr>, c: nat, svc: Uuid, chr: Uuid)
    requires |head + own| <= |all| && all[..|head + own|] == head + own && c < |own|
    requires forall k :: 0 <= k < |head| ==> !Same(head[k], svc, chr)
    requires forall k :: 0 <= k < c ==> !Same(own[k], svc, chr)
    requires Same(own[c], svc, chr)
    ensures Find(all, svc, chr) == Some(own[c])
  {
    hide Find, Same;
    assert forall k :: 0 <= k < |head + own| ==> all[k] == all[..|head + own|][k];
    FindAt(all, svc, chr, |head| + c);
  }

  // ------------------------------------------------------------------- the claims

  predicate DistinctKeys(rows: seq<Row>) {
    forall i, j :: 0 <= i < j < |rows| ==> rows[i].svc != rows[j].svc || rows[i].chr != rows[j].chr
  }

  predicate UniqueHandles(attrs: seq<Attr>) {
    forall i, j :: 0 <= i < j < |attrs| ==> attrs[i].handle != attrs[j].handle
  }

  predicate Injective(rows: seq<Row>) {
    forall i, j :: 0 <= i < j < |rows| ==> rows[i].handle != rows[j].handle
  }

  predicate AllMatched(rows: seq<Row>, attrs: seq<Attr>) {
    forall k :: 0 <= k < |rows| ==> Matched(rows[k], attrs)
  }

  /** Attributes found for different pairs of UUIDs have different handles. */
  lemma HandleTellsKey(attrs: seq<Attr>, a: Row, b: Row)
    requires UniqueHandles(attrs) && Matched(a, attrs) && Matched(b, attrs)
    ensures Bound(a, attrs).handle == Bound(b, attrs).handle <==> a.svc == b.svc && a.chr == b.chr
  {
    var x, y := Find(attrs, a.svc, a.chr).value, Find(attrs, b.svc, b.chr).value;
    var i :| 0 <= i < |attrs| && attrs[i] == x;
    var j :| 0 <= j < |attrs| && attrs[j] == y;
    hide Find;
  }

  /** After a rebind that matched every row, the handles tell the rows apart exactly when the
      pairs of UUIDs do. */
  lemma HandlesInjective(rows: seq<Row>, attrs: seq<Attr>)
    requires UniqueHandles(attrs) && AllMatched(rows, attrs)
    ensures Injective(Rebound(rows, attrs)) <==> DistinctKeys(rows)
  {
    hide Bound, Find, UniqueHandles, Matched;
    forall i, j | 0 <= i < j < |rows|
      ensures Rebound(rows, attrs)[i].handle == Rebound(rows, attrs)[j].handle
              <==> rows[i].svc == rows[j].svc && rows[i].chr == rows[j].chr
    {
      HandleTellsKey(attrs, rows[i], rows[j]);
    }
  }

  /** After any rebind, what row `i` is bound to has its notifications delivered to row `i`
      exactly when no earlier row that was missed still holds the same handle. */
  lemma NotifyReachesItsRow(rows: seq<Row>, attrs: seq<Attr>, i: nat)
    requires i < |rows| && DistinctKeys(rows) && UniqueHandles(attrs) && Matched(rows[i], attrs)
    ensures var h := Find(attrs, rows[i].svc, rows[i].chr).value.handle;
            RowOf(Rebound(rows, attrs), h) == i <==>
            forall j :: 0 <= j < i && !Matched(rows[j], attrs) ==> rows[j].handle != h
  {
    var now := Rebound(rows, attrs);
    var h := Find(attrs, rows[i].svc, rows[i].chr).value.handle;
    assert now[i].handle == h;
    forall j | 0 <= j < i
      ensures now[j].handle == h <==> !Matched(rows[j], attrs) && rows[j].handle == h
    {
      if Matched(rows[j], attrs) {
        HandleTellsKey(attrs, rows[j], rows[i]);
      }
    }
    hide Bound, Find, Matched, DistinctKeys, UniqueHandles;
    if forall j :: 0 <= j < i ==> now[j].handle != h {
      RowAt(now, h, i);
    }
  }

  /** When every row was matched, a notification for any upstream attribute changes exactly the
      row with its pair of UUIDs if that row is bound to it, and otherwise nothing. */
  lemma NotifyAfterFullRebind(rows: seq<Row>, attrs: seq<Attr>, k: nat, data: seq<byte>)
    requires DistinctKeys(rows) && UniqueHandles(attrs) && AllMatched(rows, attrs) && k < |attrs|
    ensures var now, next := Rebound(rows, attrs), Received(Rebound(rows, attrs), attrs[k].handle, data, true);
            && |next| == |rows|
            && forall i :: 0 <= i < |rows| ==>
                 next[i] == if Find(attrs, rows[i].svc, rows[i].chr) == Some(attrs[k])
                            then Cached(now[i], data).(value := data) else now[i]
  {
    var now, h := Rebound(rows, attrs), attrs[k].handle;
    forall i | 0 <= i < |rows|
      ensures now[i].handle == h <==> Find(attrs, rows[i].svc, rows[i].chr) == Some(attrs[k])
    {
      assert Matched(rows[i], attrs);
      var a := Find(attrs, rows[i].svc, rows[i].chr).value;
      var j :| 0 <= j < |attrs| && attrs[j] == a;
    }
    HandlesInjective(rows, attrs);
    hide Find, Bound, Matched, UniqueHandles, DistinctKeys, Cached, AllMatched;
    var r := RowOf(now, h);
  }

  /** A full rebind forgets the handles it finds: only the new assignment counts. */
  lemma RebindForgetsHandles(rows: seq<Row>, others: seq<Row>, attrs: seq<Attr>)
    requires |rows| == |others| && AllMatched(rows, attrs)
    requires forall k :: 0 <= k < |rows| ==>
               others[k] == rows[k].(handle := others[k].handle, upstream := others[k].upstream)
    ensures Rebound(rows, attrs) == Rebound(others, attrs)
  {
    hide Find;
    forall k | 0 <= k < |rows| ensures Bound(rows[k], attrs) == Bound(others[k], attrs) {
      assert Matched(rows[k], attrs);
    }
    hide Bound, Matched;
  }

  /** A missed row keeps its handle and can so take the notifications of another: the first row
      is gone upstream and the second has been given its handle. */
  lemma StaleRowSteals(svc: Uuid, gone: Uuid, here: Uuid, h: nat, data: seq<byte>)
    requires gone != here
    ensures var attrs := [Attr(svc, here, h)];
            var rows := [NewRow(0, Attr(svc, gone, h)), NewRow(1, Attr(svc, here, h + 1))];
            && DistinctKeys(rows) && UniqueHandles(attrs)
            && Rebound(rows, attrs)[1].upstream == Some(attrs[0])
            && Received(Rebound(rows, attrs), h, data, true)[0].value == data
            && Received(Rebound(rows, attrs), h, data, true)[1] == Rebound(rows, attrs)[1]
  {
    var attrs := [Attr(svc, here, h)];
    var rows := [NewRow(0, Attr(svc, gone, h)), NewRow(1, Attr(svc, here, h + 1))];
    FindNone(attrs, svc, gone);
    FindAt(attrs, svc, here, 0);
    RowAt(Rebound(rows, attrs), h, 0);
  }

  // -------------------------------------------------------------------- whole runs

  datatype Event =
    | Rebind(attrs: seq<Attr>)
    | Disconnect
    | Notify(k: nat, data: seq<byte>)
    | Prime(k: nat, data: seq<byte>)
    | Write(local: nat)

  /** The table, the upstream attributes it was last bound to, and what was forwarded, each
      with the attribute it came from. */
  datatype Link = Link(rows: seq<Row>, attrs: seq<Attr>, sent: seq<(Notice, Attr)>)

  function Dropped(rows: seq<Row>): (r: seq<Row>)
    ensures |r| == |rows| && forall k :: 0 <= k < |r| ==> r[k] == rows[k].(upstream := None, primed := false)
  {
    seq(|rows|, k requires 0 <= k < |rows| => rows[k].(upstream := None, primed := false))
  }

  /** A notification for the `k`-th attribute of the last binding. */
  function Notified(l: Link, k: nat, data: seq<byte>): Link
    requires k < |l.attrs|
  {
    var h := l.attrs[k].handle;
    var i := RowOf(l.rows, h);
    Link(Received(l.rows, h, data, true), l.attrs,
         if i < |l.rows| then l.sent + [(Notice(i, data), l.attrs[k])] else l.sent)
  }

  function Act(l: Link, e: Event): Link {
    match e
    case Rebind(attrs) => Link(Rebound(l.rows, attrs), attrs, l.sent)
    case Disconnect => l.(rows := Dropped(l.rows))
    case Notify(k, data) => if k < |l.attrs| then Notified(l, k, data) else l
    case Prime(k, data) =>
      if k < |l.attrs| then l.(rows := Received(l.rows, l.attrs[k].handle, data, false)) else l
    case Write(i) =>
      if i < |l.rows| then l.(rows := l.rows[i := l.rows[i].(cache := [], primed := false)]) else l
  }

  function Run(l: Link, events: seq<Event>): Link {
    if events == [] then l else Act(Run(l, events[..|events| - 1]), events[|events| - 1])
  }

  /** Two rows of the same local characteristic. */
  predicate SameKey(a: Row, b: Row) {
    a.svc == b.svc && a.chr == b.chr
  }

  /** The rows keep their UUIDs, and each has the handle of the attribute it was bound to. */
  predicate Tied(l: Link, rows: seq<Row>) {
    && |l.rows| == |rows|
    && UniqueHandles(l.attrs)
    && forall i :: 0 <= i < |rows| ==> SameKey(l.rows[i], rows[i]) && RowTied(l.rows[i], l.attrs)
  }

  predicate RowTied(row: Row, attrs: seq<Attr>) {
    Matched(row, attrs) && row.handle == Find(attrs, row.svc, row.chr).value.handle
  }

  /** Everything forwarded went to the characteristic with the UUIDs of its attribute. */
  predicate SentRight(l: Link, rows: seq<Row>) {
    forall j :: 0 <= j < |l.sent| ==>
      && l.sent[j].0.local < |rows|
      && Same(l.sent[j].1, rows[l.sent[j].0.local].svc, rows[l.sent[j].0.local].chr)
  }

  /** Every binding in the run finds every row, among attributes with handles of their own. */
  predicate Complete(rows: seq<Row>, events: seq<Event>) {
    forall j :: 0 <= j < |events| && events[j].Rebind? ==>
      UniqueHandles(events[j].attrs) && AllMatched(rows, events[j].attrs)
  }

  /** The handle of an attribute is that of a row exactly when the row is bound to it. */
  lemma TiedHandle(attrs: seq<Attr>, row: Row, k: nat)
    requires UniqueHandles(attrs) && RowTied(row, attrs) && k < |attrs|
    ensures row.handle == attrs[k].handle <==> Find(attrs, row.svc, row.chr) == Some(attrs[k])
  {
    var a := Find(attrs, row.svc, row.chr).value;
    var j :| 0 <= j < |attrs| && attrs[j] == a;
    hide Find;
  }

  predicate DistinctPairs(attrs: seq<Attr>) {
    forall i, j :: 0 <= i < j < |attrs| ==> !Same(attrs[j], attrs[i].svc, attrs[i].chr)
  }

  lemma {:induction false} MirroredIsFound(services: seq<Service>, k: nat)
    requires k < |Mirrored(services)|
    ensures exists j :: 0 <= j < |Flat(services)| && Flat(services)[j] == Mirrored(services)[k]
  {
    var n := |services| - 1;
    var pre := services[..n];
    if k < |Mirrored(pre)| {
      MirroredIsFound(pre, k);
      var j :| 0 <= j < |Flat(pre)| && Flat(pre)[j] == Mirrored(pre)[k];
      assert Flat(services)[j] == Mirrored(services)[k];
    } else {
      var j := |Flat(pre)| + (k - |Mirrored(pre)|);
      assert Flat(services)[j] == Mirrored(services)[k];
    }
  }

  /** A freshly built table is bound to the attributes it was built from, when these have pairs of
      UUIDs and handles of their own: the runs below may start there. */
  lemma FreshlyBuiltIsTied(services: seq<Service>, rows: seq<Row>)
    requires DistinctPairs(Flat(services)) && UniqueHandles(Flat(services))
    requires |rows| == Min(|Mirrored(services)|, MAX_CHARS)
    requires forall k :: 0 <= k < |rows| ==> rows[k] == NewRow(k, Mirrored(services)[k])
    ensures Tied(Link(rows, Flat(services), []), rows)
  {
    var attrs := Flat(services);
    hide Flat, Mirrored, Find, UniqueHandles;
    forall k | 0 <= k < |rows| ensures RowTied(rows[k], attrs) {
      MirroredIsFound(services, k);
      var j: nat :| j < |attrs| && attrs[j] == Mirrored(services)[k];
      FindAt(attrs, attrs[j].svc, attrs[j].chr, j);
    }
  }

  lemma ReceivedKeeps(l: Link, rows: seq<Row>, handle: nat, data: seq<byte>, whole: bool)
    requires Tied(l, rows)
    ensures Tied(l.(rows := Received(l.rows, handle, data, whole)), rows)
  {
    hide Find, UniqueHandles, RowOf;
  }

  lemma NotifyKeeps(l: Link, rows: seq<Row>, k: nat, data: seq<byte>)
    requires Tied(l, rows) && SentRight(l, rows) && k < |l.attrs|
    ensures Tied(Notified(l, k, data), rows) && SentRight(Notified(l, k, data), rows)
  {
    hide Find, UniqueHandles;
    ReceivedKeeps(l, rows, l.attrs[k].handle, data, true);
    var i := RowOf(l.rows, l.attrs[k].handle);
    if i < |l.rows| {
      assert SameKey(l.rows[i], rows[i]);
      TiedHandle(l.attrs, l.rows[i], k);
    }
    hide RowOf, Received, RowTied;
  }

  lemma ActKeeps(l: Link, rows: seq<Row>, e: Event)
    requires Tied(l, rows) && SentRight(l, rows)
    requires e.Rebind? ==> UniqueHandles(e.attrs) && AllMatched(rows, e.attrs)
    ensures Tied(Act(l, e), rows) && SentRight(Act(l, e), rows)
  {
    match e {
      case Notify(k, data) =>
        if k < |l.attrs| {
          NotifyKeeps(l, rows, k, data);
        }
      case Rebind(attrs) =>
        forall i | 0 <= i < |rows| ensures RowTied(Bound(l.rows[i], attrs), attrs) {
          assert SameKey(l.rows[i], rows[i]) && Matched(rows[i], attrs);
        }
        hide Find, UniqueHandles;
      case Prime(k, data) =>
        if k < |l.attrs| {
          ReceivedKeeps(l, rows, l.attrs[k].handle, data, false);
        }
        hide Find, UniqueHandles, Received;
      case _ => hide Find, UniqueHandles;
    }
  }

  /** In every run of complete bindings, with new handles each time, and of disconnections,
      notifications, reads and writes between them, every notification goes to the
      characteristic with the UUIDs of its attribute, and goes out whenever a row is bound to it. */
  lemma {:induction false} NotificationsGoHome(l: Link, events: seq<Event>, k: nat)
    requires Tied(l, l.rows) && l.sent == [] && Complete(l.rows, events)
    ensures var now := Run(l, events);
            && Tied(now, l.rows) && SentRight(now, l.rows)
            && (k < |now.attrs| ==>
                  (RowOf(now.rows, now.attrs[k].handle) < |now.rows| <==>
                   exists i :: 0 <= i < |l.rows| && Find(now.attrs, l.rows[i].svc, l.rows[i].chr) == Some(now.attrs[k])))
    decreases |events|
  {
    if events != [] {
      var n := |events| - 1;
      NotificationsGoHome(l, events[..n], k);
      assert events[n].Rebind? ==> UniqueHandles(events[n].attrs) && AllMatched(l.rows, events[n].attrs);
      ActKeeps(Run(l, events[..n]), l.rows, events[n]);
    }
    var now := Run(l, events);
    if k < |now.attrs| {
      BoundToOne(now, l.rows, k);
    }
  }

  lemma BoundToOne(now: Link, rows: seq<Row>, k: nat)
    requires Tied(now, rows) && k < |now.attrs|
    ensures RowOf(now.rows, now.attrs[k].handle) < |now.rows| <==>
            exists i :: 0 <= i < |rows| && Find(now.attrs, rows[i].svc, rows[i].chr) == Some(now.attrs[k])
  {
    hide Find, UniqueHandles, RowTied;
    forall i | 0 <= i < |rows|
      ensures now.rows[i].handle == now.attrs[k].handle <==>
              Find(now.attrs, rows[i].svc, rows[i].chr) == Some(now.attrs[k])
    {
      assert SameKey(now.rows[i], rows[i]);
      TiedHandle(now.attrs, now.rows[i], k);
    }
    var r := RowOf(now.rows, now.attrs[k].handle);
    if r < |rows| {
      assert Find(now.attrs, rows[r].svc, rows[r].chr) == Some(now.attrs[k]);
    }
  }

  // ---------------------------------------------------------------- in plain terms

  /** How many characteristics the first `s` services have. */
  function CharsBefore(services: seq<Service>, s: nat): nat
    requires s <= |services|
  {
    if s == 0 then 0 else CharsBefore(services, s - 1) + |services[s - 1].chars|
  }

  lemma {:induction false} CharsOfPrefix(services: seq<Service>, s: nat, n: nat)
    requires s <= n <= |services|
    ensures CharsBefore(services[..n], s) == CharsBefore(services, s)
  {
    if s > 0 {
      CharsOfPrefix(services, s - 1, n);
    }
  }

  /** Discovery order: a service's characteristics behind those of the services before it. */
  lemma {:induction false} DiscoveryOrder(services: seq<Service>, s: nat, c: nat)
    requires s < |services| && c < |services[s].chars|
    ensures |Flat(services)| == CharsBefore(services, |services|)
    ensures var at := CharsBefore(services, s) + c;
            && at < |Flat(services)|
            && Flat(services)[at] == Attr(services[s].uuid, services[s].chars[c].uuid, services[s].chars[c].handle)
    decreases |services|
  {
    var n := |services| - 1;
    FlatLength(services);
    CharsOfPrefix(services, s, n);
    if s < n {
      DiscoveryOrder(services[..n], s, c);
    } else {
      FlatLength(services[..n]);
    }
    hide Attrs;
    AttrsAt(services[s], c);
  }

  lemma AttrsAt(s: Service, c: nat)
    requires c < |s.chars|
    ensures |Attrs(s)| == |s.chars| && Attrs(s)[c] == Attr(s.uuid, s.chars[c].uuid, s.chars[c].handle)
  {
  }

  lemma {:induction false} FlatLength(services: seq<Service>)
    ensures |Flat(services)| == CharsBefore(services, |services|)
  {
    if services != [] {
      FlatLength(services[..|services| - 1]);
      CharsOfPrefix(services, |services| - 1, |services| - 1);
    }
  }

  /** The attributes left when those of the 16-bit services 0x1800 and 0x1801 are out. */
  function Without(attrs: seq<Attr>): seq<Attr> {
    if attrs == [] then []
    else
      var a := attrs[|attrs| - 1];
      Without(attrs[..|attrs| - 1]) + if a.svc == Uuid(16, 0x1800) || a.svc == Uuid(16, 0x1801) then [] else [a]
  }

  lemma {:induction false} WithoutAppend(attrs: seq<Attr>, more: seq<Attr>)
    ensures Without(attrs + more) == Without(attrs) + Without(more)
  {
    if more == [] {
      assert attrs + more == attrs;
    } else {
      var n := |more| - 1;
      WithoutAppend(attrs, more[..n]);
      assert (attrs + more)[..|attrs| + n] == attrs + more[..n];
    }
  }

  lemma {:induction false} WithoutOne(attrs: seq<Attr>, svc: Uuid)
    requires forall k :: 0 <= k < |attrs| ==> attrs[k].svc == svc
    ensures Without(attrs) == if svc == Uuid(16, 0x1800) || svc == Uuid(16, 0x1801) then [] else attrs
  {
    if attrs != [] {
      var n := |attrs| - 1;
      WithoutOne(attrs[..n], svc);
      assert attrs == attrs[..n] + [attrs[n]];
    }
  }

  /** The mirror takes over every upstream characteristic in discovery order, but those of the services
      the device has of its own. */
  lemma {:induction false} MirroredIsFlatWithout(services: seq<Service>)
    ensures Mirrored(services) == Without(Flat(services))
  {
    if services != [] {
      var n := |services| - 1;
      MirroredIsFlatWithout(services[..n]);
      WithoutAppend(Flat(services[..n]), Attrs(services[n]));
      WithoutOne(Attrs(services[n]), services[n].uuid);
      hide Without, Attrs;
    }
  }

  /** A rebind gives a row the first attribute with its UUIDs and that one's handle; without one the row
      is unbound and keeps its handle; nothing else of it changes. */
  lemma RebindMeans(row: Row, attrs: seq<Attr>)
    ensures var now := Bound(row, attrs);
            && (now.upstream == None <==> forall k :: 0 <= k < |attrs| ==> !(attrs[k].svc == row.svc && attrs[k].chr == row.chr))
            && (now.upstream == None ==> now == row.(upstream := None))
            && (now.upstream.Some? ==>
                  now == row.(upstream := now.upstream, handle := now.upstream.value.handle)
                  && exists k :: 0 <= k < |attrs| && IsFirst(attrs, k, row.svc, row.chr) && now.upstream == Some(attrs[k]))
  {
    match FirstPlace(attrs, row.svc, row.chr) {
      case None => FindNone(attrs, row.svc, row.chr);
      case Some(k) => FindAt(attrs, row.svc, row.chr, k);
    }
    hide Find;
  }

  predicate IsFirst(attrs: seq<Attr>, k: nat, svc: Uuid, chr: Uuid) {
    && k < |attrs| && attrs[k].svc == svc && attrs[k].chr == chr
    && forall j :: 0 <= j < k ==> !(attrs[j].svc == svc && attrs[j].chr == chr)
  }

  ghost function FirstPlace(attrs: seq<Attr>, svc: Uuid, chr: Uuid): (r: Option<nat>)
    ensures r == None ==> forall j :: 0 <= j < |attrs| ==> !(attrs[j].svc == svc && attrs[j].chr == chr)
    ensures r.Some? ==> IsFirst(attrs, r.value, svc, chr)
  {
    if attrs == [] then None
    else if attrs[0].svc == svc && attrs[0].chr == chr then Some(0)
    else
      var r := FirstPlace(attrs[1..], svc, chr);
      assert forall j :: 1 <= j < |attrs| ==> attrs[j] == attrs[1..][j - 1];
      if r.Some? then Some(r.value + 1) else None
  }

  /** A value that comes in is cached in the first row with its handle, as far as sixty-four bytes go; the
      local characteristic has a notification whole and a value read ahead as it is cached. */
  lemma ReceivedMeans(rows: seq<Row>, handle: nat, data: seq<byte>, whole: bool, i: nat)
    requires i < |rows|
    ensures var now := Received(rows, handle, data, whole);
            && |now| == |rows|
            && (rows[i].handle != handle || (exists j :: 0 <= j < i && rows[j].handle == handle) ==> now[i] == rows[i])
            && (rows[i].handle == handle && (forall j :: 0 <= j < i ==> rows[j].handle != handle) ==>
                  && now[i] == rows[i].(cache := now[i].cache, primed := true, value := now[i].value)
                  && |now[i].cache| == (if |data| < 64 then |data| else 64) && now[i].cache <= data
                  && now[i].value == if whole then data else now[i].cache)
  {
    if rows[i].handle == handle && forall j :: 0 <= j < i ==> rows[j].handle != handle {
      RowAt(rows, handle, i);
    }
  }

  // ------------------------------------------------------------- what a row says

  /** The upstream attributes after a run: those of the last rebind. */
  function LastBinding(attrs: seq<Attr>, events: seq<Event>): seq<Attr> {
    if events == [] then attrs
    else if events[|events| - 1].Rebind? then events[|events| - 1].attrs
    else LastBinding(attrs, events[..|events| - 1])
  }

  /** What a local characteristic says: its value, and whether and what is cached for it. */
  datatype Told = Told(value: seq<byte>, cache: seq<byte>, primed: bool)

  /** The event is news from the attribute with the row's pair of UUIDs. */
  predicate IsNews(attrs: seq<Attr>, row: Row, e: Event) {
    (e.Notify? || e.Prime?) && e.k < |attrs| && IsFirst(attrs, e.k, row.svc, row.chr)
  }

  function Cut(data: seq<byte>): seq<byte> {
    if |data| <= 64 then data else data[..64]
  }

  /** What row `i` says after a run, by the events alone. */
  function ToldBy(row: Row, attrs: seq<Attr>, events: seq<Event>, i: nat): Told {
    if events == [] then Told(row.value, row.cache, row.primed)
    else
      var pre, e := events[..|events| - 1], events[|events| - 1];
      var was := ToldBy(row, attrs, pre, i);
      if IsNews(LastBinding(attrs, pre), row, e) then Told(if e.Notify? then e.data else Cut(e.data), Cut(e.data), true)
      else if e == Write(i) then Told(was.value, [], false)
      else if e == Disconnect then Told(was.value, was.cache, false)
      else was
  }

  function Says(row: Row): Told {
    Told(row.value, row.cache, row.primed)
  }

  lemma {:induction false} BindingOfRun(l: Link, events: seq<Event>)
    ensures Run(l, events).attrs == LastBinding(l.attrs, events)
  {
    if events != [] {
      BindingOfRun(l, events[..|events| - 1]);
    }
  }

  /** Which row a value for the `k`-th attribute goes to. */
  lemma GoesTo(l: Link, rows: seq<Row>, k: nat, i: nat)
    requires Tied(l, rows) && DistinctKeys(rows) && k < |l.attrs| && i < |rows|
    ensures RowOf(l.rows, l.attrs[k].handle) == i <==> IsFirst(l.attrs, k, rows[i].svc, rows[i].chr)
  {
    var h := l.attrs[k].handle;
    forall j | 0 <= j < |rows|
      ensures l.rows[j].handle == h <==> Find(l.attrs, rows[j].svc, rows[j].chr) == Some(l.attrs[k])
    {
      assert SameKey(l.rows[j], rows[j]);
      TiedHandle(l.attrs, l.rows[j], k);
    }
    FirstIsFound(l.attrs, k, rows[i].svc, rows[i].chr);
    if l.rows[i].handle == h {
      forall j | 0 <= j < i ensures l.rows[j].handle != h {
        FoundApart(l.attrs, rows, j, i);
      }
      RowAt(l.rows, h, i);
    }
    hide Find, Tied, IsFirst, DistinctKeys;
  }

  lemma FoundApart(attrs: seq<Attr>, rows: seq<Row>, j: nat, i: nat)
    requires DistinctKeys(rows) && j < i < |rows|
    ensures var a, b := Find(attrs, rows[j].svc, rows[j].chr), Find(attrs, rows[i].svc, rows[i].chr);
            a == b ==> a == None
  {
  }

  lemma FirstIsFound(attrs: seq<Attr>, k: nat, svc: Uuid, chr: Uuid)
    requires UniqueHandles(attrs) && k < |attrs|
    ensures Find(attrs, svc, chr) == Some(attrs[k]) <==> IsFirst(attrs, k, svc, chr)
  {
    if IsFirst(attrs, k, svc, chr) {
      FindAt(attrs, svc, chr, k);
    } else if Find(attrs, svc, chr) == Some(attrs[k]) {
      match FirstPlace(attrs, svc, chr) {
        case None =>
        case Some(j) => FindAt(attrs, svc, chr, j);
      }
    }
    hide Find;
  }

  lemma SaysStep(l: Link, rows: seq<Row>, e: Event, i: nat)
    requires Tied(l, rows) && DistinctKeys(rows) && i < |rows|
    ensures |Act(l, e).rows| == |rows|
    ensures Says(Act(l, e).rows[i]) ==
            var was := Says(l.rows[i]);
            if IsNews(l.attrs, rows[i], e) then Told(if e.Notify? then e.data else Cut(e.data), Cut(e.data), true)
            else if e == Write(i) then Told(was.value, [], false)
            else if e == Disconnect then Told(was.value, was.cache, false)
            else was
  {
    if (e.Notify? || e.Prime?) && e.k < |l.attrs| {
      GoesTo(l, rows, e.k, i);
      ReceivedSays(l.rows, l.attrs[e.k].handle, e.data, e.Notify?, i);
    }
    hide Find, IsFirst, UniqueHandles, RowTied, DistinctKeys, RowOf, Received;
  }

  lemma ReceivedSays(rows: seq<Row>, handle: nat, data: seq<byte>, whole: bool, i: nat)
    requires i < |rows|
    ensures var now := Received(rows, handle, data, whole);
            && |now| == |rows|
            && Says(now[i]) ==
               if RowOf(rows, handle) == i then Told(if whole then data else Cut(data), Cut(data), true) else Says(rows[i])
  {
    hide RowOf;
  }

  /** In every such run, with distinct pairs of UUIDs, a characteristic says what the attribute with its UUIDs
      told last, by notification or when read ahead, and what is cached is what came since the last write and
      disconnection: never another attribute's. */
  lemma {:induction false} SaysWhatItsAttributeTold(l: Link, events: seq<Event>, i: nat)
    requires Tied(l, l.rows) && l.sent == [] && Complete(l.rows, events) && DistinctKeys(l.rows) && i < |l.rows|
    ensures |Run(l, events).rows| == |l.rows|
    ensures Says(Run(l, events).rows[i]) == ToldBy(l.rows[i], l.attrs, events, i)
    decreases |events|
  {
    if events != [] {
      var n := |events| - 1;
      SaysWhatItsAttributeTold(l, events[..n], i);
      NotificationsGoHome(l, events[..n], 0);
      BindingOfRun(l, events[..n]);
      hide Tied, DistinctKeys, IsNews, Act, Complete;
      SaysStep(Run(l, events[..n]), l.rows, events[n], i);
    }
  }
}
