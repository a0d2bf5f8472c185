/** BTHome v2 service data: a run of (object id, payload) records without separators,
    decoded into one reading per sender. */
module BtHome {
  import opened Prelude
  import opened LruTable

  const CACHE_SIZE: nat := 32

  const UNKNOWN := -1
  const VARIABLE := -2

  const OBJ_MAX := 96

  /** Payload bytes by object id, sixteen ids a row. */
  function SizeRow(n: nat): (r: seq<int>)
    requires n < 6
    ensures |r| == 16
  {
    match n
    case 0 => [1, 1, 2, 2, 3, 3, 2, 2, 2, 1, 3, 3, 2, 2, 2, 1]
    case 1 => [1, 1, 2, 2, 2, 1, 1, 1, 1, 1, 1, 1, 1, 1, 1, 1]
    case 2 => [1, 1, 1, 1, 1, 1, 1, 1, 1, 1, 1, 1, 1, 1, 1, 1]
    case 3 => [1, 1, 1, 1, 1, 1, 1, 1, 1, 1, 1, UNKNOWN, 2, 2, 4, 2]
    case 4 => [2, 2, 3, 2, 2, 2, 1, 2, 2, 2, 2, 3, 4, 4, 4, 4]
    case 5 => [4, 2, 2, VARIABLE, VARIABLE, 4, 2, 1, 1, 1, 2, 1, 1, UNKNOWN, UNKNOWN, UNKNOWN]
  }

  function Size(id: byte): int {
    if id < OBJ_MAX then SizeRow(id / 16)[id % 16] else UNKNOWN
  }

  datatype Obj = Obj(id: byte, payload: seq<byte>)

  /** An object a sender may put on the air. */
  predicate WellFormed(o: Obj) {
    if Size(o.id) == VARIABLE then |o.payload| < 256
    else Size(o.id) >= 0 && |o.payload| == Size(o.id)
  }

  function Wire(o: Obj): (s: seq<byte>)
    requires WellFormed(o)
    ensures |s| > 0
  {
    if Size(o.id) == VARIABLE then [o.id, |o.payload|] + o.payload else [o.id] + o.payload
  }

  predicate AllWellFormed(objs: seq<Obj>) {
    forall k :: 0 <= k < |objs| ==> WellFormed(objs[k])
  }

  function Wires(objs: seq<Obj>): seq<byte>
    requires AllWellFormed(objs)
  {
    if objs == [] then [] else Wire(objs[0]) + Wires(objs[1..])
  }

  /** The first object in the bytes, none when it is unknown or cut off. */
  function Head(s: seq<byte>): Option<Obj> {
    if s == [] || Size(s[0]) == UNKNOWN then None
    else if Size(s[0]) == VARIABLE then
      if |s| < 2 || 2 + s[1] > |s| then None else Some(Obj(s[0], s[2..2 + s[1]]))
    else if Size(s[0]) < 0 || 1 + Size(s[0]) > |s| then None
    else Some(Obj(s[0], s[1..1 + Size(s[0])]))
  }

  /** The objects before the first one that is unknown or cut off. */
  function Objects(s: seq<byte>): seq<Obj>
    decreases |s|
  {
    match Head(s)
    case None => []
    case Some(o) =>
      HeadIsWire(s);
      [o] + Objects(s[|Wire(o)|..])
  }

  lemma HeadIsWire(s: seq<byte>)
    requires Head(s).Some?
    ensures WellFormed(Head(s).value) && |Wire(Head(s).value)| <= |s|
    ensures s[..|Wire(Head(s).value)|] == Wire(Head(s).value)
  {
    hide Size;
    var o := Head(s).value;
    if Size(s[0]) == VARIABLE {
      Front(s, [o.id, |o.payload|], o.payload);
    } else {
      Front(s, [o.id], o.payload);
    }
  }

  lemma Front(s: seq<byte>, head: seq<byte>, payload: seq<byte>)
    requires |head| + |payload| <= |s|
    requires s[..|head|] == head && s[|head|..|head| + |payload|] == payload
    ensures s[..|head| + |payload|] == head + payload
  {
  }

  lemma WireIsHead(o: Obj, rest: seq<byte>)
    requires WellFormed(o)
    ensures Head(Wire(o) + rest) == Some(o)
  {
    hide Size;
    var s := Wire(o) + rest;
    if Size(o.id) == VARIABLE {
      assert s[2..2 + |o.payload|] == o.payload;
    } else {
      assert s[1..1 + |o.payload|] == o.payload;
    }
  }

  predicate Starts(s: seq<byte>, objs: seq<Obj>) {
    AllWellFormed(objs) && |Wires(objs)| <= |s| && s[..|Wires(objs)|] == Wires(objs)
  }

  /** The bytes are those of the objects, and no further object can be read behind them. */
  predicate IsParse(s: seq<byte>, objs: seq<Obj>) {
    Starts(s, objs) && Head(s[|Wires(objs)|..]) == None
  }

  /** The objects read are exactly the longest readable run: the only list whose bytes the
      input starts with and behind which nothing can be read. */
  lemma {:induction false} ObjectsAreTheLongestPrefix(s: seq<byte>, objs: seq<Obj>)
    ensures Objects(s) == objs <==> IsParse(s, objs)
    decreases |s|
  {
    ParseStep(s, objs);
    if Head(s).Some? {
      HeadIsWire(s);
      var o, n := Head(s).value, |Wire(Head(s).value)|;
      assert Objects(s) == [o] + Objects(s[n..]);
      if objs != [] {
        assert objs == [objs[0]] + objs[1..];
        ObjectsAreTheLongestPrefix(s[n..], objs[1..]);
      }
    }
    hide Head, Wire, IsParse;
  }

  lemma ParseStep(s: seq<byte>, objs: seq<Obj>)
    ensures Head(s) == None ==> (IsParse(s, objs) <==> objs == [])
    ensures Head(s).Some? ==>
              var o := Head(s).value;
              && WellFormed(o) && |Wire(o)| <= |s|
              && (IsParse(s, objs) <==> objs != [] && objs[0] == o && IsParse(s[|Wire(o)|..], objs[1..]))
  {
    if Head(s).Some? {
      HeadIsWire(s);
    }
    if objs == [] {
      assert s[0..] == s;
      hide Head;
    } else if Starts(s, objs) {
      StartsFirst(s, objs);
      var n := |Wire(objs[0])|;
      WireIsHead(objs[0], s[n..]);
      Shift(s, n, objs);
      hide Head, Wire, Wires, AllWellFormed, Starts;
    } else if Head(s) == Some(objs[0]) {
      Shift(s, |Wire(objs[0])|, objs);
      hide Head, Wire, Wires, AllWellFormed, Starts;
    }
  }

  lemma StartsFirst(s: seq<byte>, objs: seq<Obj>)
    requires objs != [] && Starts(s, objs)
    ensures WellFormed(objs[0]) && |Wire(objs[0])| <= |s| && s == Wire(objs[0]) + s[|Wire(objs[0])|..]
  {
    hide WellFormed, Wire;
    var first := Wire(objs[0]);
    assert Wires(objs)[..|first|] == first;
    assert s[..|Wires(objs)|][..|first|] == s[..|first|];
  }

  /** Reading on behind the first object of a list. */
  lemma Shift(s: seq<byte>, n: nat, objs: seq<Obj>)
    requires objs != [] && WellFormed(objs[0]) && n == |Wire(objs[0])| <= |s| && s[..n] == Wire(objs[0])
    ensures Starts(s, objs) <==> Starts(s[n..], objs[1..])
    ensures Starts(s, objs) ==> s[|Wires(objs)|..] == s[n..][|Wires(objs[1..])|..]
  {
    assert AllWellFormed(objs) <==> AllWellFormed(objs[1..]) by {
      assert forall k :: 1 <= k < |objs| ==> objs[k] == objs[1..][k - 1];
    }
    if AllWellFormed(objs) {
      var first, v := Wire(objs[0]), Wires(objs[1..]);
      assert Wires(objs) == first + v;
      hide WellFormed, Wire, Wires;
      if n + |v| <= |s| {
        CutBehind(s, first, v);
      }
    }
  }

  lemma CutBehind(s: seq<byte>, a: seq<byte>, b: seq<byte>)
    requires |a| + |b| <= |s| && s[..|a|] == a
    ensures s[..|a + b|] == a + b <==> s[|a|..][..|b|] == b
    ensures s[|a + b|..] == s[|a|..][|b|..]
  {
    assert s[..|a| + |b|] == s[..|a|] + s[|a|..][..|b|];
    assert (a + b)[|a|..] == b;
  }

  // -------------------------------------------------------------- the reading

  datatype Reading = Reading(encrypted: bool, packetId: Option<byte>, battery: Option<byte>,
                             temperature: Option<int>, humidity: Option<nat>, illuminance: Option<nat>,
                             power: Option<nat>, voltage: Option<nat>, co2: Option<nat>,
                             motion: Option<byte>, button: Option<byte>)

  const Blank := Reading(false, None, None, None, None, None, None, None, None, None, None)

  function U16(p: seq<byte>): nat
    requires |p| >= 2
  {
    p[0] as int + p[1] as int * 0x100
  }

  function U24(p: seq<byte>): nat
    requires |p| >= 3
  {
    p[0] as int + p[1] as int * 0x100 + p[2] as int * 0x1_0000
  }

  /** The cast to a signed 16-bit integer. */
  function ToS16(n: int): (r: int)
    ensures -0x8000 <= r < 0x8000 && (r - n) % 0x1_0000 == 0
  {
    (n + 0x8000) % 0x1_0000 - 0x8000
  }

  /** The payload sizes of the objects that are stored. */
  lemma StoredSizes()
    ensures Size(0x00) == 1 && Size(0x01) == 1 && Size(0x02) == 2 && Size(0x03) == 2 && Size(0x05) == 3
    ensures Size(0x0B) == 3 && Size(0x0C) == 2 && Size(0x12) == 2 && Size(0x21) == 1 && Size(0x2E) == 1
    ensures Size(0x3A) == 1 && Size(0x45) == 2
  {
  }

  /** What one object does to the reading. */
  function Update(r: Reading, o: Obj): Reading
    requires WellFormed(o)
  {
    StoredSizes();
    var p := o.payload;
    match o.id
    case 0x00 => r.(packetId := Some(p[0]))
    case 0x01 => r.(battery := Some(p[0]))
    case 0x02 => r.(temperature := Some(ToS16(U16(p))))
    case 0x03 => r.(humidity := Some(U16(p)))
    case 0x05 => r.(illuminance := Some(U24(p)))
    case 0x0B => r.(power := Some(U24(p)))
    case 0x0C => r.(voltage := Some(U16(p)))
    case 0x12 => r.(co2 := Some(U16(p)))
    case 0x21 => r.(motion := Some(p[0]))
    case 0x2E => r.(humidity := Some(p[0] as int * 100))
    case 0x3A => r.(button := Some(p[0]))
    case 0x45 => r.(temperature := Some(ToS16(ToS16(U16(p)) * 10)))
    case _ => r
  }

  function Fold(r: Reading, objs: seq<Obj>): Reading
    requires AllWellFormed(objs)
    decreases |objs|
  {
    if objs == [] then r else Fold(Update(r, objs[0]), objs[1..])
  }

  /** The last object of any of the kinds. */
  function LastOf(objs: seq<Obj>, kinds: set<int>): (o: Option<Obj>)
    requires AllWellFormed(objs)
    ensures o.Some? ==> WellFormed(o.value) && o.value.id in kinds
  {
    if objs == [] then None
    else if objs[|objs| - 1].id in kinds then Some(objs[|objs| - 1])
    else LastOf(objs[..|objs| - 1], kinds)
  }

  function Octet(o: Option<Obj>): Option<byte>
    requires o.Some? ==> |o.value.payload| >= 1
  {
    if o.Some? then Some(o.value.payload[0]) else None
  }

  function Word(o: Option<Obj>): Option<nat>
    requires o.Some? ==> |o.value.payload| >= 2
  {
    if o.Some? then Some(U16(o.value.payload)) else None
  }

  function Wide(o: Option<Obj>): Option<nat>
    requires o.Some? ==> |o.value.payload| >= 3
  {
    if o.Some? then Some(U24(o.value.payload)) else None
  }

  /** Hundredths of a degree, from an object in hundredths or in tenths. */
  function Celsius(o: Option<Obj>): Option<int>
    requires o.Some? ==> |o.value.payload| >= 2
  {
    if o.None? then None
    else if o.value.id == 0x02 then Some(ToS16(U16(o.value.payload)))
    else Some(ToS16(ToS16(U16(o.value.payload)) * 10))
  }

  /** Hundredths of a percent, from an object in hundredths or in whole percent. */
  function Percent(o: Option<Obj>): Option<nat>
    requires o.Some? ==> |o.value.payload| >= if o.value.id == 0x03 then 2 else 1
  {
    if o.None? then None
    else if o.value.id == 0x03 then Some(U16(o.value.payload))
    else Some(o.value.payload[0] as int * 100)
  }

  /** The reading field by field: each from the last object that carries it. */
  function LastWins(objs: seq<Obj>): Reading
    requires AllWellFormed(objs)
  {
    StoredSizes();
    Reading(false, Octet(LastOf(objs, {0x00})), Octet(LastOf(objs, {0x01})), Celsius(LastOf(objs, {0x02, 0x45})),
            Percent(LastOf(objs, {0x03, 0x2E})), Wide(LastOf(objs, {0x05})), Wide(LastOf(objs, {0x0B})),
            Word(LastOf(objs, {0x0C})), Word(LastOf(objs, {0x12})), Octet(LastOf(objs, {0x21})),
            Octet(LastOf(objs, {0x3A})))
  }

  lemma {:induction false} FoldSnoc(r: Reading, objs: seq<Obj>)
    requires objs != [] && AllWellFormed(objs)
    ensures Fold(r, objs) == Update(Fold(r, objs[..|objs| - 1]), objs[|objs| - 1])
    decreases |objs|
  {
    var n := |objs| - 1;
    if n > 0 {
      FoldSnoc(Update(r, objs[0]), objs[1..]);
      assert objs[..n][1..] == objs[1..][..n - 1] && objs[..n][0] == objs[0];
      hide Update, WellFormed;
    }
  }

  /** Folding the updates in order leaves in every field what its last carrier says. */
  lemma {:induction false} FoldIsLastWins(objs: seq<Obj>)
    requires AllWellFormed(objs)
    ensures Fold(Blank, objs) == LastWins(objs)
    decreases |objs|
  {
    if objs != [] {
      FoldSnoc(Blank, objs);
      FoldIsLastWins(objs[..|objs| - 1]);
      hide Fold, Size, ToS16, U16, U24;
      UpdateIsLast(objs);
    }
  }

  lemma UpdateIsLast(objs: seq<Obj>)
    requires objs != [] && AllWellFormed(objs)
    ensures AllWellFormed(objs[..|objs| - 1])
    ensures Update(LastWins(objs[..|objs| - 1]), objs[|objs| - 1]) == LastWins(objs)
  {
    hide Size, ToS16, U16, U24, LastOf;
    StoredSizes();
    LastStep(objs, {0x00});
    LastStep(objs, {0x01});
    LastStep(objs, {0x02, 0x45});
    LastStep(objs, {0x03, 0x2E});
    LastStep(objs, {0x05});
    LastStep(objs, {0x0B});
    LastStep(objs, {0x0C});
    LastStep(objs, {0x12});
    LastStep(objs, {0x21});
    LastStep(objs, {0x3A});
    hide WellFormed;
  }

  lemma LastStep(objs: seq<Obj>, kinds: set<int>)
    requires objs != [] && AllWellFormed(objs)
    ensures AllWellFormed(objs[..|objs| - 1])
    ensures var n := |objs| - 1;
            LastOf(objs, kinds) == if objs[n].id as int in kinds then Some(objs[n]) else LastOf(objs[..n], kinds)
  {
    hide WellFormed;
  }

  /** A temperature in tenths is right exactly while ten times the raw value fits 16 bits. */
  lemma TenthsOverflow(p: seq<byte>)
    requires |p| == 2
    ensures (ToS16(ToS16(U16(p)) * 10) == ToS16(U16(p)) * 10) <==> -3276 <= ToS16(U16(p)) <= 3276
  {
    hide U16;
    var raw := ToS16(U16(p));
    hide ToS16;
    if -3276 <= raw <= 3276 {
      assert -0x8000 <= raw * 10 < 0x8000;
    }
  }

  // ------------------------------------------------------------------ ingest

  predicate IsV2(data: seq<byte>) {
    |data| >= 1 && data[0] / 32 % 8 == 2
  }

  /** Version 2 by its info byte. */
  lemma VersionTwo(data: seq<byte>)
    ensures IsV2(data) <==> |data| >= 1 && 0x40 <= data[0] < 0x60
  {
  }

  /** What one frame says, whatever its bytes. */
  function DecodeFrame(data: seq<byte>): Reading
    requires IsV2(data)
  {
    if data[0] % 2 == 1 then Blank.(encrypted := true)
    else
      AllObjectsWellFormed(data[1..]);
      Fold(Blank, Objects(data[1..]))
  }

  lemma {:induction false} AllObjectsWellFormed(s: seq<byte>)
    ensures AllWellFormed(Objects(s))
  {
    ObjectsAreTheLongestPrefix(s, Objects(s));
  }

  lemma DecodeBody(info: byte, body: seq<byte>)
    requires IsV2([info] + body) && info % 2 == 0
    ensures AllWellFormed(Objects(body))
    ensures DecodeFrame([info] + body) == Fold(Blank, Objects(body))
  {
    AllObjectsWellFormed(body);
    assert ([info] + body)[1..] == body;
    hide Objects, Fold;
  }

  /** Every list of well-formed objects, framed with any info byte of version 2, is read back: each
      field from its last carrier, whatever undecodable bytes follow; encrypted, nothing is. */
  lemma FrameRoundTrip(info: byte, objs: seq<Obj>, tail: seq<byte>)
    requires info / 32 == 2 && AllWellFormed(objs) && Head(tail) == None
    ensures DecodeFrame([info] + (Wires(objs) + tail)) ==
            if info % 2 == 1 then Blank.(encrypted := true) else LastWins(objs)
  {
    hide Wires, Fold, Head, Objects, LastWins, DecodeFrame;
    var w := Wires(objs);
    var body := w + tail;
    InfoOf(info, body);
    if info % 2 == 0 {
      assert body[..|w|] == w && body[|w|..] == tail;
      DecodeBody(info, body);
      ObjectsAreTheLongestPrefix(body, objs);
      FoldIsLastWins(objs);
    }
  }

  lemma InfoOf(info: byte, body: seq<byte>)
    requires info / 32 == 2
    ensures IsV2([info] + body)
    ensures info % 2 == 1 ==> DecodeFrame([info] + body) == Blank.(encrypted := true)
  {
    assert ([info] + body)[0] == info;
    hide Objects, Fold;
  }

  lemma SizeSign(id: byte)
    ensures Size(id) == UNKNOWN || Size(id) == VARIABLE || 1 <= Size(id) <= 4
  {
    if id < OBJ_MAX {
      RowSigns(id / 16, id % 16);
    }
  }

  lemma RowSigns(n: nat, k: nat)
    requires n < 6 && k < 16
    ensures SizeRow(n)[k] == UNKNOWN || SizeRow(n)[k] == VARIABLE || 1 <= SizeRow(n)[k] <= 4
  {
  }

  /** Reads the object at `p`, if there is a whole one of a known kind. */
  method NextObject(data: seq<byte>, p: nat) returns (found: bool, o: Obj, next: nat)
    requires p < |data|
    ensures found <==> Head(data[p..]).Some?
    ensures found ==> Head(data[p..]) == Some(o) && next <= |data| && WellFormed(o) && next == p + |Wire(o)|
  {
    hide SizeRow;
    ghost var s := data[p..];
    var id := data[p];
    found, o, next := false, Obj(id, []), p + 1;
    if id >= OBJ_MAX {
      return;
    }
    var size := Size(id);
    SizeSign(id);
    hide Size;
    if size == UNKNOWN {
      return;
    }
    var length := size;
    if size == VARIABLE {
      if next >= |data| {
        return;
      }
      length := data[next];
      assert s[1] == data[next];
      next := next + 1;
    }
    if next + length > |data| {
      return;
    }
    assert data[next..next + length] == s[next - p..next - p + length];
    found, o, next := true, Obj(id, data[next..next + length]), next + length;
  }

  method Walk(data: seq<byte>) returns (r: Reading)
    requires |data| >= 1
    ensures AllWellFormed(Objects(data[1..])) && r == Fold(Blank, Objects(data[1..]))
  {
    hide Update, Head, Fold, WellFormed, Wire, Objects;
    AllObjectsWellFormed(data[1..]);
    r := Blank;
    var p := 1;
    while p < |data|
      invariant 1 <= p <= |data|
      invariant AllWellFormed(Objects(data[p..]))
      invariant Fold(r, Objects(data[p..])) == Fold(Blank, Objects(data[1..]))
    {
      FoldHead(r, data[p..]);
      var found, o, next := NextObject(data, p);
      if !found {
        return;
      }
      assert data[p..][|Wire(o)|..] == data[next..];
      r := Update(r, o);
      p := next;
    }
    NothingLeft(data[p..]);
    FoldHead(r, data[p..]);
  }

  lemma NothingLeft(s: seq<byte>)
    requires s == []
    ensures Head(s) == None
  {
  }

  lemma FoldHead(r: Reading, s: seq<byte>)
    requires AllWellFormed(Objects(s))
    ensures Head(s) == None ==> Fold(r, Objects(s)) == r
    ensures Head(s).Some? ==>
              var o := Head(s).value;
              && WellFormed(o) && |Wire(o)| <= |s| && AllWellFormed(Objects(s[|Wire(o)|..]))
              && Fold(r, Objects(s)) == Fold(Update(r, o), Objects(s[|Wire(o)|..]))
  {
    if Head(s).Some? {
      HeadIsWire(s);
      hide Head, Update, Size, Wire;
      var o := Head(s).value;
      assert Objects(s) == [o] + Objects(s[|Wire(o)|..]);
      assert Objects(s)[1..] == Objects(s[|Wire(o)|..]);
      AllObjectsWellFormed(s[|Wire(o)|..]);
    }
  }

  class Cache {
    var rows: array<Entry<Reading>>
    var count: nat

    predicate Valid()
      reads this
    {
      rows.Length == CACHE_SIZE && count <= CACHE_SIZE
    }

    function Rows(): seq<Entry<Reading>>
      reads this, rows
      requires Valid()
    {
      rows[..count]
    }

    constructor ()
      ensures Valid() && fresh(rows) && Rows() == []
    {
      rows := new Entry<Reading>[CACHE_SIZE](_ => Entry(0, 0, Blank));
      count := 0;
    }

    /** A version 2 frame replaces the sender's row, or takes a place by the rule of the table;
        anything else changes nothing. */
    method Ingest(addr: int, data: seq<byte>, now: nat)
      requires Valid()
      modifies this`count, rows
      ensures Valid()
      ensures Rows() ==
              if IsV2(data) then
                At(old(Rows()), Slot(old(Rows()), 32, addr), Entry(addr, now, DecodeFrame(data)))
              else old(Rows())
    {
      if |data| < 1 {
        return;
      }
      if data[0] / 32 % 8 != 2 {
        return;
      }
      hide Fold, Objects, At;
      var r := Blank.(encrypted := true);
      if data[0] % 2 != 1 {
        r := Walk(data);
      }
      Put(addr, r, now);
    }

    method Put(addr: int, r: Reading, now: nat)
      requires Valid()
      modifies this`count, rows
      ensures Valid()
      ensures Rows() == At(old(Rows()), Slot(old(Rows()), CACHE_SIZE, addr), Entry(addr, now, r))
    {
      ghost var before := Rows();
      var i := SlotFor(rows, count, addr);
      OneSlot(before, CACHE_SIZE, addr, i, Slot(before, CACHE_SIZE, addr));
      hide IsSlot;
      if i == count {
        count := count + 1;
      }
      rows[i] := Entry(addr, now, r);
      assert Rows() == At(before, i, Entry(addr, now, r));
    }
  }

  // ------------------------------------------------------------ numbers on the air

  /** A frame of one object of a fixed size. */
  lemma OneObject(id: byte, payload: seq<byte>)
    requires Size(id) >= 1 && |payload| == Size(id)
    ensures WellFormed(Obj(id, payload))
    ensures DecodeFrame([0x40, id] + payload) == LastWins([Obj(id, payload)])
    ensures LastOf([Obj(id, payload)], {id as int}) == Some(Obj(id, payload))
  {
    var o := Obj(id, payload);
    hide Size, LastWins, DecodeFrame, Head;
    assert Wire(o) == [id] + payload;
    assert [o][1..] == [];
    assert Wires([o]) == Wire(o) + Wires([]);
    assert Wires([]) == [];
    assert Wires([o]) == [id] + payload;
    assert [0x40, id] + payload == [0x40] + (Wires([o]) + []);
    NothingLeft([]);
    FrameRoundTrip(0x40, [o], []);
    assert [o][0] == o;
  }

  /** Two payload bytes are a number, low byte first: hundredths of a percent, millivolts, parts per million. */
  lemma WordsReadBack(v: nat)
    requires v < 0x1_0000
    ensures DecodeFrame([0x40, 0x03, v % 256, v / 256]).humidity == Some(v)
    ensures DecodeFrame([0x40, 0x0C, v % 256, v / 256]).voltage == Some(v)
    ensures DecodeFrame([0x40, 0x12, v % 256, v / 256]).co2 == Some(v)
  {
    var b: seq<byte> := [v % 256, v / 256];
    StoredSizes();
    hide Size, DecodeFrame, LastOf, WellFormed;
    WordFrame(0x03, b);
    WordFrame(0x0C, b);
    WordFrame(0x12, b);
    LastKind(0x03, b, {0x03, 0x2E});
    assert U16(b) == v;
  }

  /** A temperature in hundredths is the signed number its two bytes are. */
  lemma TemperatureReadsBack(t: int)
    requires -0x8000 <= t < 0x8000
    ensures DecodeFrame([0x40, 0x02, t % 0x1_0000 % 256, t % 0x1_0000 / 256]).temperature == Some(t)
  {
    var u := t % 0x1_0000;
    var b: seq<byte> := [u % 256, u / 256];
    StoredSizes();
    hide Size, DecodeFrame, LastOf, WellFormed;
    WordFrame(0x02, b);
    LastKind(0x02, b, {0x02, 0x45});
    assert U16(b) == u;
    Signed(t);
  }

  /** A temperature in tenths is told in hundredths, as far as these fit. */
  lemma TenthsReadBack(t: int)
    requires -3276 <= t <= 3276
    ensures DecodeFrame([0x40, 0x45, t % 0x1_0000 % 256, t % 0x1_0000 / 256]).temperature == Some(t * 10)
  {
    var u := t % 0x1_0000;
    var b: seq<byte> := [u % 256, u / 256];
    StoredSizes();
    hide Size, DecodeFrame, LastOf, WellFormed;
    WordFrame(0x45, b);
    LastKind(0x45, b, {0x02, 0x45});
    assert U16(b) == u;
    Signed(t);
    Signed(t * 10);
    hide U16;
    assert ToS16(ToS16(u) * 10) == t * 10 by {
      Fits16(t * 10);
    }
  }

  lemma Signed(t: int)
    requires -0x8000 <= t < 0x8000
    ensures ToS16(t % 0x1_0000) == t
  {
  }

  lemma Fits16(n: int)
    requires -0x8000 <= n < 0x8000
    ensures ToS16(n) == n
  {
  }

  /** Three payload bytes are a number, low byte first: hundredths of a lux, hundredths of a watt. */
  lemma WideReadBack(v: nat)
    requires v < 0x100_0000
    ensures DecodeFrame([0x40, 0x05, v % 256, v / 256 % 256, v / 0x1_0000]).illuminance == Some(v)
    ensures DecodeFrame([0x40, 0x0B, v % 256, v / 256 % 256, v / 0x1_0000]).power == Some(v)
  {
    ThreeBytes(v);
    var b0: byte, b1: byte, b2: byte := v % 256, v / 256 % 256, v / 0x1_0000;
    StoredSizes();
    hide Size, DecodeFrame, LastOf, WellFormed;
    WideFrame(0x05, [b0, b1, b2]);
    WideFrame(0x0B, [b0, b1, b2]);
    assert U24([b0, b1, b2]) == v;
  }

  lemma ThreeBytes(v: nat)
    requires v < 0x100_0000
    ensures v / 0x1_0000 < 256 && v == v % 256 + v / 256 % 256 * 0x100 + v / 0x1_0000 * 0x1_0000
  {
    var w := v / 256;
    assert v == 256 * w + v % 256 && w == 256 * (w / 256) + w % 256;
  }

  lemma WideFrame(id: byte, b: seq<byte>)
    requires |b| == 3 && Size(id) == 3
    ensures WellFormed(Obj(id, b)) && DecodeFrame([0x40, id, b[0], b[1], b[2]]) == LastWins([Obj(id, b)])
    ensures LastOf([Obj(id, b)], {id as int}) == Some(Obj(id, b))
  {
    hide Size, DecodeFrame, LastWins, WellFormed;
    OneObject(id, b);
    assert [0x40, id] + b == [0x40, id, b[0], b[1], b[2]];
  }

  /** One payload byte is the value itself, or whole percents for a humidity told in hundredths. */
  lemma OctetsReadBack(v: byte)
    ensures DecodeFrame([0x40, 0x00, v]).packetId == Some(v)
    ensures DecodeFrame([0x40, 0x01, v]).battery == Some(v)
    ensures DecodeFrame([0x40, 0x21, v]).motion == Some(v)
    ensures DecodeFrame([0x40, 0x3A, v]).button == Some(v)
    ensures DecodeFrame([0x40, 0x2E, v]).humidity == Some(v as int * 100)
  {
    StoredSizes();
    hide Size, DecodeFrame, LastOf, WellFormed;
    OctetFrame(0x00, v);
    OctetFrame(0x01, v);
    OctetFrame(0x21, v);
    OctetFrame(0x3A, v);
    OctetFrame(0x2E, v);
    LastKind(0x2E, [v], {0x03, 0x2E});
  }

  lemma WordFrame(id: byte, b: seq<byte>)
    requires |b| == 2 && Size(id) == 2
    ensures WellFormed(Obj(id, b)) && DecodeFrame([0x40, id, b[0], b[1]]) == LastWins([Obj(id, b)])
    ensures LastOf([Obj(id, b)], {id as int}) == Some(Obj(id, b))
  {
    hide Size, DecodeFrame, LastWins, WellFormed;
    OneObject(id, b);
    assert [0x40, id] + b == [0x40, id, b[0], b[1]];
  }

  lemma OctetFrame(id: byte, v: byte)
    requires Size(id) == 1
    ensures WellFormed(Obj(id, [v])) && DecodeFrame([0x40, id, v]) == LastWins([Obj(id, [v])])
    ensures LastOf([Obj(id, [v])], {id as int}) == Some(Obj(id, [v]))
  {
    hide Size, DecodeFrame, LastWins, WellFormed;
    OneObject(id, [v]);
    assert [0x40, id] + [v] == [0x40, id, v];
  }

  lemma LastKind(id: byte, payload: seq<byte>, kinds: set<int>)
    requires WellFormed(Obj(id, payload)) && id as int in kinds
    ensures LastOf([Obj(id, payload)], kinds) == Some(Obj(id, payload))
  {
  }

  /** The sizes of version 2, listed by size. */
  lemma SizesListed(id: byte)
    ensures Size(id) == 4 <==> id in {0x3E, 0x4C, 0x4D, 0x4E, 0x4F, 0x50, 0x55}
    ensures Size(id) == 3 <==> id in {0x04, 0x05, 0x0A, 0x0B, 0x42, 0x4B}
    ensures Size(id) == 2 <==> id in {0x02, 0x03, 0x06, 0x07, 0x08, 0x0C, 0x0D, 0x0E, 0x12, 0x13, 0x14, 0x3C, 0x3D, 0x3F,
                                      0x40, 0x41, 0x43, 0x44, 0x45, 0x47, 0x48, 0x49, 0x4A, 0x51, 0x52, 0x56, 0x5A}
    ensures Size(id) == VARIABLE <==> id in {0x53, 0x54}
    ensures Size(id) == UNKNOWN <==> id == 0x3B || id >= 0x5D
  {
    if id < OBJ_MAX {
      var n, k := id / 16, id % 16;
      assert id == 16 * n + k;
      match n {
        case 0 => RowListed(0, k);
        case 1 => RowListed(1, k);
        case 2 => RowListed(2, k);
        case 3 => RowListed(3, k);
        case 4 => RowListed(4, k);
        case 5 => RowListed(5, k);
      }
    }
  }

  /** Where in a row of sixteen the sizes other than one are. */
  lemma RowListed(n: nat, k: nat)
    requires n < 6 && k < 16
    ensures SizeRow(n)[k] == 4 <==> (n == 3 && k == 14) || (n == 4 && k >= 12) || (n == 5 && (k == 0 || k == 5))
    ensures SizeRow(n)[k] == 3 <==> (n == 0 && k in {4, 5, 10, 11}) || (n == 4 && k in {2, 11})
    ensures SizeRow(n)[k] == 2 <==>
              || (n == 0 && k in {2, 3, 6, 7, 8, 12, 13, 14}) || (n == 1 && k in {2, 3, 4})
              || (n == 3 && k in {12, 13, 15}) || (n == 4 && k in {0, 1, 3, 4, 5, 7, 8, 9, 10})
              || (n == 5 && k in {1, 2, 6, 10})
    ensures SizeRow(n)[k] == VARIABLE <==> n == 5 && k in {3, 4}
    ensures SizeRow(n)[k] == UNKNOWN <==> (n == 3 && k == 11) || (n == 5 && k >= 13)
  {
    match n {
      case 0 =>
      case 1 =>
      case 2 =>
      case 3 =>
      case 4 =>
      case 5 =>
    }
  }

  /** A text is skipped by its length byte, and what stands behind it is read. */
  lemma TextIsSkipped(text: seq<byte>, v: byte)
    requires |text| < 256
    ensures DecodeFrame([0x40, 0x53, |text|] + text + [0x01, v]).battery == Some(v)
  {
    SizesListed(0x53);
    StoredSizes();
    var objs := [Obj(0x53, text), Obj(0x01, [v])];
    hide Size, DecodeFrame, Head, Update;
    assert objs[1..] == [Obj(0x01, [v])] && objs[1..][1..] == [];
    assert Wires(objs[1..]) == Wire(objs[1]) + Wires([]) && Wires([]) == [];
    assert Wires(objs) == Wire(objs[0]) + Wires(objs[1..]);
    assert Wires(objs) == [0x53, |text|] + text + [0x01, v];
    assert [0x40, 0x53, |text|] + text + [0x01, v] == [0x40] + (Wires(objs) + []);
    NothingLeft([]);
    FrameRoundTrip(0x40, objs, []);
    assert LastOf(objs, {0x01}) == Some(objs[1]);
  }

  /** An unknown object ends the reading: nothing behind it counts. */
  lemma UnknownEndsIt(v: byte, id: byte, rest: seq<byte>)
    requires id == 0x3B || id >= 0x5D
    ensures DecodeFrame([0x40, 0x01, v, id] + rest).battery == Some(v)
    ensures DecodeFrame([0x40, id] + rest) == Blank
  {
    SizesListed(id);
    StoredSizes();
    hide Size, DecodeFrame, LastWins;
    assert ([id] + rest)[0] == id;
    BehindBattery(v, [id] + rest);
    FrameRoundTrip(0x40, [], [id] + rest);
    assert [0x40, id] + rest == [0x40] + (Wires([]) + ([id] + rest));
    assert [0x40, 0x01, v, id] + rest == [0x40, 0x01, v] + ([id] + rest);
    NoObjects();
  }

  lemma NoObjects()
    ensures Wires([]) == [] && LastWins([]) == Blank
  {
  }

  /** So does one that is cut off. */
  lemma CutOffEndsIt(v: byte, low: byte)
    ensures DecodeFrame([0x40, 0x01, v, 0x02, low]) == Blank.(battery := Some(v))
  {
    StoredSizes();
    hide Size, DecodeFrame;
    BehindBattery(v, [0x02, low]);
    assert [0x40, 0x01, v] + [0x02, low] == [0x40, 0x01, v, 0x02, low];
  }

  lemma BehindBattery(v: byte, tail: seq<byte>)
    requires Head(tail) == None
    ensures WellFormed(Obj(0x01, [v]))
    ensures DecodeFrame([0x40, 0x01, v] + tail) == LastWins([Obj(0x01, [v])]) == Blank.(battery := Some(v))
  {
    StoredSizes();
    var objs := [Obj(0x01, [v])];
    hide Size, DecodeFrame, Head;
    assert objs[1..] == [] && objs[..0] == [];
    assert Wires(objs) == Wire(objs[0]) + Wires([]) && Wires([]) == [];
    assert Wires(objs) == [0x01, v];
    FrameRoundTrip(0x40, objs, tail);
    assert [0x40, 0x01, v] + tail == [0x40] + (Wires(objs) + tail);
    FoldIsLastWins(objs);
    assert Fold(Blank, objs) == Fold(Update(Blank, objs[0]), objs[1..]);
    hide LastWins, Wires, Wire;
  }
}
