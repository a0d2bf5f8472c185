/** The plaintext frame codec: base-128 varints, the frame header, and the frame
    reader over a socket that may return fewer bytes than asked for. */
module FrameCodec {
  import opened Prelude

  const MAX_HEADER_LEN := 6
  const SIZE_BUDGET := 3
  const TYPE_BUDGET := 2
  const WORD := 0x1_0000_0000

  type uint32 = x: int | 0 <= x < 0x1_0000_0000
  type uint16 = x: int | 0 <= x < 0x1_0000

  datatype Error = Ok | Eof | SocketError | BadIndicator | VarintTooLong | MessageTooLarge

  // ---------------------------------------------------------------- varints

  /** Wire form of a number: little-endian groups of seven bits, high bit set on all but the last. */
  function Varint(v: nat): (s: seq<byte>)
    ensures |s| >= 1
  {
    if v < 128 then [v] else [v % 128 + 128] + Varint(v / 128)
  }

  datatype VarintOutcome = Done(value: nat, used: nat) | NeedMore | TooLong

  /** What a reader allowed `budget` bytes makes of `s`. */
  function ParseVarint(s: seq<byte>, budget: nat): VarintOutcome
    decreases budget
  {
    if budget == 0 then TooLong
    else if s == [] then NeedMore
    else if s[0] < 128 then Done(s[0], 1)
    else match ParseVarint(s[1..], budget - 1)
      case Done(v, n) => Done(s[0] - 128 + 128 * v, n + 1)
      case other => other
  }

  lemma {:induction false} VarintLenBound(v: nat, k: nat)
    requires k >= 1
    ensures |Varint(v)| <= k <==> v < Pow2(7 * k)
  {
    Pow2Plus7(7 * (k - 1));
    if v < 128 {
      Pow2Positive7(k);
    } else if k == 1 {
      assert |Varint(v / 128)| >= 1;
      assert Pow2(7) == 128;
    } else {
      VarintLenBound(v / 128, k - 1);
      assert |Varint(v)| == 1 + |Varint(v / 128)|;
      DivLess(v, Pow2(7 * (k - 1)));
    }
  }

  lemma Pow2Plus7(n: nat)
    ensures Pow2(n + 7) == 128 * Pow2(n)
  {
    assert Pow2(n + 7) == 2 * Pow2(n + 6) == 4 * Pow2(n + 5) == 8 * Pow2(n + 4);
    assert Pow2(n + 4) == 2 * Pow2(n + 3) == 4 * Pow2(n + 2) == 8 * Pow2(n + 1) == 16 * Pow2(n);
  }

  lemma Pow2Positive7(k: nat)
    requires k >= 1
    ensures Pow2(7 * k) >= 128
  {
    Pow2Plus7(7 * (k - 1));
  }

  lemma DivLess(v: nat, p: nat)
    ensures v < 128 * p <==> v / 128 < p
  {
  }

  /** Reading back what was written, whatever follows it on the wire, needs exactly
      as much budget as the number has groups. */
  lemma {:induction false} VarintRoundTrip(v: nat, rest: seq<byte>, budget: nat)
    ensures ParseVarint(Varint(v) + rest, budget) ==
            if |Varint(v)| <= budget then Done(v, |Varint(v)|) else TooLong
  {
    var s := Varint(v) + rest;
    if budget == 0 {
    } else if v < 128 {
      assert s[0] == v;
    } else {
      VarintRoundTrip(v / 128, rest, budget - 1);
      assert s[0] == v % 128 + 128;
      assert s[1..] == Varint(v / 128) + rest;
    }
  }

  lemma {:induction false} ParseVarintBounds(s: seq<byte>, budget: nat)
    ensures var o := ParseVarint(s, budget);
            && (o.Done? ==> 1 <= o.used <= |s| && o.used <= budget && o.value < Pow2(7 * o.used))
            && (o.TooLong? ==> budget <= |s|)
            && (o.NeedMore? ==> |s| < budget)
  {
    if budget == 0 || s == [] {
    } else if s[0] < 128 {
      assert Pow2(7) == 128;
    } else {
      ParseVarintBounds(s[1..], budget - 1);
      var o := ParseVarint(s[1..], budget - 1);
      if o.Done? {
        Pow2Plus7(7 * o.used);
      }
    }
  }

  method VarintLen(v: uint32) returns (n: nat)
    ensures n == |Varint(v)|
  {
    n := 1;
    var w := v;
    while w >= 0x80
      invariant w >= 0
      invariant n + |Varint(w)| == |Varint(v)| + 1
    {
      w := w / 128;
      n := n + 1;
    }
  }

  lemma VarintUnfold(done: seq<byte>, v: nat)
    requires v >= 128
    ensures done + Varint(v) == (done + [v % 128 + 128]) + Varint(v / 128)
  {
  }

  /** Writes the varint at `out[at..]` and returns its length. */
  method EncodeVarint(out: array<byte>, at: nat, value: uint32) returns (i: nat)
    requires at + |Varint(value)| <= out.Length
    modifies out
    ensures i == |Varint(value)|
    ensures out[..] == Splice(old(out[..]), at, Varint(value))
  {
    hide Splice;
    i := 0;
    var v := value;
    ghost var written: seq<byte> := [];
    SpliceNone(out[..], at);
    while v >= 0x80
      invariant v >= 0
      invariant |written| == i && at + i + |Varint(v)| <= out.Length
      invariant written + Varint(v) == Varint(value)
      invariant out[..] == Splice(old(out[..]), at, written)
    {
      var b: byte := v % 128 + 128;
      VarintUnfold(written, v);
      SpliceStep(old(out[..]), at, written, b);
      ghost var before := out[..];
      out[at + i] := b;
      assert out[..] == before[at + i := b];
      written := written + [b];
      i := i + 1;
      v := v / 128;
    }
    var b: byte := v;
    SpliceStep(old(out[..]), at, written, b);
    ghost var before := out[..];
    out[at + i] := b;
    assert out[..] == before[at + i := b];
    i := i + 1;
  }

  /** Group number `n` of a varint, shifted into place. */
  function Group(n: nat, c: nat): nat {
    Pow2(7 * n) * c
  }

  /** The loop view of a partly read varint: `acc` is the value of the first `n` bytes. */
  function Resume(acc: nat, n: nat, rest: VarintOutcome): VarintOutcome {
    match rest
    case Done(v, used) => Done(acc + Group(n, v), n + used)
    case other => other
  }

  lemma ResumeStep(s: seq<byte>, budget: nat, acc: nat, n: nat)
    requires budget > 0 && s != []
    ensures s[0] < 128 ==>
              Resume(acc, n, ParseVarint(s, budget)) == Done(acc + Group(n, s[0]), n + 1)
    ensures s[0] >= 128 ==>
              Resume(acc, n, ParseVarint(s, budget)) ==
              Resume(acc + Group(n, s[0] - 128), n + 1, ParseVarint(s[1..], budget - 1))
  {
    if s[0] >= 128 {
      match ParseVarint(s[1..], budget - 1) {
        case Done(v, used) =>
          Pow2Plus7(7 * n);
          var p := Pow2(7 * n);
          assert p * (s[0] - 128 + 128 * v) == p * (s[0] - 128) + 128 * p * v by {
            Distribute(p, s[0] - 128, v);
          }
        case other =>
      }
    }
  }

  lemma Distribute(p: nat, a: int, v: nat)
    ensures p * (a + 128 * v) == p * a + 128 * p * v
  {
  }

  lemma MulMono(p: nat, a: nat, b: nat)
    requires a <= b
    ensures p * a <= p * b
  {
  }

  lemma SmallPowers()
    ensures Pow2(0) == 1 && Pow2(7) == 128 && Pow2(14) == 16384
    ensures Pow2(21) == 2097152 && Pow2(28) == 0x1000_0000
  {
    Pow2Plus7(0);
    Pow2Plus7(7);
    Pow2Plus7(14);
    Pow2Plus7(21);
  }

  /** `(b & 0x7f) << (7 * n)` on a 32-bit word, then or-ed into `acc` (whose low
      `7 * n` bits are the only ones set, so the or is a sum). */
  function Accumulate(acc: nat, n: nat, b: byte): nat {
    acc + Group(n, b % 128) % WORD
  }

  lemma AccumulateBound(acc: nat, n: nat, b: byte)
    requires n <= 4 && acc < Pow2(7 * n)
    ensures Accumulate(acc, n, b) == (acc + Group(n, b % 128)) % WORD
    ensures n <= 3 ==> Accumulate(acc, n, b) == acc + Group(n, b % 128) < Pow2(7 * (n + 1))
  {
    SmallPowers();
    Pow2Plus7(7 * n);
    assert 7 * (n + 1) == 7 * n + 7;
    hide Pow2;
    var p := Pow2(7 * n);
    assert n == 0 || n == 1 || n == 2 || n == 3 || n == 4;
    assert n <= 3 ==> p <= 0x20_0000;
    WrapAt(p, b % 128, acc);
  }

  lemma WrapAt(p: nat, c: nat, acc: nat)
    requires acc < p && c < 128
    requires p <= 0x20_0000 || p == 0x1000_0000
    ensures acc + (p * c) % WORD == (acc + p * c) % WORD
    ensures p <= 0x20_0000 ==> acc + (p * c) % WORD == acc + p * c < 128 * p
  {
    if p == 0x1000_0000 {
      assert (0x1000_0000 * c) % WORD == 0x1000_0000 * (c % 16);
    } else {
      MulMono(p, c, 127);
    }
  }

  datatype VarintParse = VarintParse(value: uint32, consumed: nat)

  /** The decoding loop before byte `i`: `acc` holds the groups before it. */
  ghost predicate Decoding(s: seq<byte>, budget: nat, acc: nat, i: nat) {
    && i <= |s| && i <= budget && i <= 4
    && acc < Pow2(7 * i)
    && ParseVarint(s, budget) == Resume(acc, i, ParseVarint(s[i..], budget - i))
  }

  lemma DecodeLast(s: seq<byte>, budget: nat, acc: nat, i: nat)
    requires Decoding(s, budget, acc, i) && i < |s| && i < budget && s[i] < 128
    ensures ParseVarint(s, budget) == Done(acc + Group(i, s[i]), i + 1)
    ensures Accumulate(acc, i, s[i]) == (acc + Group(i, s[i])) % WORD
  {
    hide Pow2, Group, ParseVarint, Accumulate;
    ResumeStep(s[i..], budget - i, acc, i);
    AccumulateBound(acc, i, s[i]);
    assert s[i..][0] == s[i] == s[i] % 128;
  }

  lemma DecodeMore(s: seq<byte>, budget: nat, acc: nat, i: nat)
    requires Decoding(s, budget, acc, i) && i < |s| && i < budget && s[i] >= 128
    ensures i < 4 ==> Decoding(s, budget, Accumulate(acc, i, s[i]), i + 1)
    ensures i + 1 == budget ==> ParseVarint(s, budget) == TooLong
  {
    hide Pow2, Group, Accumulate;
    assert ParseVarint(s[i + 1..], 0) == TooLong;
    hide ParseVarint;
    ResumeStep(s[i..], budget - i, acc, i);
    AccumulateBound(acc, i, s[i]);
    assert s[i..][0] == s[i] && s[i] % 128 == s[i] - 128;
    assert s[i..][1..] == s[i + 1..];
  }

  /** The buffer decoder: a five-byte varint keeps its low 32 bits, and no varint is longer. */
  method DecodeVarint(s: seq<byte>, maxBytes: nat) returns (r: VarintParse)
    ensures match ParseVarint(s, Min(maxBytes, 5))
            case Done(v, used) => r == VarintParse(v % WORD, used)
            case _ => r == VarintParse(0, 0)
  {
    ghost var budget: nat := Min(maxBytes, 5);
    var v: nat := 0;
    var shift := 0;
    var cap := if |s| < maxBytes then |s| else maxBytes;
    var i := 0;
    while i < cap
      invariant 0 <= i <= cap && shift == 7 * i
      invariant Decoding(s, budget, v, i)
    {
      if s[i] < 0x80 {
        DecodeLast(s, budget, v, i);
        return VarintParse(Accumulate(v, i, s[i]), i + 1);
      }
      DecodeMore(s, budget, v, i);
      v := Accumulate(v, i, s[i]);
      shift := shift + 7;
      if shift >= 32 {
        return VarintParse(0, 0);
      }
      i := i + 1;
    }
    return VarintParse(0, 0);
  }

  // ------------------------------------------------------- reading a frame

  /** The receiving side of a socket: the peer delivers exactly `stream` and then
      closes (`clean`) or fails. Each call hands over an arbitrary non-empty part
      of what is left, at most what was asked for. */
  class Inbound {
    const stream: seq<byte>
    const clean: bool
    var pos: nat

    constructor (stream: seq<byte>, clean: bool)
      ensures this.stream == stream && this.clean == clean && pos == 0
    {
      this.stream := stream;
      this.clean := clean;
      pos := 0;
    }

    ghost predicate Valid()
      reads this
    {
      pos <= |stream|
    }

    ghost function Left(): seq<byte>
      reads this
      requires Valid()
    {
      stream[pos..]
    }

    /** Bytes received, 0 at a clean close, negative on an error. */
    method Recv(buf: array<byte>, at: nat, n: nat) returns (r: int)
      requires Valid() && n > 0 && at + n <= buf.Length
      modifies this`pos, buf
      ensures Valid()
      ensures old(Left()) == [] ==> pos == old(pos) && buf[..] == old(buf[..]) && r == (if clean then 0 else -1)
      ensures old(Left()) != [] ==>
                && 1 <= r <= n && r <= |old(Left())| && pos == old(pos) + r
                && buf[..] == Splice(old(buf[..]), at, old(Left())[..r])
    {
      if pos == |stream| {
        return if clean then 0 else -1;
      }
      var k: nat :| 1 <= k <= n && k <= |stream| - pos;
      var i := 0;
      ghost var part: seq<byte> := [];
      assert buf[..] == Splice(old(buf[..]), at, part);
      while i < k
        invariant 0 <= i <= k && pos == old(pos)
        invariant part == stream[pos..][..i]
        invariant buf[..] == Splice(old(buf[..]), at, part)
      {
        SpliceStep(old(buf[..]), at, part, stream[pos + i]);
        buf[at + i] := stream[pos + i];
        part := part + [stream[pos + i]];
        i := i + 1;
      }
      pos := pos + k;
      return k;
    }
  }

  /** How a stream that ran dry is reported. */
  function Ending(clean: bool): Error {
    if clean then Eof else SocketError
  }

  /** Short reads are retried until `n` bytes are in, or the stream ends. */
  method ReadExact(sock: Inbound, buf: array<byte>, at: nat, n: nat) returns (e: Error)
    requires sock.Valid() && at + n <= buf.Length
    modifies sock`pos, buf
    ensures var m: nat := Min(n, |old(sock.Left())|);
            && sock.Valid() && sock.pos == old(sock.pos) + m
            && buf[..] == Splice(old(buf[..]), at, old(sock.Left())[..m])
            && e == (if m == n then Ok else Ending(sock.clean))
    ensures e == Ok <==> |old(sock.Left())| >= n
    ensures e == Eof <==> |old(sock.Left())| < n && sock.clean
    ensures e == SocketError <==> |old(sock.Left())| < n && !sock.clean
  {
    var got := 0;
    ghost var left := sock.Left();
    assert buf[..] == Splice(old(buf[..]), at, left[..got]);
    while got < n
      invariant 0 <= got <= n && got <= |left|
      invariant sock.Valid() && sock.pos == old(sock.pos) + got
      invariant buf[..] == Splice(old(buf[..]), at, left[..got])
    {
      assert sock.Left() == left[got..];
      var r := sock.Recv(buf, at + got, n - got);
      if r == 0 {
        return Eof;
      }
      if r < 0 {
        return SocketError;
      }
      SpliceTwice(old(buf[..]), at, left, got, r);
      got := got + r;
    }
    e := Ok;
  }

  lemma SpliceTwice<T>(buf: seq<T>, at: nat, s: seq<T>, a: nat, b: nat)
    requires a + b <= |s| && at + a + b <= |buf|
    ensures Splice(Splice(buf, at, s[..a]), at + a, s[a..][..b]) == Splice(buf, at, s[..a + b])
  {
    assert s[..a] + s[a..][..b] == s[..a + b];
  }

  /** One byte, or nothing when the stream has ended. */
  method ReadByte(sock: Inbound) returns (b: Option<byte>)
    requires sock.Valid()
    modifies sock`pos
    ensures sock.Valid()
    ensures old(sock.Left()) == [] ==> b == None && sock.pos == old(sock.pos)
    ensures old(sock.Left()) != [] ==> b == Some(old(sock.Left())[0]) && sock.pos == old(sock.pos) + 1
  {
    var one := new byte[1];
    ghost var left := sock.Left();
    var e := ReadExact(sock, one, 0, 1);
    if e != Ok {
      return None;
    }
    assert one[..][0] == left[0];
    return Some(one[0]);
  }

  /** The one-byte-at-a-time reader; the callers allow three and two bytes. */
  method ReadVarintStreaming(sock: Inbound, maxBytes: nat) returns (error: Error, value: uint32)
    requires sock.Valid()
    modifies sock`pos
    ensures sock.Valid()
    ensures match ParseVarint(old(sock.Left()), Min(maxBytes, 5))
            case Done(v, used) => error == Ok && value == v % WORD && sock.pos == old(sock.pos) + used
            case NeedMore => error == Ending(sock.clean) && sock.Left() == []
            case TooLong => error == VarintTooLong && sock.pos == old(sock.pos) + Min(maxBytes, 5)
  {
    ghost var left := sock.Left();
    ghost var budget: nat := Min(maxBytes, 5);
    var v: nat := 0;
    var shift := 0;
    var i := 0;
    value := 0;
    while i < maxBytes
      invariant 0 <= i <= maxBytes && shift == 7 * i
      invariant sock.Valid() && sock.pos == old(sock.pos) + i
      invariant if i == budget then ParseVarint(left, budget) == TooLong else Decoding(left, budget, v, i)
      invariant i <= 4
    {
      assert sock.Left() == left[i..];
      var next := ReadByte(sock);
      if next == None {
        assert Decoding(left, budget, v, i) && left[i..] == [];
        return Ending(sock.clean), 0;
      }
      var b := next.value;
      if b < 0x80 {
        DecodeLast(left, budget, v, i);
        return Ok, Accumulate(v, i, b);
      }
      DecodeMore(left, budget, v, i);
      v := Accumulate(v, i, b);
      shift := shift + 7;
      if shift >= 32 {
        return VarintTooLong, 0;
      }
      i := i + 1;
    }
    error := VarintTooLong;
  }

  datatype HeaderOutcome =
    | Head(size: nat, msgType: nat, used: nat)
    | NoHead(error: Error, used: nat)

  /** What the indicator byte and the two varints at the front of `s` say. */
  function ParseHeader(s: seq<byte>, clean: bool): HeaderOutcome {
    if s == [] then NoHead(Ending(clean), 0)
    else if s[0] != 0 then NoHead(BadIndicator, 1)
    else match ParseVarint(s[1..], SIZE_BUDGET)
      case NeedMore => NoHead(Ending(clean), |s|)
      case TooLong => NoHead(VarintTooLong, 1 + SIZE_BUDGET)
      case Done(size, n) =>
        if n > |s[1..]| then NoHead(Ending(clean), |s|)
        else match ParseVarint(s[1..][n..], TYPE_BUDGET)
          case NeedMore => NoHead(Ending(clean), |s|)
          case TooLong => NoHead(VarintTooLong, 1 + n + TYPE_BUDGET)
          case Done(msgType, m) => Head(size, msgType, 1 + n + m)
  }

  datatype FrameOutcome =
    | Got(msgType: nat, payload: seq<byte>, used: nat)
    | Bad(error: Error, used: nat)

  /** What reading one frame off `s` yields, and how many bytes it takes. */
  function ParseFrame(s: seq<byte>, clean: bool, cap: nat): FrameOutcome {
    match ParseHeader(s, clean)
    case NoHead(e, used) => Bad(e, used)
    case Head(size, msgType, used) =>
      if size > cap then Bad(MessageTooLarge, used)
      else if used + size > |s| then Bad(Ending(clean), |s|)
      else Got(msgType, s[used..used + size], used + size)
  }

  lemma ParseHeaderBounds(s: seq<byte>, clean: bool)
    ensures var h := ParseHeader(s, clean);
            && h.used <= |s|
            && (h.Head? ==> 3 <= h.used && h.size < 0x20_0000 && h.msgType < 0x4000)
  {
    if s != [] && s[0] == 0 {
      ParseVarintBounds(s[1..], SIZE_BUDGET);
      SmallPowers();
      var o := ParseVarint(s[1..], SIZE_BUDGET);
      if o.Done? {
        PowMono(7 * o.used, 21);
        ParseVarintBounds(s[1..][o.used..], TYPE_BUDGET);
        var p := ParseVarint(s[1..][o.used..], TYPE_BUDGET);
        if p.Done? {
          PowMono(7 * p.used, 14);
        }
      }
    }
  }

  /** The part of the frame reader before the payload. */
  method ReadHeader(sock: Inbound) returns (error: Error, size: uint32, kind: uint32)
    requires sock.Valid()
    modifies sock`pos
    ensures sock.Valid()
    ensures match ParseHeader(old(sock.Left()), sock.clean)
            case Head(s, t, used) => error == Ok && size == s && kind == t && sock.pos == old(sock.pos) + used
            case NoHead(e, used) => error == e && error != Ok && sock.pos == old(sock.pos) + used
  {
    hide ParseVarint, Splice;
    size, kind := 0, 0;
    ghost var s0 := sock.Left();
    ParseHeaderBounds(s0, sock.clean);
    var indicator := ReadByte(sock);
    match indicator {
      case None =>
        return Ending(sock.clean), 0, 0;
      case Some(b) =>
        if b != 0x00 {
          return BadIndicator, 0, 0;
        }
    }
    assert sock.Left() == s0[1..];
    error, size := ReadBudgeted(sock, SIZE_BUDGET);
    if error != Ok {
      return;
    }
    assert sock.Left() == s0[1..][ParseVarint(s0[1..], SIZE_BUDGET).used..];
    error, kind := ReadBudgeted(sock, TYPE_BUDGET);
  }

  lemma BudgetedFits(s: seq<byte>, maxBytes: nat)
    requires maxBytes <= 3
    ensures ParseVarint(s, maxBytes).Done? ==> ParseVarint(s, maxBytes).value < 0x20_0000
  {
    ParseVarintBounds(s, maxBytes);
    SmallPowers();
    hide ParseVarint;
    var o := ParseVarint(s, maxBytes);
    if o.Done? {
      PowMono(7 * o.used, 21);
    }
  }

  /** Within three groups no bit is lost to the 32-bit word. */
  method ReadBudgeted(sock: Inbound, maxBytes: nat) returns (error: Error, value: uint32)
    requires sock.Valid() && maxBytes <= 3
    modifies sock`pos
    ensures sock.Valid()
    ensures match ParseVarint(old(sock.Left()), maxBytes)
            case Done(v, used) => error == Ok && value == v && sock.pos == old(sock.pos) + used
            case NeedMore => error == Ending(sock.clean) && sock.Left() == []
            case TooLong => error == VarintTooLong && sock.pos == old(sock.pos) + maxBytes
  {
    BudgetedFits(sock.Left(), maxBytes);
    hide ParseVarint;
    error, value := ReadVarintStreaming(sock, maxBytes);
  }

  /** Reads exactly one frame under any short-read schedule. A two-byte type
      cannot exceed 16 bits, so the reader's own check of that never fires. */
  method ReadFrame(sock: Inbound, payloadBuf: array<byte>, payloadCap: nat)
    returns (error: Error, msgType: uint16, payloadLen: nat)
    requires sock.Valid() && payloadCap <= payloadBuf.Length
    modifies sock`pos, payloadBuf
    ensures sock.Valid()
    ensures match ParseFrame(old(sock.Left()), sock.clean, payloadCap)
            case Got(t, payload, used) =>
              && error == Ok && msgType == t && payloadLen == |payload|
              && payloadLen <= payloadCap && payloadBuf[..payloadLen] == payload
              && sock.pos == old(sock.pos) + used
            case Bad(e, used) => error == e && error != Ok && sock.pos == old(sock.pos) + used
  {
    hide ParseHeader;
    msgType, payloadLen := 0, 0;
    ghost var s0 := sock.Left();
    ParseHeaderBounds(s0, sock.clean);
    var size, kind;
    error, size, kind := ReadHeader(sock);
    if error != Ok {
      return;
    }
    if size > payloadCap {
      return MessageTooLarge, 0, 0;
    }
    ghost var used := ParseHeader(s0, sock.clean).used;
    ghost var left := sock.Left();
    assert left == s0[used..];
    error := ReadExact(sock, payloadBuf, 0, size);
    if error != Ok {
      return;
    }
    assert payloadBuf[..size] == payloadBuf[..][..size] == left[..size] == s0[used..used + size];
    msgType := kind;
    payloadLen := size;
  }

  lemma PowMono(a: nat, b: nat)
    requires a <= b
    ensures Pow2(a) <= Pow2(b)
    decreases b - a
  {
    if a < b {
      PowMono(a + 1, b);
    }
  }

  // ------------------------------------------------------- writing a frame

  function Header(msgType: nat, payloadLen: nat): seq<byte> {
    [0] + Varint(payloadLen) + Varint(msgType)
  }

  /** A whole frame as it goes on the wire. */
  function FrameBytes(msgType: nat, payload: seq<byte>): (s: seq<byte>)
    ensures |s| >= 3 + |payload|
  {
    Header(msgType, |payload|) + payload
  }

  /** Places the header so that it ends where the payload begins. */
  method PrependHeader(buf: array<byte>, msgType: uint16, payloadLen: uint32) returns (start: nat)
    requires MAX_HEADER_LEN + payloadLen <= buf.Length
    requires |Header(msgType, payloadLen)| <= MAX_HEADER_LEN
    modifies buf
    ensures start == MAX_HEADER_LEN - |Header(msgType, payloadLen)|
    ensures buf[..start] == old(buf[..start])
    ensures buf[start..MAX_HEADER_LEN] == Header(msgType, payloadLen)
    ensures buf[MAX_HEADER_LEN..] == old(buf[MAX_HEADER_LEN..])
    ensures buf[start..MAX_HEADER_LEN + payloadLen] ==
            FrameBytes(msgType, old(buf[MAX_HEADER_LEN..MAX_HEADER_LEN + payloadLen]))
  {
    var sizeVl := VarintLen(payloadLen);
    var typeVl := VarintLen(msgType);
    var headerLen := 1 + sizeVl + typeVl;
    start := MAX_HEADER_LEN - headerLen;
    ghost var o := buf[..];
    buf[start] := 0x00;
    assert buf[..] == Splice(o, start, [0]);
    var _ := EncodeVarint(buf, start + 1, payloadLen);
    var _ := EncodeVarint(buf, start + 1 + sizeVl, msgType);
    HeaderPlaced(o, start, msgType, payloadLen);
  }

  /** The three header writes make one block that ends where the payload begins. */
  lemma HeaderPlaced(o: seq<byte>, start: nat, msgType: uint16, payloadLen: uint32)
    requires MAX_HEADER_LEN + payloadLen <= |o|
    requires start + |Header(msgType, payloadLen)| == MAX_HEADER_LEN
    ensures var sizeAt := start + 1;
            var typeAt := sizeAt + |Varint(payloadLen)|;
            var buf := Splice(Splice(o[start := 0], sizeAt, Varint(payloadLen)), typeAt, Varint(msgType));
            && buf[..start] == o[..start]
            && buf[start..MAX_HEADER_LEN] == Header(msgType, payloadLen)
            && buf[MAX_HEADER_LEN..] == o[MAX_HEADER_LEN..]
            && buf[start..MAX_HEADER_LEN + payloadLen] ==
               FrameBytes(msgType, o[MAX_HEADER_LEN..MAX_HEADER_LEN + payloadLen])
  {
    hide Varint;
    var a, b := Varint(payloadLen), Varint(msgType);
    ThreeWrites(o, start, a, b, MAX_HEADER_LEN, payloadLen);
  }

  lemma ThreeWrites(o: seq<byte>, start: nat, a: seq<byte>, b: seq<byte>, end: nat, len: nat)
    requires start + 1 + |a| + |b| == end && end + len <= |o|
    ensures var buf := Splice(Splice(o[start := 0], start + 1, a), start + 1 + |a|, b);
            && buf[..start] == o[..start]
            && buf[start..end] == [0] + a + b
            && buf[end..] == o[end..]
            && buf[start..end + len] == [0] + a + b + o[end..end + len]
  {
    var buf := Splice(Splice(o[start := 0], start + 1, a), start + 1 + |a|, b);
    assert buf[start..end + len] == buf[start..end] + buf[end..][..len];
  }

  // -------------------------------------------------------------- theorems

  /** Header parsing, with the two varints as opaque byte strings. */
  lemma HeaderShape(a: seq<byte>, b: seq<byte>, rest: seq<byte>)
    ensures var s := [0] + a + b + rest;
            && s[0] == 0 && s[1..] == a + (b + rest) && s[1..][|a|..] == b + rest
  {
    var s := [0] + a + b + rest;
    assert s[1..] == a + (b + rest);
  }

  /** The header reads back if and only if type and length fit their budgets. */
  lemma HeaderRoundTrip(msgType: nat, payloadLen: nat, rest: seq<byte>, clean: bool)
    ensures ParseHeader(Header(msgType, payloadLen) + rest, clean) ==
              Head(payloadLen, msgType, |Header(msgType, payloadLen)|)
            <==> msgType < 0x4000 && payloadLen < 0x20_0000
  {
    hide Varint, ParseVarint;
    VarintRoundTrip(payloadLen, Varint(msgType) + rest, SIZE_BUDGET);
    VarintRoundTrip(msgType, rest, TYPE_BUDGET);
    VarintLenBound(payloadLen, 3);
    VarintLenBound(msgType, 2);
    SmallPowers();
    HeaderShape(Varint(payloadLen), Varint(msgType), rest);
  }

  /** Such a header always fits the six bytes reserved for it. */
  lemma HeaderFits(msgType: nat, payloadLen: nat)
    requires msgType < 0x4000 && payloadLen < 0x20_0000
    ensures 3 <= |Header(msgType, payloadLen)| <= MAX_HEADER_LEN
  {
    VarintLenBound(payloadLen, 3);
    VarintLenBound(msgType, 2);
    SmallPowers();
  }

  /** The exact range of the codec: a frame reads back as what was written, with
      nothing taken from the bytes behind it, if and only if the type fits two
      groups, the length fits three, and the receiver has room. */
  lemma FrameRoundTrip(msgType: nat, payload: seq<byte>, rest: seq<byte>, clean: bool, cap: nat)
    ensures ParseFrame(FrameBytes(msgType, payload) + rest, clean, cap) ==
              Got(msgType, payload, |FrameBytes(msgType, payload)|)
            <==> msgType < 0x4000 && |payload| < 0x20_0000 && |payload| <= cap
  {
    hide Header, ParseHeader;
    var s := FrameBytes(msgType, payload) + rest;
    var h := Header(msgType, |payload|);
    HeaderRoundTrip(msgType, |payload|, payload + rest, clean);
    ParseHeaderBounds(s, clean);
    assert s == h + (payload + rest);
    assert s[|h|..|h| + |payload|] == payload;
  }

  lemma {:induction false} PartialVarint(v: nat, k: nat, budget: nat)
    requires k < |Varint(v)| <= budget
    ensures ParseVarint(Varint(v)[..k], budget) == NeedMore
  {
    if k > 0 {
      PartialVarint(v / 128, k - 1, budget - 1);
      assert Varint(v)[..k][1..] == Varint(v / 128)[..k - 1];
    }
  }

  lemma PartialHeader(msgType: nat, payloadLen: nat, k: nat, clean: bool)
    requires msgType < 0x4000 && payloadLen < 0x20_0000
    requires k < |Header(msgType, payloadLen)|
    ensures ParseHeader(Header(msgType, payloadLen)[..k], clean) == NoHead(Ending(clean), k)
  {
    var a, b := Varint(payloadLen), Varint(msgType);
    hide Varint, ParseVarint, ParseHeader;
    VarintLenBound(payloadLen, 3);
    VarintLenBound(msgType, 2);
    SmallPowers();
    var s := Header(msgType, payloadLen)[..k];
    if k > 0 {
      if k - 1 < |a| {
        PartialVarint(payloadLen, k - 1, SIZE_BUDGET);
        assert s == [0] + a[..k - 1];
        WantsSize(a[..k - 1], clean);
      } else {
        var t := b[..k - 1 - |a|];
        VarintRoundTrip(payloadLen, t, SIZE_BUDGET);
        PartialVarint(msgType, |t|, TYPE_BUDGET);
        assert s == [0] + (a + t);
        WantsType(payloadLen, a, t, clean);
      }
    } else {
      NothingYet(s, clean);
    }
  }

  lemma NothingYet(s: seq<byte>, clean: bool)
    requires s == []
    ensures ParseHeader(s, clean) == NoHead(Ending(clean), 0)
  {
  }

  lemma WantsSize(part: seq<byte>, clean: bool)
    requires ParseVarint(part, SIZE_BUDGET) == NeedMore
    ensures ParseHeader([0] + part, clean) == NoHead(Ending(clean), 1 + |part|)
  {
    assert ([0] + part)[1..] == part;
    hide ParseVarint;
  }

  lemma WantsType(size: nat, a: seq<byte>, part: seq<byte>, clean: bool)
    requires ParseVarint(a + part, SIZE_BUDGET) == Done(size, |a|)
    requires ParseVarint(part, TYPE_BUDGET) == NeedMore
    ensures ParseHeader([0] + (a + part), clean) == NoHead(Ending(clean), 1 + |a| + |part|)
  {
    assert ([0] + (a + part))[1..] == a + part;
    assert (a + part)[|a|..] == part;
    hide ParseVarint;
  }

  /** A strict prefix of a frame never reads as a message: the reader wants more. */
  lemma PartialFrameIsEnd(msgType: nat, payload: seq<byte>, k: nat, clean: bool, cap: nat)
    requires msgType < 0x4000 && |payload| < 0x20_0000 && |payload| <= cap
    requires k < |FrameBytes(msgType, payload)|
    ensures ParseFrame(FrameBytes(msgType, payload)[..k], clean, cap) == Bad(Ending(clean), k)
  {
    var h := Header(msgType, |payload|);
    var s := FrameBytes(msgType, payload)[..k];
    if k < |h| {
      PartialHeader(msgType, |payload|, k, clean);
      hide Header, ParseHeader;
      assert s == h[..k];
    } else {
      HeaderRoundTrip(msgType, |payload|, payload[..k - |h|], clean);
      hide Header, ParseHeader;
      assert s == h + payload[..k - |h|];
    }
  }

  // ------------------------------------------------------ streams of frames

  datatype Message = Message(msgType: nat, payload: seq<byte>)

  /** Within what both ends of the codec can carry. */
  predicate Carriable(m: Message, cap: nat) {
    m.msgType < 0x4000 && |m.payload| < 0x20_0000 && |m.payload| <= cap
  }

  function Frames(ms: seq<Message>): seq<byte> {
    if ms == [] then [] else FrameBytes(ms[0].msgType, ms[0].payload) + Frames(ms[1..])
  }

  lemma {:induction false} FramesSnoc(ms: seq<Message>, m: Message)
    ensures Frames(ms + [m]) == Frames(ms) + FrameBytes(m.msgType, m.payload)
  {
    hide FrameBytes;
    if ms == [] {
      assert ms + [m] == [m];
      assert [m][1..] == [];
    } else {
      FramesSnoc(ms[1..], m);
      assert (ms + [m])[1..] == ms[1..] + [m];
    }
  }

  datatype Reading = Reading(messages: seq<Message>, last: Error)

  /** Reading frame after frame until one fails. */
  function ReadAll(s: seq<byte>, clean: bool, cap: nat): Reading
    decreases |s|
  {
    match ParseFrame(s, clean, cap)
    case Bad(e, _) => Reading([], e)
    case Got(t, payload, used) =>
      if used == 0 || used > |s| then Reading([], Ok)
      else
        var rest := ReadAll(s[used..], clean, cap);
        Reading([Message(t, payload)] + rest.messages, rest.last)
  }

  /** The beginning of a frame that has not been delivered completely. */
  ghost predicate CutShort(partial: seq<byte>, cap: nat) {
    exists m: Message, k: nat ::
      Carriable(m, cap) && k < |FrameBytes(m.msgType, m.payload)| && partial == FrameBytes(m.msgType, m.payload)[..k]
  }

  lemma ReadAllCutShort(partial: seq<byte>, clean: bool, cap: nat)
    requires partial == [] || CutShort(partial, cap)
    ensures ReadAll(partial, clean, cap) == Reading([], Ending(clean))
  {
    if partial == [] {
      return;
    }
    var m: Message, k: nat :|
      Carriable(m, cap) && k < |FrameBytes(m.msgType, m.payload)| && partial == FrameBytes(m.msgType, m.payload)[..k];
    PartialFrameIsEnd(m.msgType, m.payload, k, clean, cap);
  }

  lemma ReadAllStep(m: Message, rest: seq<byte>, clean: bool, cap: nat)
    requires Carriable(m, cap)
    ensures ReadAll(FrameBytes(m.msgType, m.payload) + rest, clean, cap) ==
            Reading([m] + ReadAll(rest, clean, cap).messages, ReadAll(rest, clean, cap).last)
  {
    var f := FrameBytes(m.msgType, m.payload);
    FrameRoundTrip(m.msgType, m.payload, rest, clean, cap);
    hide FrameBytes, ParseFrame;
    assert (f + rest)[|f|..] == rest;
  }

  /** A stream of whole frames, perhaps with one more cut short, reads as exactly
      the messages of the whole frames and then ends. */
  lemma {:induction false} StreamRoundTrip(ms: seq<Message>, partial: seq<byte>, clean: bool, cap: nat)
    requires forall m :: m in ms ==> Carriable(m, cap)
    requires partial == [] || CutShort(partial, cap)
    ensures ReadAll(Frames(ms) + partial, clean, cap) == Reading(ms, Ending(clean))
  {
    hide FrameBytes, ReadAll, CutShort;
    if ms == [] {
      assert Frames(ms) + partial == partial;
      ReadAllCutShort(partial, clean, cap);
    } else {
      var f := FrameBytes(ms[0].msgType, ms[0].payload);
      var rest := Frames(ms[1..]) + partial;
      assert Frames(ms) + partial == f + rest;
      ReadAllStep(ms[0], rest, clean, cap);
      StreamRoundTrip(ms[1..], partial, clean, cap);
      assert ms == [ms[0]] + ms[1..];
    }
  }

  // ------------------------------------------------------------ the bytes on the wire

  /** The first `n` bytes are the number in groups of seven bits, low group first, each but the last
      with its top bit set. */
  ghost predicate Groups(v: nat, s: seq<byte>, n: nat) {
    && 1 <= n <= |s| && v < Pow2(7 * n)
    && forall i :: 0 <= i < n ==> s[i] % 128 == v / Pow2(7 * i) % 128 && (s[i] >= 128 <==> i < n - 1)
  }

  lemma DivDiv(v: nat, p: nat)
    requires p > 0
    ensures v / 128 / p == v / (128 * p)
  {
    var w := v / 128;
    var q, r := w / p, w % p;
    assert v == 128 * w + v % 128 && w == p * q + r;
    var rest := 128 * r + v % 128;
    assert 128 * (p * q) == (128 * p) * q;
    assert v == (128 * p) * q + rest && 0 <= rest < 128 * p;
    QuotientIs(v, 128 * p, q, rest);
  }

  lemma QuotientIs(v: nat, d: nat, q: nat, r: nat)
    requires v == d * q + r && r < d
    ensures v / d == q
  {
    SameQuotient(d, v / d, q, v % d, r);
  }

  lemma SameQuotient(d: nat, x: nat, y: nat, r: nat, t: nat)
    requires d * x + r == d * y + t && r < d && t < d
    ensures x == y
  {
    assert d * (x + 1) == d * x + d && d * (y + 1) == d * y + d;
    if x < y {
      MulMono(d, x + 1, y);
    } else if y < x {
      MulMono(d, y + 1, x);
    }
  }

  /** One group more in front. */
  lemma GroupsCons(v: nat, s: seq<byte>, n: nat)
    requires |s| > 0 && s[0] >= 128
    ensures Groups(v, s, n + 1) && n >= 1 <==> s[0] % 128 == v % 128 && Groups(v / 128, s[1..], n)
  {
    var w := v / 128;
    Pow2Plus7(7 * n);
    assert Pow2(7 * (n + 1)) == 128 * Pow2(7 * n);
    DivLess(v, Pow2(7 * n));
    SmallPowers();
    forall i | 0 <= i < n ensures v / Pow2(7 * (i + 1)) == w / Pow2(7 * i) {
      Pow2Plus7(7 * i);
      assert Pow2(7 * (i + 1)) == 128 * Pow2(7 * i);
      DivDiv(v, Pow2(7 * i));
    }
    hide Pow2;
    assert v / 1 == v;
    if Groups(v, s, n + 1) && n >= 1 {
      forall i | 0 <= i < n
        ensures s[1..][i] % 128 == w / Pow2(7 * i) % 128 && (s[1..][i] >= 128 <==> i < n - 1)
      {
        assert s[1..][i] == s[i + 1];
      }
    }
    if s[0] % 128 == v % 128 && Groups(w, s[1..], n) {
      forall i | 0 <= i < n + 1
        ensures s[i] % 128 == v / Pow2(7 * i) % 128 && (s[i] >= 128 <==> i < n)
      {
        if i > 0 {
          assert s[i] == s[1..][i - 1];
        }
      }
    }
  }

  /** A varint read is exactly that many groups of its number, within the budget. */
  lemma {:induction false} ParsedGroups(s: seq<byte>, budget: nat, v: nat, n: nat)
    ensures ParseVarint(s, budget) == Done(v, n) <==> n <= budget && Groups(v, s, n)
    decreases budget
  {
    hide Groups, Pow2, ParseVarint;
    GroupsBounds(v, s, n);
    ParseFirst(s, budget, v, n);
    if budget > 0 && s != [] {
      if s[0] < 128 {
        OneGroup(s, v, n);
      } else if n >= 1 {
        ParsedGroups(s[1..], budget - 1, v / 128, n - 1);
        GroupsCons(v, s, n - 1);
        ManyGroups(s, v, n);
      }
    }
  }

  lemma GroupsBounds(v: nat, s: seq<byte>, n: nat)
    ensures Groups(v, s, n) ==> 1 <= n <= |s|
  {
  }

  lemma ParseFirst(s: seq<byte>, budget: nat, v: nat, n: nat)
    ensures budget == 0 || s == [] ==> !ParseVarint(s, budget).Done?
    ensures budget > 0 && s != [] && s[0] < 128 ==>
              (ParseVarint(s, budget) == Done(v, n) <==> v == s[0] && n == 1)
    ensures budget > 0 && s != [] && s[0] >= 128 ==>
              (ParseVarint(s, budget) == Done(v, n) <==>
                 n >= 1 && s[0] % 128 == v % 128 && ParseVarint(s[1..], budget - 1) == Done(v / 128, n - 1))
  {
    if budget > 0 && s != [] && s[0] >= 128 {
      assert s[0] % 128 == s[0] - 128;
    }
  }

  /** Running out of budget or of bytes means that every byte so far announced another. */
  lemma {:induction false} UnfinishedVarint(s: seq<byte>, budget: nat)
    ensures ParseVarint(s, budget) == TooLong <==> budget <= |s| && forall i :: 0 <= i < budget ==> s[i] >= 128
    ensures ParseVarint(s, budget) == NeedMore <==> |s| < budget && forall i :: 0 <= i < |s| ==> s[i] >= 128
    decreases budget
  {
    if budget > 0 && s != [] && s[0] >= 128 {
      UnfinishedVarint(s[1..], budget - 1);
      assert forall i :: 1 <= i < |s| ==> s[i] == s[1..][i - 1];
    }
  }

  lemma OneGroup(s: seq<byte>, v: nat, n: nat)
    requires s != [] && s[0] < 128
    ensures Groups(v, s, n) <==> v == s[0] && n == 1
  {
    SmallPowers();
    if Groups(v, s, n) {
      assert s[0] >= 128 <==> 0 < n - 1;
      assert n == 1 && Pow2(7 * n) == 128;
      assert s[0] % 128 == v / Pow2(7 * 0) % 128;
    }
    if v == s[0] && n == 1 {
      assert Pow2(7 * n) == 128 && Pow2(7 * 0) == 1;
    }
    hide Pow2;
  }

  lemma ManyGroups(s: seq<byte>, v: nat, n: nat)
    requires s != [] && s[0] >= 128
    ensures Groups(v, s, n) ==> n >= 2
  {
  }

  /** A frame is a zero, the payload's size, the type, and the payload: with both below 128 in one byte
      each. */
  lemma FrameLayout(msgType: nat, payload: seq<byte>)
    requires msgType < 128 && |payload| < 128
    ensures FrameBytes(msgType, payload) == [0, |payload|, msgType] + payload
  {
  }

  /** What a reader refuses, and after how many bytes: a first byte that is not zero, a size of more than
      three bytes, a type of more than two, and a payload larger than its buffer. */
  lemma Refusals(s: seq<byte>, clean: bool, cap: nat)
    ensures ParseFrame(s, clean, cap) == Bad(BadIndicator, 1) <==> s != [] && s[0] != 0
    ensures s != [] && s[0] == 0 && |s| >= 4 && s[1] >= 128 && s[2] >= 128 && s[3] >= 128 ==>
              ParseFrame(s, clean, cap) == Bad(VarintTooLong, 4)
    ensures |s| >= 4 && s[0] == 0 && s[1] < 128 && s[2] >= 128 && s[3] >= 128 ==>
              ParseFrame(s, clean, cap) == Bad(VarintTooLong, 4)
    ensures |s| >= 3 && s[0] == 0 && s[1] < 128 && s[2] < 128 && s[1] > cap ==>
              ParseFrame(s, clean, cap) == Bad(MessageTooLarge, 3)
  {
    if s != [] && s[0] == 0 {
      UnfinishedVarint(s[1..], SIZE_BUDGET);
      if |s| >= 4 {
        assert s[1..][0] == s[1] && s[1..][1] == s[2] && s[1..][2] == s[3];
        UnfinishedVarint(s[1..][1..], TYPE_BUDGET);
      }
    }
  }

  /** A stream that ends too early ends as its socket does: cleanly, or with an error. */
  lemma EarlyEnd(s: seq<byte>, cap: nat)
    requires s == [] || (|s| < 3 && s[0] == 0 && (|s| > 1 ==> s[1] < 128))
    ensures ParseFrame(s, true, cap) == Bad(Eof, |s|)
    ensures ParseFrame(s, false, cap) == Bad(SocketError, |s|)
  {
    if |s| == 2 {
      assert s[1..][1..] == [];
    }
  }

  /** Any frame too large for the buffer is refused behind its header. */
  lemma TooLargeIsRefused(msgType: nat, payload: seq<byte>, rest: seq<byte>, clean: bool, cap: nat)
    requires msgType < 0x4000 && cap < |payload| < 0x20_0000
    ensures ParseFrame(FrameBytes(msgType, payload) + rest, clean, cap) ==
            Bad(MessageTooLarge, |FrameBytes(msgType, payload)| - |payload|)
  {
    HeaderRoundTrip(msgType, |payload|, payload + rest, clean);
    hide Header, ParseHeader;
    assert Header(msgType, |payload|) + payload + rest == Header(msgType, |payload|) + (payload + rest);
  }
}
