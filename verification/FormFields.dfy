/** The setup page's form reader: one field out of an application/x-www-form-urlencoded
    body held as a NUL-terminated string (given here without its terminator). */
module FormFields {
  import opened Prelude

  const EQ: byte := 61
  const AMP: byte := 38
  const PLUS: byte := 43
  const PERCENT: byte := 37
  const SPACE: byte := 32

  function Hex(c: byte): (h: int)
    ensures h == -1 || 0 <= h < 16
  {
    if 48 <= c <= 57 then c - 48
    else if 97 <= c <= 102 then 10 + c - 97
    else if 65 <= c <= 70 then 10 + c - 65
    else -1
  }

  predicate Escape(raw: seq<byte>) {
    |raw| >= 3 && raw[0] == PERCENT && Hex(raw[1]) >= 0 && Hex(raw[2]) >= 0
  }

  /** The bytes a raw value stands for; a percent sign without two digits stands for itself. */
  function Decode(raw: seq<byte>): seq<byte>
    decreases |raw|
  {
    if raw == [] then []
    else if raw[0] == PLUS then [SPACE] + Decode(raw[1..])
    else if Escape(raw) then [16 * Hex(raw[1]) + Hex(raw[2])] + Decode(raw[3..])
    else [raw[0]] + Decode(raw[1..])
  }

  /** The first piece of a form, and the form behind its ampersand. */
  datatype Split = NoPair | Pair(name: seq<byte>, raw: seq<byte>, more: Option<seq<byte>>)

  function SplitPiece(s: seq<byte>): (p: Split)
    ensures p.Pair? && p.more.Some? ==> |p.more.value| < |s|
  {
    var eq := IndexOf(s, EQ);
    if eq == |s| then NoPair
    else
      var rest := s[eq + 1..];
      var amp := IndexOf(rest, AMP);
      Pair(s[..eq], rest[..amp], if amp == |rest| then None else Some(rest[amp + 1..]))
  }

  /** The raw value of the first piece whose name is `key`. */
  function FindRaw(s: seq<byte>, key: seq<byte>): Option<seq<byte>>
    decreases |s|
  {
    match SplitPiece(s)
    case NoPair => None
    case Pair(name, raw, more) =>
      if name == key then Some(raw)
      else match more
        case None => None
        case Some(rest) => FindRaw(rest, key)
  }

  /** Decodes `src[start..end]` into `out`, leaving room for the terminator. */
  method CopyDecoded(src: seq<byte>, start: nat, end: nat, out: array<byte>, cap: nat) returns (i: nat)
    requires start <= end <= |src| && 1 <= cap <= out.Length
    modifies out
    ensures var v := Decode(src[start..end]);
            i == Min(cap - 1, |v|) && out[..i] == v[..i]
  {
    hide Decode;
    i := 0;
    var q := start;
    ghost var v := Decode(src[start..end]);
    while q < end && i + 1 < cap
      invariant start <= q <= end && 0 <= i <= cap - 1
      invariant i <= |v| && out[..i] == v[..i] && Decode(src[q..end]) == v[i..]
      decreases end - q
    {
      DecodeStep(src[q..end], v, i);
      RawHead(src, q, end);
      var c: byte;
      if src[q] == PLUS {
        c := SPACE;
        q := q + 1;
      } else if src[q] == PERCENT && q + 2 < end {
        var hi, lo := Hex(src[q + 1]), Hex(src[q + 2]);
        if hi >= 0 && lo >= 0 {
          c := 16 * hi + lo;
          q := q + 3;
        } else {
          c := src[q];
          q := q + 1;
        }
      } else {
        c := src[q];
        q := q + 1;
      }
      ghost var before := out[..i];
      out[i] := c;
      assert out[..i + 1] == before + [c];
      assert v[..i + 1] == v[..i] + [v[i]];
      i := i + 1;
    }
    if q == end {
      assert src[q..end] == [];
      DecodeNothing();
    }
  }

  lemma DecodeNothing()
    ensures Decode([]) == []
  {
  }

  lemma RawHead(src: seq<byte>, q: nat, end: nat)
    requires q < end <= |src|
    ensures var raw := src[q..end];
            && raw[0] == src[q] && raw[1..] == src[q + 1..end] && (|raw| >= 3 <==> q + 2 < end)
            && (q + 2 < end ==> raw[1] == src[q + 1] && raw[2] == src[q + 2] && raw[3..] == src[q + 3..end])
  {
  }

  /** One turn of the decoding loop. */
  lemma DecodeStep(raw: seq<byte>, v: seq<byte>, i: nat)
    requires raw != [] && i <= |v| && Decode(raw) == v[i..]
    ensures i < |v|
    ensures raw[0] == PLUS ==> v[i] == SPACE && Decode(raw[1..]) == v[i + 1..]
    ensures Escape(raw) ==> v[i] == 16 * Hex(raw[1]) + Hex(raw[2]) && Decode(raw[3..]) == v[i + 1..]
    ensures raw[0] != PLUS && !Escape(raw) ==> v[i] == raw[0] && Decode(raw[1..]) == v[i + 1..]
  {
    assert v[i..][1..] == v[i + 1..];
  }

  /** The value of the first field called `key`, decoded and cut to `cap - 1` bytes. */
  method FormGet(src: seq<byte>, key: seq<byte>, out: array<byte>, cap: nat) returns (found: bool)
    requires 1 <= cap <= out.Length
    modifies out
    ensures found <==> FindRaw(src, key).Some?
    ensures !found ==> out[0] == 0
    ensures found ==>
              var v := Decode(FindRaw(src, key).value);
              var n := Min(cap - 1, |v|);
              out[..n] == v[..n] && out[n] == 0
  {
    hide FindRaw, Decode, IndexOf;
    out[0] := 0;
    var p := 0;
    assert src[p..] == src;
    while p < |src|
      invariant 0 <= p <= |src| && out[0] == 0
      invariant FindRaw(src, key) == FindRaw(src[p..], key)
    {
      var eq := StrChr(src, p, EQ);
      if eq == |src| {
        NothingThere(src[p..], key);
        return false;
      }
      var amp := StrChr(src, eq + 1, AMP);
      PieceAt(src, p, eq, amp, key);
      if src[p..eq] == key {
        var n := CopyDecoded(src, eq + 1, amp, out, cap);
        ghost var kept := out[..n];
        out[n] := 0;
        assert out[..n] == kept;
        return true;
      }
      if amp == |src| {
        return false;
      }
      p := amp + 1;
    }
    assert src[p..] == [];
    NothingThere(src[p..], key);
    return false;
  }

  lemma NothingThere(s: seq<byte>, key: seq<byte>)
    requires IndexOf(s, EQ) == |s|
    ensures FindRaw(s, key) == None
  {
  }

  /** The piece that starts at `p`, seen from the slice that starts there. */
  lemma SplitHere(src: seq<byte>, p: nat, eq: nat, amp: nat)
    requires p <= eq < amp <= |src|
    requires eq - p == IndexOf(src[p..], EQ) && amp - eq - 1 == IndexOf(src[eq + 1..], AMP)
    ensures SplitPiece(src[p..]) ==
            Pair(src[p..eq], src[eq + 1..amp], if amp == |src| then None else Some(src[amp + 1..]))
  {
    hide IndexOf;
    assert src[p..][eq - p + 1..] == src[eq + 1..];
  }

  lemma PieceAt(src: seq<byte>, p: nat, eq: nat, amp: nat, key: seq<byte>)
    requires p <= eq < amp <= |src|
    requires eq - p == IndexOf(src[p..], EQ) && amp - eq - 1 == IndexOf(src[eq + 1..], AMP)
    ensures FindRaw(src[p..], key) ==
            if src[p..eq] == key then Some(src[eq + 1..amp])
            else if amp == |src| then None
            else FindRaw(src[amp + 1..], key)
  {
    hide IndexOf, SplitPiece;
    SplitHere(src, p, eq, amp);
  }

  // ------------------------------------------------------- well-formed forms

  /** One unit of an encoded value. */
  datatype Token = Plain(c: byte) | Space | Pct(hi: byte, lo: byte)

  predicate TokenOk(t: Token) {
    match t
    case Plain(c) => c != AMP && c != PLUS && c != PERCENT && c != 0
    case Space => true
    case Pct(hi, lo) => Hex(hi) >= 0 && Hex(lo) >= 0
  }

  function TokenBytes(t: Token): seq<byte> {
    match t case Plain(c) => [c] case Space => [PLUS] case Pct(hi, lo) => [PERCENT, hi, lo]
  }

  function TokenValue(t: Token): byte
    requires TokenOk(t)
  {
    match t case Plain(c) => c case Space => SPACE case Pct(hi, lo) => 16 * Hex(hi) + Hex(lo)
  }

  function Raw(ts: seq<Token>): seq<byte> {
    if ts == [] then [] else TokenBytes(ts[0]) + Raw(ts[1..])
  }

  ghost predicate TokensOk(ts: seq<Token>) {
    forall t :: t in ts ==> TokenOk(t)
  }

  function Value(ts: seq<Token>): seq<byte>
    requires TokensOk(ts)
  {
    if ts == [] then [] else [TokenValue(ts[0])] + Value(ts[1..])
  }

  lemma {:induction false} DecodeRaw(ts: seq<Token>)
    requires TokensOk(ts)
    ensures Decode(Raw(ts)) == Value(ts)
    ensures AMP !in Raw(ts)
  {
    if ts != [] {
      var t, rest := ts[0], Raw(ts[1..]);
      DecodeRaw(ts[1..]);
      assert TokenOk(t);
      var s := TokenBytes(t) + rest;
      match t {
        case Plain(c) => assert s[1..] == rest;
        case Space => assert s[1..] == rest;
        case Pct(hi, lo) =>
          assert s[3..] == rest && s[0] == PERCENT && s[1] == hi && s[2] == lo;
      }
    }
  }

  datatype Field = Field(name: seq<byte>, value: seq<Token>)

  ghost predicate FieldOk(f: Field) {
    EQ !in f.name && AMP !in f.name && TokensOk(f.value)
  }

  /** `name=value` pieces joined by ampersands. */
  function Render(fields: seq<Field>): seq<byte> {
    if fields == [] then []
    else
      var piece := fields[0].name + [EQ] + Raw(fields[0].value);
      if |fields| == 1 then piece else piece + [AMP] + Render(fields[1..])
  }

  function FirstOf(fields: seq<Field>, key: seq<byte>): Option<Field> {
    if fields == [] then None
    else if fields[0].name == key then Some(fields[0])
    else FirstOf(fields[1..], key)
  }

  lemma UpTo(head: seq<byte>, c: byte, rest: seq<byte>)
    requires c !in head
    ensures IndexOf(head + [c] + rest, c) == |head|
    ensures (head + [c] + rest)[..|head|] == head && (head + [c] + rest)[|head| + 1..] == rest
  {
    var s := head + [c] + rest;
    assert forall k :: 0 <= k < |head| ==> s[k] == head[k];
    IndexAt(s, c, |head|);
    hide IndexOf;
  }

  lemma UpToEnd(s: seq<byte>, c: byte)
    requires c !in s
    ensures IndexOf(s, c) == |s|
  {
    IndexAt(s, c, |s|);
  }

  lemma SplitRendered(name: seq<byte>, raw: seq<byte>, more: Option<seq<byte>>)
    requires EQ !in name && AMP !in raw
    ensures SplitPiece(name + [EQ] + (raw + Behind(more))) == Pair(name, raw, more)
  {
    hide IndexOf;
    var rest := raw + Behind(more);
    UpTo(name, EQ, rest);
    match more {
      case None =>
        assert rest == raw;
        UpToEnd(raw, AMP);
        assert raw[..|raw|] == raw;
      case Some(m) =>
        assert rest == raw + [AMP] + m;
        hide Behind;
        UpTo(raw, AMP, m);
    }
  }

  /** What stands behind a piece. */
  function Behind(more: Option<seq<byte>>): seq<byte> {
    match more case None => [] case Some(m) => [AMP] + m
  }

  lemma RenderHead(fields: seq<Field>)
    requires fields != []
    ensures Render(fields) == fields[0].name + [EQ] + (Raw(fields[0].value) + Behind(Rest(fields)))
  {
    hide Raw;
    var f := fields[0];
    assert f.name + [EQ] + (Raw(f.value) + Behind(Rest(fields))) == f.name + [EQ] + Raw(f.value) + Behind(Rest(fields));
  }

  function Rest(fields: seq<Field>): Option<seq<byte>>
    requires fields != []
  {
    if |fields| == 1 then None else Some(Render(fields[1..]))
  }

  /** In a list of name/value pairs the reader finds the first pair with the key. */
  lemma {:induction false} FindsFirst(fields: seq<Field>, key: seq<byte>)
    requires forall f :: f in fields ==> FieldOk(f)
    ensures FindRaw(Render(fields), key) ==
            match FirstOf(fields, key) case None => None case Some(f) => Some(Raw(f.value))
  {
    if fields != [] {
      hide Raw, Render, Behind, SplitPiece, IndexOf;
      var f := fields[0];
      assert FieldOk(f);
      DecodeRaw(f.value);
      RenderHead(fields);
      SplitRendered(f.name, Raw(f.value), Rest(fields));
      FindsFirst(fields[1..], key);
      assert |fields| == 1 ==> fields[1..] == [];
    }
  }

  /** What the reader promises: the decoded value of the first matching pair, and
      nothing when no pair matches. */
  lemma FieldValue(fields: seq<Field>, key: seq<byte>)
    requires forall f :: f in fields ==> FieldOk(f)
    ensures FirstOf(fields, key) == None <==> FindRaw(Render(fields), key) == None
    ensures FirstOf(fields, key).Some? ==>
              TokensOk(FirstOf(fields, key).value.value)
              && Decode(FindRaw(Render(fields), key).value) == Value(FirstOf(fields, key).value.value)
  {
    FindsFirst(fields, key);
    FirstIsMember(fields, key);
    if FirstOf(fields, key).Some? {
      assert FieldOk(FirstOf(fields, key).value);
      DecodeRaw(FirstOf(fields, key).value.value);
    }
  }

  lemma {:induction false} FirstIsMember(fields: seq<Field>, key: seq<byte>)
    ensures FirstOf(fields, key).Some? ==> FirstOf(fields, key).value in fields
    ensures FirstOf(fields, key).Some? <==> exists f :: f in fields && f.name == key
  {
    if fields != [] {
      FirstIsMember(fields[1..], key);
      assert fields == [fields[0]] + fields[1..];
      if fields[0].name != key && exists f :: f in fields && f.name == key {
        var f :| f in fields && f.name == key;
        assert f in fields[1..];
      }
    }
  }

  // The serializer of the URL Standard, section 5.2, on a NUL-free value

  function HexDigit(v: nat): (c: byte)
    requires v < 16
    ensures Hex(c) == v
  {
    if v < 10 then 48 + v else 55 + v
  }

  predicate Unreserved(c: byte) {
    48 <= c <= 57 || 65 <= c <= 90 || 97 <= c <= 122 || c == 42 || c == 45 || c == 46 || c == 95
  }

  function Serialize(value: seq<byte>): (ts: seq<Token>) {
    if value == [] then []
    else
      var c := value[0];
      var t := if c == SPACE then Space else if Unreserved(c) then Plain(c) else Pct(HexDigit(c / 16), HexDigit(c % 16));
      [t] + Serialize(value[1..])
  }

  /** A browser's encoding of any bytes reads back as those bytes. */
  lemma {:induction false} SerializeRoundTrip(value: seq<byte>)
    ensures TokensOk(Serialize(value)) && Value(Serialize(value)) == value
  {
    if value != [] {
      SerializeRoundTrip(value[1..]);
      var ts := Serialize(value);
      assert ts[1..] == Serialize(value[1..]);
      assert TokenOk(ts[0]) && TokenValue(ts[0]) == value[0];
      assert value == [value[0]] + value[1..];
    }
  }

  // ------------------------------------------------------- pieces without a value

  /** A piece of a form: a pair, or a name alone. */
  datatype Piece = Whole(field: Field) | Bare(name: seq<byte>)

  ghost predicate PieceOk(p: Piece) {
    match p case Whole(f) => FieldOk(f) case Bare(name) => EQ !in name && AMP !in name
  }

  ghost predicate PiecesOk(ps: seq<Piece>) {
    forall k :: 0 <= k < |ps| ==> PieceOk(ps[k])
  }

  function PieceBytes(p: Piece): seq<byte> {
    match p case Whole(f) => f.name + [EQ] + Raw(f.value) case Bare(name) => name
  }

  function RenderPieces(ps: seq<Piece>): seq<byte> {
    if ps == [] then []
    else PieceBytes(ps[0]) + Behind(if |ps| == 1 then None else Some(RenderPieces(ps[1..])))
  }

  function RestOf(ps: seq<Piece>): Option<seq<byte>>
    requires ps != []
  {
    if |ps| == 1 then None else Some(RenderPieces(ps[1..]))
  }

  /** A pair with the key and no name alone directly before it; `hidden` says whether there is
      one before the list. */
  predicate Visible(ps: seq<Piece>, k: nat, key: seq<byte>, hidden: bool)
    requires k < |ps|
  {
    && ps[k].Whole? && ps[k].field.name == key
    && (if k == 0 then !hidden else ps[k - 1].Whole?)
  }

  /** The pair the reader takes: the first visible one, or the length. */
  function ReaderPick(ps: seq<Piece>, key: seq<byte>, hidden: bool): (i: nat)
    ensures i <= |ps|
  {
    if ps == [] || Visible(ps, 0, key, hidden) then 0 else 1 + ReaderPick(ps[1..], key, ps[0].Bare?)
  }

  lemma {:induction false} PickIsFirstVisible(ps: seq<Piece>, key: seq<byte>, hidden: bool)
    ensures var i := ReaderPick(ps, key, hidden);
            && (i < |ps| ==> Visible(ps, i, key, hidden))
            && forall j :: 0 <= j < i ==> !Visible(ps, j, key, hidden)
  {
    if ps != [] && !Visible(ps, 0, key, hidden) {
      PickIsFirstVisible(ps[1..], key, ps[0].Bare?);
      assert forall j :: 1 <= j < |ps| ==> Visible(ps, j, key, hidden) == Visible(ps[1..], j - 1, key, ps[0].Bare?);
    }
  }

  function RawAt(ps: seq<Piece>, i: nat): Option<seq<byte>>
    requires i < |ps| ==> ps[i].Whole?
  {
    if i < |ps| then Some(Raw(ps[i].field.value)) else None
  }

  /** Whatever the pieces, the reader takes the first pair with the key that no name alone stands
      directly before: bare names in front are read as part of the next name. */
  lemma PiecesRead(ps: seq<Piece>, key: seq<byte>)
    requires PiecesOk(ps) && EQ !in key && AMP !in key
    ensures var i := ReaderPick(ps, key, false);
            && (i < |ps| ==> Visible(ps, i, key, false))
            && (forall j :: 0 <= j < i ==> !Visible(ps, j, key, false))
            && FindRaw(RenderPieces(ps), key) == RawAt(ps, i)
  {
    PickIsFirstVisible(ps, key, false);
    ReadBehind([], ps, key);
    assert [] + RenderPieces(ps) == RenderPieces(ps);
  }

  /** The same behind bare names and their ampersands, which `before` holds. */
  lemma {:induction false} ReadBehind(before: seq<byte>, ps: seq<Piece>, key: seq<byte>)
    requires PiecesOk(ps) && EQ !in key && AMP !in key
    requires EQ !in before && (before != [] ==> AMP in before)
    ensures var i := ReaderPick(ps, key, before != []);
            && (i < |ps| ==> ps[i].Whole?)
            && FindRaw(before + RenderPieces(ps), key) == RawAt(ps, i)
    decreases |ps|
  {
    PickIsFirstVisible(ps, key, before != []);
    if ps == [] {
      assert before + RenderPieces(ps) == before;
      NoPairIn(before, key);
    } else {
      assert PieceOk(ps[0]);
      PickStep(ps, key, before != []);
      hide FindRaw, Behind, Raw, SplitPiece, RenderPieces, ReaderPick, Visible;
      match ps[0] {
        case Bare(name) =>
          ReadBare(before, name, ps, key);
          ReadBehind(before + name + [AMP], ps[1..], key);
        case Whole(f) =>
          ReadWhole(before, f, ps, key);
          ReadBehind([], ps[1..], key);
          assert [] + RenderPieces(ps[1..]) == RenderPieces(ps[1..]);
      }
    }
  }

  lemma PickStep(ps: seq<Piece>, key: seq<byte>, hidden: bool)
    requires ps != []
    ensures var i := ReaderPick(ps[1..], key, ps[0].Bare?);
            ReaderPick(ps, key, hidden) == if Visible(ps, 0, key, hidden) then 0 else 1 + i
    ensures Visible(ps, 0, key, hidden) <==> ps[0].Whole? && ps[0].field.name == key && !hidden
  {
  }

  lemma NoPairIn(s: seq<byte>, key: seq<byte>)
    requires EQ !in s
    ensures FindRaw(s, key) == None
  {
    UpToEnd(s, EQ);
  }

  lemma ReadBare(before: seq<byte>, name: seq<byte>, ps: seq<Piece>, key: seq<byte>)
    requires ps != [] && ps[0] == Bare(name) && EQ !in name && EQ !in before
    ensures |ps| == 1 ==> FindRaw(before + RenderPieces(ps), key) == None
                          && FindRaw(before + name + [AMP] + RenderPieces(ps[1..]), key) == None
    ensures |ps| > 1 ==> before + RenderPieces(ps) == (before + name + [AMP]) + RenderPieces(ps[1..])
  {
    hide FindRaw;
    if |ps| == 1 {
      assert before + RenderPieces(ps) == before + name;
      NoPairIn(before + name, key);
      NoPairIn(before + name + [AMP] + RenderPieces(ps[1..]), key);
    }
  }

  lemma ReadWhole(before: seq<byte>, f: Field, ps: seq<Piece>, key: seq<byte>)
    requires ps != [] && ps[0] == Whole(f) && FieldOk(f) && EQ !in before
    requires AMP !in key && (before != [] ==> AMP in before)
    ensures FindRaw(before + RenderPieces(ps), key) ==
            if before == [] && f.name == key then Some(Raw(f.value)) else FindRaw(RenderPieces(ps[1..]), key)
  {
    var name, raw, rest := before + f.name, Raw(f.value), RestOf(ps);
    DecodeRaw(f.value);
    Joined(before, f.name, raw, Behind(rest));
    FindNext(name, raw, rest, key);
    NothingThere([], key);
    assert before == [] ==> name == f.name;
    assert before != [] ==> AMP in name;
    hide FindRaw, Raw, Behind, TokensOk;
  }

  lemma Joined(a: seq<byte>, b: seq<byte>, c: seq<byte>, d: seq<byte>)
    ensures a + ((b + [EQ] + c) + d) == (a + b) + [EQ] + (c + d)
  {
  }

  lemma FindNext(name: seq<byte>, raw: seq<byte>, rest: Option<seq<byte>>, key: seq<byte>)
    requires EQ !in name && AMP !in raw
    ensures FindRaw(name + [EQ] + (raw + Behind(rest)), key) ==
            if name == key then Some(raw) else match rest case None => None case Some(more) => FindRaw(more, key)
  {
    SplitRendered(name, raw, rest);
    hide SplitPiece, Behind;
  }

  // The parser of the URL Standard, section 5.1: empty pieces are skipped, a name alone has the
  // empty value, and names are decoded like values

  predicate Matches(p: Piece, key: seq<byte>) {
    match p
    case Whole(f) => Decode(f.name) == key
    case Bare(name) => name != [] && Decode(name) == key
  }

  function StandardPick(ps: seq<Piece>, key: seq<byte>): (i: nat)
    ensures i <= |ps| && (i < |ps| ==> Matches(ps[i], key))
    ensures forall j :: 0 <= j < i ==> !Matches(ps[j], key)
  {
    if ps == [] || Matches(ps[0], key) then 0 else 1 + StandardPick(ps[1..], key)
  }

  function ValueOf(p: Piece): seq<byte> {
    match p case Whole(f) => Decode(Raw(f.value)) case Bare(_) => []
  }

  function StandardAnswer(ps: seq<Piece>, key: seq<byte>): Option<seq<byte>> {
    var m := StandardPick(ps, key);
    if m < |ps| then Some(ValueOf(ps[m])) else None
  }

  function ReaderAnswer(ps: seq<Piece>, key: seq<byte>): Option<seq<byte>> {
    match FindRaw(RenderPieces(ps), key) case None => None case Some(raw) => Some(Decode(raw))
  }

  /** The first piece the Standard finds for the key, if any, is a pair with its name spelled out
      and no name alone before it. */
  predicate Clear(ps: seq<Piece>, key: seq<byte>) {
    var m := StandardPick(ps, key);
    m < |ps| ==> Visible(ps, m, key, false)
  }

  lemma {:induction false} DecodePlain(s: seq<byte>)
    requires PLUS !in s && PERCENT !in s
    ensures Decode(s) == s
  {
    if s != [] {
      DecodePlain(s[1..]);
      assert s[0] in s && s == [s[0]] + s[1..];
    }
  }

  /** For a key that needs no encoding, the reader takes the Standard's piece if and only if that is
      clear; it then gives the Standard's answer, and otherwise gives it only when a later pair
      happens to have the same value, so never when a single piece is for the key. */
  lemma MeetsTheStandardIff(ps: seq<Piece>, key: seq<byte>)
    requires PiecesOk(ps) && EQ !in key && AMP !in key && PLUS !in key && PERCENT !in key
    ensures ReaderPick(ps, key, false) == StandardPick(ps, key) <==> Clear(ps, key)
    ensures ReaderAnswer(ps, key) == StandardAnswer(ps, key) <==>
            Clear(ps, key) || exists i :: StandardPick(ps, key) < i < |ps| && i == ReaderPick(ps, key, false)
                                          && ValueOf(ps[i]) == ValueOf(ps[StandardPick(ps, key)])
    ensures (forall i, j :: 0 <= i < j < |ps| ==> !Matches(ps[i], key) || !Matches(ps[j], key)) ==>
              (ReaderAnswer(ps, key) == StandardAnswer(ps, key) <==> Clear(ps, key))
  {
    PiecesRead(ps, key);
    DecodePlain(key);
    var i, m := ReaderPick(ps, key, false), StandardPick(ps, key);
    assert i < |ps| ==> Matches(ps[i], key);
    hide Decode, FindRaw, ReaderPick, StandardPick, RenderPieces, Raw;
  }

  /** A piece without an equals sign swallows the pair behind it, which is then not
      found: the reader needs every piece to be a pair. */
  lemma ValuelessPieceHides(piece: seq<byte>, key: seq<byte>, raw: seq<byte>)
    requires EQ !in piece && EQ !in key && AMP !in raw
    ensures FindRaw(piece + [AMP] + key + [EQ] + raw, key) == None
  {
    hide SplitPiece;
    var name := piece + [AMP] + key;
    SplitRendered(name, raw, None);
    assert raw + Behind(None) == raw;
    assert |name| > |key|;
  }

  // ------------------------------------------------------------ the characters themselves

  /** The characters of section 5.1 of the URL Standard. */
  lemma Characters()
    ensures EQ as int == '=' as int && AMP as int == '&' as int
    ensures PLUS as int == '+' as int && PERCENT as int == '%' as int && SPACE as int == ' ' as int
    ensures forall c: byte :: Unreserved(c) <==>
              || '0' as int <= c <= '9' as int || 'A' as int <= c <= 'Z' as int || 'a' as int <= c <= 'z' as int
              || c == '*' as int || c == '-' as int || c == '.' as int || c == '_' as int
  {
  }

  /** For the Standard a name alone is a field with the empty value, and an empty piece is none. */
  lemma NamesAlone(name: seq<byte>)
    requires name != [] && PLUS !in name && PERCENT !in name
    ensures StandardAnswer([Bare(name)], name) == Some([]) && StandardAnswer([Bare([])], []) == None
  {
    DecodePlain(name);
    hide Decode;
  }

  /** An escape is the number its two hexadecimal digits write, high digit first, in either case. */
  lemma EscapesRead(hi: nat, lo: nat, upper: bool, alsoUpper: bool)
    requires hi < 16 && lo < 16
    ensures var x: byte := if hi < 10 then 48 + hi else if upper then 55 + hi else 87 + hi;
            var y: byte := if lo < 10 then 48 + lo else if alsoUpper then 55 + lo else 87 + lo;
            Decode([37, x, y]) == [16 * hi + lo]
  {
    var x: byte := if hi < 10 then 48 + hi else if upper then 55 + hi else 87 + hi;
    var y: byte := if lo < 10 then 48 + lo else if alsoUpper then 55 + lo else 87 + lo;
    assert Hex(x) == hi && Hex(y) == lo;
    assert [37, x, y][3..] == [];
    assert Decode([]) == [];
  }

  /** A plus sign is a blank, and a percent sign without two hexadecimal digits behind it is itself. */
  lemma PlainReads(c: byte, d: byte)
    ensures Decode([43]) == [32]
    ensures !(48 <= c <= 57 || 65 <= c <= 70 || 97 <= c <= 102) ==> Decode([37, c, d]) == [37] + Decode([c, d])
    ensures !(48 <= d <= 57 || 65 <= d <= 70 || 97 <= d <= 102) ==> Decode([37, c, d]) == [37] + Decode([c, d])
  {
    assert [43][1..] == [] && Decode([]) == [];
    assert [37, c, d][1..] == [c, d];
  }
}
