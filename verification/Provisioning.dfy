/** Serial provisioning: the web flasher prints credentials as lines of base64 tokens,
    the device collects lines byte by byte, parses them and stores the credentials. */
module Provisioning {
  import opened Prelude

  const SPACE: byte := 32
  const DASH: byte := 45
  const PAD: byte := 61
  const NL: byte := 10
  const CR: byte := 13

  // ------------------------------------------------------------------ base64

  function Value64(c: byte): (v: int)
    ensures v == -1 || 0 <= v < 64
  {
    if 65 <= c <= 90 then c - 65
    else if 97 <= c <= 122 then c - 97 + 26
    else if 48 <= c <= 57 then c - 48 + 52
    else if c == 43 then 62
    else if c == 47 then 63
    else -1
  }

  /** The alphabet of section 4 of RFC 4648. */
  function Char64(v: nat): (c: byte)
    requires v < 64
    ensures Value64(c) == v && c != PAD && c != DASH && c > SPACE
  {
    if v < 26 then 65 + v else if v < 52 then 97 + v - 26 else if v < 62 then 48 + v - 52 else if v == 62 then 43 else 47
  }

  /** One group of four characters for up to three bytes. */
  function EncodeGroup(b: seq<byte>): (q: seq<byte>)
    requires 1 <= |b| <= 3
    ensures |q| == 4
  {
    var b1, b2 := if |b| > 1 then b[1] else 0, if |b| > 2 then b[2] else 0;
    [Char64(b[0] / 4), Char64(b[0] % 4 * 16 + b1 / 16),
     if |b| > 1 then Char64(b1 % 16 * 4 + b2 / 64) else PAD,
     if |b| > 2 then Char64(b2 % 64) else PAD]
  }

  function Encode(b: seq<byte>): (s: seq<byte>)
    ensures |s| % 4 == 0 && 4 * |b| <= 3 * |s| <= 4 * |b| + 8
  {
    if b == [] then []
    else if |b| <= 3 then EncodeGroup(b)
    else EncodeGroup(b[..3]) + Encode(b[3..])
  }

  /** The flasher's token: a dash stands for nothing. */
  function Token(b: seq<byte>): seq<byte> {
    if b == [] then [DASH] else Encode(b)
  }

  /** Padding at the end only, at most two, and letters before it. */
  predicate GroupOk(q: seq<byte>, pad: nat)
    requires |q| == 4
  {
    && pad <= 2
    && (forall j :: 0 <= j < 4 - pad ==> q[j] != PAD && Value64(q[j]) >= 0)
    && (forall j :: 4 - pad <= j < 4 ==> q[j] == PAD)
  }

  function IsPad(c: byte): (n: nat) {
    if c == PAD then 1 else 0
  }

  function Pads(q: seq<byte>): nat
    requires |q| == 4
  {
    IsPad(q[0]) + IsPad(q[1]) + IsPad(q[2]) + IsPad(q[3])
  }

  function Digit64(c: byte): nat {
    if c == PAD || Value64(c) < 0 then 0 else Value64(c)
  }

  /** The 24 bits of a group. */
  function Triple(q: seq<byte>): (t: nat)
    requires |q| == 4
    ensures t < 0x100_0000
  {
    Digit64(q[0]) * 0x4_0000 + Digit64(q[1]) * 0x1000 + Digit64(q[2]) * 0x40 + Digit64(q[3])
  }

  function TripleBytes(t: nat): (b: seq<byte>)
    requires t < 0x100_0000
    ensures |b| == 3
  {
    [t / 0x1_0000, t / 0x100 % 0x100, t % 0x100]
  }

  function DecodeGroup(q: seq<byte>): Option<seq<byte>>
    requires |q| == 4
  {
    if GroupOk(q, Pads(q)) then Some(TripleBytes(Triple(q))[..3 - Pads(q)]) else None
  }

  function Decode(s: seq<byte>): Option<seq<byte>> {
    if s == [] then Some([])
    else if |s| < 4 then None
    else match (DecodeGroup(s[..4]), Decode(s[4..]))
      case (Some(a), Some(b)) => Some(a + b)
      case _ => None
  }

  /** What the device makes of a token: at most `maxLen` bytes, none of them NUL. */
  function DecodeToken(s: seq<byte>, maxLen: nat): Option<seq<byte>> {
    if s == [DASH] then Some([])
    else if s == [] || |s| % 4 != 0 then None
    else match Decode(s)
      case None => None
      case Some(v) => if |v| <= maxLen && 0 !in v then Some(v) else None
  }

  lemma GroupDigits(b: seq<byte>, b1: byte, b2: byte)
    requires 1 <= |b| <= 3
    requires b1 == (if |b| > 1 then b[1] else 0) && b2 == (if |b| > 2 then b[2] else 0)
    ensures var q := EncodeGroup(b);
            && Pads(q) == 3 - |b| && GroupOk(q, 3 - |b|)
            && Triple(q) == (b[0] / 4) * 0x4_0000 + (b[0] % 4 * 16 + b1 / 16) * 0x1000
                            + (b1 % 16 * 4 + b2 / 64) * 0x40 + b2 % 64
  {
    hide Value64, Char64;
  }

  lemma GroupRoundTrip(b: seq<byte>)
    requires 1 <= |b| <= 3
    ensures DecodeGroup(EncodeGroup(b)) == Some(b)
  {
    var b1, b2 := if |b| > 1 then b[1] else 0, if |b| > 2 then b[2] else 0;
    hide Char64, Pads, Value64, EncodeGroup, Triple, GroupOk, TripleBytes;
    GroupDigits(b, b1, b2);
    SixesAndEights(b[0], b1, b2);
    Octets(b[0], b1, b2);
    FirstBytes(b, b1, b2);
  }

  lemma FirstBytes(b: seq<byte>, b1: byte, b2: byte)
    requires 1 <= |b| <= 3
    requires b1 == (if |b| > 1 then b[1] else 0) && b2 == (if |b| > 2 then b[2] else 0)
    ensures [b[0], b1, b2][..|b|] == b
  {
  }

  lemma SixesAndEights(b0: byte, b1: byte, b2: byte)
    ensures (b0 / 4) * 0x4_0000 + (b0 % 4 * 16 + b1 / 16) * 0x1000 + (b1 % 16 * 4 + b2 / 64) * 0x40 + b2 % 64
            == b0 * 0x1_0000 + b1 * 0x100 + b2
  {
    var x0, y0, x1, y1, x2, y2 := b0 / 4, b0 % 4, b1 / 16, b1 % 16, b2 / 64, b2 % 64;
    assert b0 == 4 * x0 + y0 && b1 == 16 * x1 + y1 && b2 == 64 * x2 + y2;
  }

  lemma Octets(b0: byte, b1: byte, b2: byte)
    ensures TripleBytes(b0 * 0x1_0000 + b1 * 0x100 + b2) == [b0, b1, b2]
  {
    var t := b0 * 0x1_0000 + b1 * 0x100 + b2;
    assert t / 0x1_0000 == b0 && t / 0x100 == b0 * 0x100 + b1;
  }

  /** Decoding inverts encoding, as in section 4 of RFC 4648. */
  lemma {:induction false} Base64RoundTrip(b: seq<byte>)
    ensures Decode(Encode(b)) == Some(b)
  {
    if b == [] {
    } else if |b| <= 3 {
      GroupRoundTrip(b);
      var q := EncodeGroup(b);
      assert q[..4] == q && q[4..] == [];
      assert b + [] == b;
    } else {
      GroupRoundTrip(b[..3]);
      Base64RoundTrip(b[3..]);
      var q, rest := EncodeGroup(b[..3]), Encode(b[3..]);
      assert (q + rest)[..4] == q && (q + rest)[4..] == rest;
      assert b[..3] + b[3..] == b;
    }
  }

  method ReadGroup(s: seq<byte>, at: nat) returns (ok: bool, triple: nat, pad: nat)
    requires at + 4 <= |s|
    ensures ok <==> GroupOk(s[at..at + 4], Pads(s[at..at + 4]))
    ensures ok ==> pad == Pads(s[at..at + 4]) <= 2 && triple == Triple(s[at..at + 4])
  {
    hide Value64;
    ghost var q := s[at..at + 4];
    var vals := new int[4](_ => 0);
    pad, triple, ok := 0, 0, false;
    var j := 0;
    while j < 4
      invariant 0 <= j <= 4 && 0 <= pad <= j
      invariant forall k :: 0 <= k < j ==> vals[k] == Digit64(q[k])
      invariant forall k :: 0 <= k < j - pad ==> q[k] != PAD && Value64(q[k]) >= 0
      invariant forall k :: j - pad <= k < j ==> q[k] == PAD
    {
      var c := s[at + j];
      assert c == q[j];
      if c == PAD {
        vals[j] := 0;
        pad := pad + 1;
      } else {
        if pad != 0 {
          assert q[j - 1] == PAD && q[j] != PAD;
          NotTrailing(q, j - 1);
          return;
        }
        vals[j] := Value64(c);
        if vals[j] < 0 {
          assert q[j] != PAD && Value64(q[j]) < 0;
          return;
        }
      }
      j := j + 1;
    }
    PadsAre(q, pad);
    if pad > 2 {
      return;
    }
    triple := vals[0] * 0x4_0000 + vals[1] * 0x1000 + vals[2] * 0x40 + vals[3];
    ok := true;
  }

  lemma NotTrailing(q: seq<byte>, i: nat)
    requires |q| == 4 && i < 3 && q[i] == PAD && q[i + 1] != PAD
    ensures !GroupOk(q, Pads(q))
  {
  }

  lemma PadsAre(q: seq<byte>, pad: nat)
    requires |q| == 4 && pad <= 4
    requires forall k :: 0 <= k < 4 - pad ==> q[k] != PAD
    requires forall k :: 4 - pad <= k < 4 ==> q[k] == PAD
    ensures Pads(q) == pad
  {
  }

  /** Writes the bytes of one group behind the `start` bytes already decoded; gives up at
      the first byte that is NUL or does not fit. */
  method PutBytes(triple: nat, bytes: nat, out: array<byte>, start: nat, maxLen: nat) returns (ok: bool, len: nat)
    requires triple < 0x100_0000 && bytes <= 3
    requires start <= Min(maxLen, out.Length - 1)
    modifies out
    ensures ok ==> len == start + bytes <= Min(maxLen, out.Length - 1)
    ensures ok ==> out[..len] == old(out[..start]) + TripleBytes(triple)[..bytes]
    ensures ok ==> 0 !in TripleBytes(triple)[..bytes]
    ensures !ok ==> exists j: nat ::
      j < bytes && (start + j >= Min(maxLen, out.Length - 1) || TripleBytes(triple)[j] == 0)
  {
    len := start;
    ghost var all := TripleBytes(triple);
    assert out[..start] + all[..0] == out[..start];
    var j := 0;
    while j < bytes
      invariant 0 <= j <= bytes && len == start + j <= Min(maxLen, out.Length - 1)
      invariant out[..len] == old(out[..start]) + all[..j] && 0 !in all[..j]
    {
      TripleByteAt(triple, j);
      var decoded: byte :=
        if j == 0 then triple / 0x1_0000 else if j == 1 then triple / 0x100 % 0x100 else triple % 0x100;
      if len >= maxLen || len + 1 >= out.Length || decoded == 0 {
        return false, len;
      }
      ghost var before := out[..len];
      hide TripleBytes;
      out[len] := decoded;
      assert out[..len + 1] == before + [decoded];
      assert all[..j + 1] == all[..j] + [decoded];
      len := len + 1;
      j := j + 1;
    }
    ok := true;
  }

  /** A value that a field of `limit` bytes cannot hold as a C string. */
  predicate Spoilt(v: Option<seq<byte>>, limit: int) {
    v.Some? ==> |v.value| > limit || 0 in v.value
  }

  /** Decodes the group at `i` onto the bytes decoded so far, or finds the token spoilt. */
  method AppendGroup(s: seq<byte>, i: nat, out: array<byte>, start: nat, maxLen: nat) returns (ok: bool, len: nat)
    requires i + 4 <= |s| && start <= Min(maxLen, out.Length - 1) && 0 !in out[..start]
    modifies out
    ensures ok ==> len <= Min(maxLen, out.Length - 1) && 0 !in out[..len]
    ensures ok ==> Prepend(out[..len], Decode(s[i + 4..])) == Prepend(old(out[..start]), Decode(s[i..]))
    ensures !ok ==> Spoilt(Prepend(old(out[..start]), Decode(s[i..])), Min(maxLen, out.Length - 1))
  {
    hide GroupOk, Pads, Triple, TripleBytes, Decode;
    len := start;
    ghost var before := out[..start];
    DecodeHead(s, i);
    var good, triple, pad := ReadGroup(s, i);
    if !good {
      return false, start;
    }
    ghost var part, rest := TripleBytes(triple)[..3 - pad], Decode(s[i + 4..]);
    PrependTwice(before, part, rest);
    ok, len := PutBytes(triple, 3 - pad, out, start, maxLen);
    if !ok {
      ghost var j: nat :| j < 3 - pad && (start + j >= Min(maxLen, out.Length - 1) || TripleBytes(triple)[j] == 0);
      assert part[j] == TripleBytes(triple)[j] && (before + part)[start + j] == part[j];
      TooMuch(Prepend(before + part, rest), before + part, rest, start + j, Min(maxLen, out.Length - 1));
    }
  }

  /** Decodes a token into a C string of at most `maxLen` bytes in a buffer `out`. */
  method DecodeInto(s: seq<byte>, out: array<byte>, maxLen: nat) returns (ok: bool, len: nat)
    requires 0 < out.Length
    modifies out
    ensures ok <==> DecodeToken(s, Min(maxLen, out.Length - 1)).Some?
    ensures ok ==> len < out.Length && out[len] == 0
    ensures ok ==> out[..len] == DecodeToken(s, Min(maxLen, out.Length - 1)).value
  {
    ok, len := false, 0;
    if s == [DASH] {
      out[0] := 0;
      return true, 0;
    }
    if |s| == 0 || |s| % 4 != 0 {
      return;
    }
    var i := 0;
    assert s[i..] == s;
    DecodeNothing();
    TokenOf(s, Min(maxLen, out.Length - 1));
    PrependNothing(Decode(s));
    hide Decode, DecodeToken, Spoilt;
    assert out[..0] == [];
    ghost var left: nat := |s| / 4;
    while i < |s|
      invariant i + 4 * left == |s| && 0 <= len <= Min(maxLen, out.Length - 1)
      invariant 0 !in out[..len]
      invariant Decode(s) == Prepend(out[..len], Decode(s[i..]))
    {
      var good;
      good, len := AppendGroup(s, i, out, len, maxLen);
      if !good {
        return;
      }
      i, left := i + 4, left - 1;
    }
    assert s[i..] == [];
    ghost var value := out[..len];
    assert value + [] == value;
    assert Decode(s) == Some(value);
    out[len] := 0;
    assert out[..len] == value;
    ok := true;
  }

  /** How a token with groups in it stands, by what its groups decode to. */
  lemma TokenOf(s: seq<byte>, limit: nat)
    requires s != [DASH] && s != [] && |s| % 4 == 0
    ensures Spoilt(Decode(s), limit) ==> DecodeToken(s, limit) == None
    ensures Decode(s).Some? && |Decode(s).value| <= limit && 0 !in Decode(s).value ==>
              DecodeToken(s, limit) == Decode(s)
  {
    hide Decode;
  }

  lemma DecodeNothing()
    ensures Decode([]) == Some([])
  {
  }

  function Prepend(a: seq<byte>, rest: Option<seq<byte>>): Option<seq<byte>> {
    match rest case None => None case Some(b) => Some(a + b)
  }

  lemma PrependNothing(rest: Option<seq<byte>>)
    ensures Prepend([], rest) == rest
  {
    assert rest.Some? ==> [] + rest.value == rest.value;
  }

  lemma PrependTwice(a: seq<byte>, b: seq<byte>, rest: Option<seq<byte>>)
    ensures Prepend(a, Prepend(b, rest)) == Prepend(a + b, rest)
  {
    assert rest.Some? ==> a + (b + rest.value) == (a + b) + rest.value;
  }

  lemma TripleByteAt(triple: nat, j: nat)
    requires triple < 0x100_0000 && j < 3
    ensures |TripleBytes(triple)| == 3
    ensures TripleBytes(triple)[j] ==
            if j == 0 then triple / 0x1_0000 else if j == 1 then triple / 0x100 % 0x100 else triple % 0x100
  {
  }

  /** The group at `i` contributes its bytes in front of what the rest decodes to. */
  lemma DecodeHead(s: seq<byte>, i: nat)
    requires i + 4 <= |s|
    ensures Decode(s[i..]) ==
            if GroupOk(s[i..i + 4], Pads(s[i..i + 4]))
            then Prepend(TripleBytes(Triple(s[i..i + 4]))[..3 - Pads(s[i..i + 4])], Decode(s[i + 4..]))
            else None
  {
    assert s[i..][..4] == s[i..i + 4];
    assert s[i..][4..] == s[i + 4..];
  }

  /** A byte too many, or a NUL, spoils the whole token. */
  lemma TooMuch(whole: Option<seq<byte>>, head: seq<byte>, rest: Option<seq<byte>>, at: nat, limit: int)
    requires whole == Prepend(head, rest) && at < |head| && (at >= limit || head[at] == 0)
    ensures Spoilt(whole, limit)
  {
    if whole.Some? {
      assert whole.value[at] == head[at];
    }
  }

  /** A token is taken for exactly the values the receiving field can hold. */
  lemma TokenRoundTrip(b: seq<byte>, maxLen: nat)
    ensures DecodeToken(Token(b), maxLen) == (if |b| <= maxLen && 0 !in b then Some(b) else None)
  {
    Base64RoundTrip(b);
    hide Encode, Decode;
  }

  // ------------------------------------------------------------- line parsing

  /** "NBP-PROV1 " and "NBP-NAT1 ". */
  const WIFI_PREFIX: seq<byte> := [78, 66, 80, 45, 80, 82, 79, 86, 49, 32]
  const NAT_PREFIX: seq<byte> := [78, 66, 80, 45, 78, 65, 84, 49, 32]

  predicate StartsWith(s: seq<byte>, prefix: seq<byte>) {
    |prefix| <= |s| && s[..|prefix|] == prefix
  }

  predicate IsSpace(c: byte) {
    c == SPACE || 9 <= c <= 13
  }

  predicate IsHex(c: byte) {
    48 <= c <= 57 || 65 <= c <= 70 || 97 <= c <= 102
  }

  predicate AllHex(s: seq<byte>) {
    forall k :: 0 <= k < |s| ==> IsHex(s[k])
  }

  function AfterSpaces(s: seq<byte>): seq<byte> {
    if s != [] && s[0] == SPACE then AfterSpaces(s[1..]) else s
  }

  function Trimmed(s: seq<byte>): seq<byte> {
    if s != [] && IsSpace(s[|s| - 1]) then Trimmed(s[..|s| - 1]) else s
  }

  datatype Split = Split(word: seq<byte>, rest: seq<byte>)

  /** The next word and what follows the space that ends it; a word no space ends is none. */
  function NextWord(s: seq<byte>): Option<Split> {
    var t := AfterSpaces(s);
    var end := IndexOf(t, SPACE);
    if end == |t| then None else Some(Split(t[..end], t[end + 1..]))
  }

  function LastWord(s: seq<byte>): seq<byte> {
    Trimmed(AfterSpaces(s))
  }

  /** A word and the last word, with the blanks around both removed. */
  function TwoWords(s: seq<byte>): Option<Split> {
    match NextWord(s)
    case None => None
    case Some(Split(word, rest)) => Some(Split(word, LastWord(rest)))
  }

  datatype WifiLine = NotWifi | WifiRejected | StoreWifi(ssid: seq<byte>, psk: seq<byte>)

  predicate PskStores(psk: seq<byte>) {
    && (|psk| == 0 || |psk| >= 8)
    && (|psk| == 64 ==> AllHex(psk))
  }

  function ParseWifi(line: seq<byte>): WifiLine {
    if !StartsWith(line, WIFI_PREFIX) then NotWifi
    else match TwoWords(line[|WIFI_PREFIX|..])
      case None => WifiRejected
      case Some(Split(ssidToken, pskToken)) => WifiFields(ssidToken, pskToken)
  }

  function WifiFields(ssidToken: seq<byte>, pskToken: seq<byte>): WifiLine {
    match (DecodeToken(ssidToken, 32), DecodeToken(pskToken, 64))
    case (Some(ssid), Some(psk)) =>
      if ssid != [] && PskStores(psk) then StoreWifi(ssid, psk) else WifiRejected
    case _ => WifiRejected
  }

  /** None in a field keeps what is stored. */
  datatype NatLine = NotNat | NatRejected | StoreNat(enabled: bool, ssid: Option<seq<byte>>, psk: Option<seq<byte>>)

  /** A field of the NAT line: a dash keeps the old value, a bad token is None. */
  function NatField(token: seq<byte>, maxLen: nat): Option<Option<seq<byte>>> {
    if token == [DASH] then Some(None)
    else match DecodeToken(token, maxLen)
      case None => None
      case Some(v) => Some(Some(v))
  }

  function NatFields(enabled: bool, ssidToken: seq<byte>, pskToken: seq<byte>): NatLine {
    if !enabled then StoreNat(false, None, None)
    else match (NatField(ssidToken, 32), NatField(pskToken, 63))
      case (Some(ssid), Some(psk)) =>
        if psk.Some? && |psk.value| < 8 then NatRejected else StoreNat(true, ssid, psk)
      case _ => NatRejected
  }

  const ONE: seq<byte> := [49]
  const ZERO: seq<byte> := [48]

  function ParseNat(line: seq<byte>): NatLine {
    if !StartsWith(line, NAT_PREFIX) then NotNat
    else NatWords(line[|NAT_PREFIX|..])
  }

  function NatWords(s: seq<byte>): NatLine {
    match NextWord(s)
    case None => NatRejected
    case Some(Split(flag, rest)) =>
      match TwoWords(rest)
      case None => NatRejected
      case Some(Split(ssidToken, pskToken)) =>
        if flag != ONE && flag != ZERO then NatRejected
        else NatFields(flag == ONE, ssidToken, pskToken)
  }

  method SkipSpaces(s: seq<byte>, from: nat) returns (i: nat)
    requires from <= |s|
    ensures from <= i <= |s| && s[i..] == AfterSpaces(s[from..])
  {
    i := from;
    while i < |s| && s[i] == SPACE
      invariant from <= i <= |s| && AfterSpaces(s[i..]) == AfterSpaces(s[from..])
    {
      assert s[i..][1..] == s[i + 1..];
      i := i + 1;
    }
  }

  method TakeWord(s: seq<byte>, from: nat) returns (found: bool, start: nat, end: nat)
    requires from <= |s|
    ensures found ==> start <= end < |s| && NextWord(s[from..]) == Some(Split(s[start..end], s[end + 1..]))
    ensures !found ==> NextWord(s[from..]) == None
  {
    start := SkipSpaces(s, from);
    end := StrChr(s, start, SPACE);
    found := end < |s|;
    assert found ==> s[start..][..end - start] == s[start..end] && s[start..][end - start + 1..] == s[end + 1..];
  }

  method TakeLast(s: seq<byte>, from: nat) returns (start: nat, end: nat)
    requires from <= |s|
    ensures start <= end <= |s| && s[start..end] == LastWord(s[from..])
  {
    start := SkipSpaces(s, from);
    end := |s|;
    assert s[start..end] == s[start..];
    while start < end && IsSpace(s[end - 1])
      invariant start <= end <= |s| && Trimmed(s[start..end]) == Trimmed(s[start..])
    {
      ghost var t := s[start..end];
      assert t[|t| - 1] == s[end - 1] && t[..|t| - 1] == s[start..end - 1];
      end := end - 1;
    }
    ghost var t := s[start..end];
    assert t != [] ==> t[|t| - 1] == s[end - 1];
  }

  method IsHexString(s: array<byte>, len: nat) returns (yes: bool)
    requires len <= s.Length
    ensures yes <==> AllHex(s[..len])
  {
    var i := 0;
    while i < len
      invariant 0 <= i <= len && forall k :: 0 <= k < i ==> IsHex(s[k])
    {
      if !IsHex(s[i]) {
        assert s[..len][i] == s[i];
        return false;
      }
      i := i + 1;
    }
    return true;
  }

  method TakeTwo(s: seq<byte>, from: nat) returns (found: bool, start: nat, end: nat, start2: nat, end2: nat)
    requires from <= |s|
    ensures found ==> start <= end <= |s| && start2 <= end2 <= |s|
    ensures TwoWords(s[from..]) == if found then Some(Split(s[start..end], s[start2..end2])) else None
  {
    hide NextWord, LastWord;
    start2, end2 := 0, 0;
    found, start, end := TakeWord(s, from);
    if found {
      start2, end2 := TakeLast(s, end + 1);
    }
  }

  method HandleWifiLine(line: seq<byte>) returns (r: WifiLine)
    ensures r == ParseWifi(line)
  {
    if !(|WIFI_PREFIX| <= |line| && line[..|WIFI_PREFIX|] == WIFI_PREFIX) {
      return NotWifi;
    }
    hide TwoWords, WifiFields;
    var found, start, end, start2, end2 := TakeTwo(line, |WIFI_PREFIX|);
    if !found {
      return WifiRejected;
    }
    r := StoreWifiFields(line[start..end], line[start2..end2]);
  }

  method StoreWifiFields(ssidToken: seq<byte>, pskToken: seq<byte>) returns (r: WifiLine)
    ensures r == WifiFields(ssidToken, pskToken)
  {
    hide DecodeToken;
    var ssid, psk := new byte[33](_ => 0), new byte[65](_ => 0);
    var ok, ssidLen := DecodeInto(ssidToken, ssid, 32);
    if !ok || ssidLen == 0 {
      return WifiRejected;
    }
    var pskLen;
    ok, pskLen := DecodeInto(pskToken, psk, 64);
    if !ok || 0 < pskLen < 8 {
      return WifiRejected;
    }
    if pskLen == 64 {
      var hex := IsHexString(psk, pskLen);
      if !hex {
        return WifiRejected;
      }
    }
    r := StoreWifi(ssid[..ssidLen], psk[..pskLen]);
  }

  method HandleNatLine(line: seq<byte>) returns (r: NatLine)
    ensures r == ParseNat(line)
  {
    if !(|NAT_PREFIX| <= |line| && line[..|NAT_PREFIX|] == NAT_PREFIX) {
      return NotNat;
    }
    hide NatWords;
    r := ReadNatWords(line, |NAT_PREFIX|);
  }

  method ReadNatWords(line: seq<byte>, from: nat) returns (r: NatLine)
    requires from <= |line|
    ensures r == NatWords(line[from..])
  {
    hide TwoWords, NextWord, NatFields;
    var found, flagStart, flagEnd := TakeWord(line, from);
    if !found {
      return NatRejected;
    }
    ghost var flag := line[flagStart..flagEnd];
    assert flag != [] ==> flag[0] == line[flagStart];
    var start, end, start2, end2;
    found, start, end, start2, end2 := TakeTwo(line, flagEnd + 1);
    if !found {
      return NatRejected;
    }
    if flagEnd - flagStart != 1 || (line[flagStart] != 48 && line[flagStart] != 49) {
      return NatRejected;
    }
    assert flag == [line[flagStart]];
    r := StoreNatFields(line[flagStart] == 49, line[start..end], line[start2..end2]);
  }

  method StoreNatFields(enabled: bool, ssidToken: seq<byte>, pskToken: seq<byte>) returns (r: NatLine)
    ensures r == NatFields(enabled, ssidToken, pskToken)
  {
    hide DecodeToken;
    var updateSsid := enabled && ssidToken != [DASH];
    var updatePsk := enabled && pskToken != [DASH];
    var ssid, psk := new byte[33](_ => 0), new byte[64](_ => 0);
    var ok, ssidLen, pskLen := true, 0, 0;
    if updateSsid {
      ok, ssidLen := DecodeInto(ssidToken, ssid, 32);
      if !ok {
        return NatRejected;
      }
    }
    if updatePsk {
      ok, pskLen := DecodeInto(pskToken, psk, 63);
      if !ok || pskLen < 8 {
        return NatRejected;
      }
    }
    r := StoreNat(enabled, if updateSsid then Some(ssid[..ssidLen]) else None,
                  if updatePsk then Some(psk[..pskLen]) else None);
  }

  // ------------------------------------------------------------ the characters themselves

  /** The alphabet in order, sixteen characters a row, and nothing else has a value. */
  lemma Alphabet(c: byte, v: nat)
    requires v < 64
    ensures Char64(v) as int ==
            ["ABCDEFGHIJKLMNOP", "QRSTUVWXYZabcdef", "ghijklmnopqrstuv", "wxyz0123456789+/"][v / 16][v % 16] as int
    ensures Value64(c) == v <==> c == Char64(v)
    ensures PAD as int == '=' as int && DASH as int == '-' as int && SPACE as int == ' ' as int
  {
    hide Value64;
    OneValue(c, v);
    hide Char64;
    var r, k := v / 16, v % 16;
    assert v == 16 * r + k;
    match r {
      case 0 => FirstRow(v, k);
      case 1 => SecondRow(v, k);
      case 2 => ThirdRow(v, k);
      case 3 => FourthRow(v, k);
    }
  }

  lemma FirstRow(v: nat, k: nat)
    requires k < 16 && v == k
    ensures Char64(v) as int == "ABCDEFGHIJKLMNOP"[k] as int
  {
  }

  lemma SecondRow(v: nat, k: nat)
    requires k < 16 && v == 16 + k
    ensures Char64(v) as int == "QRSTUVWXYZabcdef"[k] as int
  {
  }

  lemma ThirdRow(v: nat, k: nat)
    requires k < 16 && v == 32 + k
    ensures Char64(v) as int == "ghijklmnopqrstuv"[k] as int
  {
  }

  lemma FourthRow(v: nat, k: nat)
    requires k < 16 && v == 48 + k
    ensures Char64(v) as int == "wxyz0123456789+/"[k] as int
  {
  }

  lemma OneValue(c: byte, v: nat)
    requires v < 64
    ensures Value64(c) == v <==> c == Char64(v)
  {
  }

  /** Three bytes are a number of 24 bits, high byte first, written in four digits of six bits, high digit
      first; fewer bytes leave out the digits that would hold nothing of them. */
  lemma GroupsOfSix(b0: byte, b1: byte, b2: byte)
    ensures var n := b0 as int * 0x1_0000 + b1 as int * 0x100 + b2;
            Encode([b0, b1, b2]) ==
            [Char64(n / 0x4_0000), Char64(n / 0x1000 % 64), Char64(n / 64 % 64), Char64(n % 64)]
    ensures var n := b0 as int * 0x1_0000 + b1 as int * 0x100;
            Encode([b0, b1]) == [Char64(n / 0x4_0000), Char64(n / 0x1000 % 64), Char64(n / 64 % 64), PAD]
    ensures var n := b0 as int * 0x1_0000;
            Encode([b0]) == [Char64(n / 0x4_0000), Char64(n / 0x1000 % 64), PAD, PAD]
  {
    hide Char64, Encode, EncodeGroup;
    ThreeBytes(b0, b1, b2);
    TwoBytes(b0, b1);
    OneByte(b0);
  }

  lemma ThreeBytes(b0: byte, b1: byte, b2: byte)
    ensures var n := b0 as int * 0x1_0000 + b1 as int * 0x100 + b2;
            Encode([b0, b1, b2]) ==
            [Char64(n / 0x4_0000), Char64(n / 0x1000 % 64), Char64(n / 64 % 64), Char64(n % 64)]
  {
    hide Char64;
    SixBits(b0, b1, b2);
    assert Encode([b0, b1, b2]) == EncodeGroup([b0, b1, b2]);
  }

  lemma TwoBytes(b0: byte, b1: byte)
    ensures var n := b0 as int * 0x1_0000 + b1 as int * 0x100;
            Encode([b0, b1]) == [Char64(n / 0x4_0000), Char64(n / 0x1000 % 64), Char64(n / 64 % 64), PAD]
  {
    hide Char64;
    SixBits(b0, b1, 0);
    assert Encode([b0, b1]) == EncodeGroup([b0, b1]);
  }

  lemma OneByte(b0: byte)
    ensures var n := b0 as int * 0x1_0000;
            Encode([b0]) == [Char64(n / 0x4_0000), Char64(n / 0x1000 % 64), PAD, PAD]
  {
    hide Char64;
    SixBits(b0, 0, 0);
    assert Encode([b0]) == EncodeGroup([b0]);
  }

  lemma SixBits(b0: byte, b1: byte, b2: byte)
    ensures var n := b0 as int * 0x1_0000 + b1 as int * 0x100 + b2;
            && n / 0x4_0000 == b0 / 4 && n / 0x1000 % 64 == b0 % 4 * 16 + b1 / 16
            && n / 64 % 64 == b1 % 16 * 4 + b2 / 64 && n % 64 == b2 % 64
  {
    var x0, y0, x1, y1, x2, y2 := b0 / 4, b0 % 4, b1 / 16, b1 % 16, b2 / 64, b2 % 64;
    assert b0 == 4 * x0 + y0 && b1 == 16 * x1 + y1 && b2 == 64 * x2 + y2;
    HighDigit(x0, 0x1_0000 * y0 + 0x1000 * x1 + 0x100 * y1 + 64 * x2 + y2);
    SecondDigit(x0, 16 * y0 + x1, 0x100 * y1 + 64 * x2 + y2);
    ThirdDigit(64 * x0 + 16 * y0 + x1, 4 * y1 + x2, y2);
  }

  lemma HighDigit(x: nat, rest: nat)
    requires rest < 0x4_0000
    ensures (0x4_0000 * x + rest) / 0x4_0000 == x
  {
  }

  lemma SecondDigit(x: nat, y: nat, rest: nat)
    requires y < 64 && rest < 0x1000
    ensures (0x4_0000 * x + 0x1000 * y + rest) / 0x1000 % 64 == y
  {
    assert (0x4_0000 * x + 0x1000 * y + rest) / 0x1000 == 64 * x + y;
  }

  lemma ThirdDigit(x: nat, y: nat, z: nat)
    requires y < 64 && z < 64
    ensures (0x1000 * x + 64 * y + z) / 64 % 64 == y && (0x1000 * x + 64 * y + z) % 64 == z
  {
    assert (0x1000 * x + 64 * y + z) / 64 == 64 * x + y;
  }

  /** A group is accepted exactly when it is four letters of the alphabet, or three and one padding sign,
      or two and two. */
  lemma GroupAccepted(q: seq<byte>)
    requires |q| == 4
    ensures DecodeGroup(q).Some? <==>
            && Value64(q[0]) >= 0 && Value64(q[1]) >= 0
            && (|| (Value64(q[2]) >= 0 && (Value64(q[3]) >= 0 || q[3] == PAD))
                || (q[2] == PAD && q[3] == PAD))
    ensures DecodeGroup(q).Some? ==>
              |DecodeGroup(q).value| == if q[2] == PAD then 1 else if q[3] == PAD then 2 else 3
  {
    assert Value64(PAD) < 0;
    hide Value64, Triple, TripleBytes;
  }

  /** The two prefixes, as printed. */
  lemma Prefixes()
    ensures |WIFI_PREFIX| == 10 && forall i :: 0 <= i < 10 ==> WIFI_PREFIX[i] as int == "NBP-PROV1 "[i] as int
    ensures |NAT_PREFIX| == 9 && forall i :: 0 <= i < 9 ==> NAT_PREFIX[i] as int == "NBP-NAT1 "[i] as int
  {
  }

  // ------------------------------------------------------------ blanks and missing words

  function Blanks(n: nat): (s: seq<byte>)
    ensures |s| == n && forall k :: 0 <= k < n ==> s[k] == SPACE
  {
    seq(n, _ => SPACE)
  }

  predicate AllSpace(s: seq<byte>) {
    forall k :: 0 <= k < |s| ==> s[k] == 32 || 9 <= s[k] <= 13
  }

  lemma {:induction false} BlanksSkipped(n: nat, s: seq<byte>)
    ensures AfterSpaces(Blanks(n) + s) == AfterSpaces(s)
  {
    if n == 0 {
      assert Blanks(n) + s == s;
    } else {
      BlanksSkipped(n - 1, s);
      assert (Blanks(n) + s)[1..] == Blanks(n - 1) + s;
    }
  }

  lemma {:induction false} SpaceTrimmed(s: seq<byte>, tail: seq<byte>)
    requires AllSpace(tail)
    ensures Trimmed(s + tail) == Trimmed(s)
    decreases |tail|
  {
    if tail == [] {
      assert s + tail == s;
    } else {
      hide Trimmed, AllSpace, IsSpace;
      var n := |tail| - 1;
      SpacesPrefix(tail);
      SpaceTrimmed(s, tail[..n]);
      LastApart(s, tail);
      OneTrimmed(s + tail[..n], tail[n]);
    }
  }

  lemma SpacesPrefix(tail: seq<byte>)
    requires AllSpace(tail) && tail != []
    ensures AllSpace(tail[..|tail| - 1]) && IsSpace(tail[|tail| - 1])
  {
  }

  lemma LastApart<T>(s: seq<T>, tail: seq<T>)
    requires tail != []
    ensures s + tail == (s + tail[..|tail| - 1]) + [tail[|tail| - 1]]
  {
  }

  lemma OneTrimmed(s: seq<byte>, c: byte)
    requires IsSpace(c)
    ensures Trimmed(s + [c]) == Trimmed(s)
  {
    assert (s + [c])[..|s|] == s;
  }

  /** Blanks in front of a word, and white space behind the last one, do not count. */
  lemma BlanksDoNotCount(m: nat, n: nat, word: seq<byte>, last: seq<byte>, tail: seq<byte>)
    requires word != [] && (forall k :: 0 <= k < |word| ==> word[k] != SPACE) && AllSpace(tail)
    requires last != [] && last[0] != SPACE
    ensures TwoWords(Blanks(m) + (word + [SPACE] + (Blanks(n) + (last + tail)))) == Some(Split(word, Trimmed(last)))
  {
    var rest := Blanks(n) + (last + tail);
    var s := word + [SPACE] + rest;
    BlanksSkipped(m, s);
    assert s[0] == word[0];
    assert AfterSpaces(s) == s;
    assert forall k :: 0 <= k < |word| ==> s[k] == word[k];
    IndexAt(s, SPACE, |word|);
    assert s[..|word|] == word && s[|word| + 1..] == rest;
    BlanksSkipped(n, last + tail);
    assert (last + tail)[0] == last[0];
    assert AfterSpaces(last + tail) == last + tail;
    SpaceTrimmed(last, tail);
    hide AfterSpaces, Trimmed, Blanks;
  }

  /** A line of the right kind without a blank behind its first word is refused. */
  lemma OneWordIsRefused(word: seq<byte>)
    requires forall k :: 0 <= k < |word| ==> word[k] != SPACE
    ensures ParseWifi(WIFI_PREFIX + word) == WifiRejected && ParseNat(NAT_PREFIX + word) == NatRejected
  {
    IndexAt(word, SPACE, |word|);
    assert AfterSpaces(word) == word;
    assert NextWord(word) == None;
    assert (WIFI_PREFIX + word)[..|WIFI_PREFIX|] == WIFI_PREFIX && (WIFI_PREFIX + word)[|WIFI_PREFIX|..] == word;
    assert (NAT_PREFIX + word)[..|NAT_PREFIX|] == NAT_PREFIX && (NAT_PREFIX + word)[|NAT_PREFIX|..] == word;
    hide NextWord;
  }

  /** Only 0 and 1 switch the SoftAP. */
  lemma OtherFlagsAreRefused(flag: seq<byte>, rest: seq<byte>)
    requires flag != [] && (forall k :: 0 <= k < |flag| ==> flag[k] != SPACE) && flag != [48] && flag != [49]
    ensures NatWords(flag + [SPACE] + rest) == NatRejected
  {
    var s := flag + [SPACE] + rest;
    assert s[0] == flag[0];
    assert AfterSpaces(s) == s;
    assert forall k :: 0 <= k < |flag| ==> s[k] == flag[k];
    IndexAt(s, SPACE, |flag|);
    assert s[..|flag|] == flag && s[|flag| + 1..] == rest;
    assert NextWord(s) == Some(Split(flag, rest));
    hide NextWord, TwoWords, NatFields;
  }

  /** What stands last and is no white space stays. */
  lemma OthersStay(s: seq<byte>)
    requires s != [] && s[|s| - 1] != 32 && !(9 <= s[|s| - 1] <= 13)
    ensures Trimmed(s) == s
  {
  }

  /** The four characters from `j` on are an accepted group, if there are four. */
  predicate GroupAt(s: seq<byte>, j: nat) {
    j + 4 <= |s| ==> DecodeGroup(s[j..j + 4]).Some?
  }

  ghost predicate GroupsAccepted(s: seq<byte>) {
    forall j: nat :: j % 4 == 0 ==> GroupAt(s, j)
  }

  lemma GroupFurther(s: seq<byte>, j: nat)
    requires |s| >= 4
    ensures GroupAt(s[4..], j) == GroupAt(s, j + 4)
  {
    if j + 8 <= |s| {
      assert s[4..][j..j + 4] == s[j + 4..j + 8];
    }
    hide DecodeGroup;
  }

  lemma GroupsAcceptedStep(s: seq<byte>)
    requires |s| >= 4
    ensures GroupsAccepted(s) <==> DecodeGroup(s[..4]).Some? && GroupsAccepted(s[4..])
  {
    assert s[0..4] == s[..4];
    assert GroupAt(s, 0) <==> DecodeGroup(s[..4]).Some?;
    hide DecodeGroup, GroupAt;
    if GroupsAccepted(s) {
      forall j: nat | j % 4 == 0 ensures GroupAt(s[4..], j) {
        GroupFurther(s, j);
      }
    }
    if GroupAt(s, 0) && GroupsAccepted(s[4..]) {
      forall j: nat | j % 4 == 0 ensures GroupAt(s, j) {
        if j > 0 {
          GroupFurther(s, j - 4);
        }
      }
    }
  }

  lemma {:induction false} DecodeIffGroups(s: seq<byte>)
    requires |s| % 4 == 0
    ensures Decode(s).Some? <==> GroupsAccepted(s)
  {
    if s != [] {
      DecodeIffGroups(s[4..]);
      GroupsAcceptedStep(s);
      hide DecodeGroup, GroupsAccepted;
    }
  }

  /** A token is taken if and only if it is a dash, or whole groups of four that are each accepted and come
      to at most `maxLen` bytes without a NUL. */
  lemma TokenAccepted(s: seq<byte>, maxLen: nat)
    ensures DecodeToken(s, maxLen).Some? <==>
            || s == [45]
            || (&& |s| >= 4 && |s| % 4 == 0 && GroupsAccepted(s)
                && Decode(s).Some? && |Decode(s).value| <= maxLen
                && forall k :: 0 <= k < |Decode(s).value| ==> Decode(s).value[k] != 0)
  {
    if s != [] && |s| % 4 == 0 {
      DecodeIffGroups(s);
    }
    hide Decode, GroupsAccepted;
  }
}
