/** The console of the provisioning window: bytes in, stored credentials and acknowledgements
    out, and what the web flasher's lines do to it. */
module SerialConsole {
  import opened Prelude
  import opened Provisioning

  const LINE_CAP := 512

  /** "NBP-PROV-OK\n" and "NBP-NAT-OK\n". */
  const WIFI_ACK: seq<byte> := [78, 66, 80, 45, 80, 82, 79, 86, 45, 79, 75, 10]
  const NAT_ACK: seq<byte> := [78, 66, 80, 45, 78, 65, 84, 45, 79, 75, 10]

  datatype Creds = Creds(ssid: seq<byte>, psk: seq<byte>)

  /** What survives a line: the stored settings, the bytes sent back, and whether the chip restarted. */
  datatype Settings = Settings(wifi: Option<Creds>, apEnabled: bool, apSsid: seq<byte>, apPsk: seq<byte>,
                               sent: seq<byte>, restarted: bool)

  datatype Console = Console(line: seq<byte>, dev: Settings)

  function CString(s: seq<byte>): seq<byte> {
    s[..IndexOf(s, 0)]
  }

  function Or<T>(o: Option<T>, otherwise: T): T {
    if o.Some? then o.value else otherwise
  }

  function Handle(line: seq<byte>, d: Settings): Settings {
    match ParseNat(line)
    case StoreNat(enabled, ssid, psk) =>
      d.(apEnabled := enabled, apSsid := Or(ssid, d.apSsid), apPsk := Or(psk, d.apPsk), sent := d.sent + NAT_ACK)
    case NatRejected => d
    case NotNat =>
      match ParseWifi(line)
      case StoreWifi(ssid, psk) =>
        d.(wifi := Some(Creds(ssid, psk)), sent := d.sent + WIFI_ACK, restarted := true)
      case _ => d
  }

  /** One byte from the port. A chip that has restarted reads no more of it. */
  function Feed(c: Console, b: byte): Console {
    if c.dev.restarted || b == CR then c
    else if b == NL then Console([], Handle(CString(c.line), c.dev))
    else if |c.line| + 1 < LINE_CAP then c.(line := c.line + [b])
    else c.(line := [])
  }

  function FeedAll(c: Console, bytes: seq<byte>): Console
    decreases |bytes|
  {
    if bytes == [] then c else FeedAll(Feed(c, bytes[0]), bytes[1..])
  }

  lemma {:induction false} FeedAppend(c: Console, a: seq<byte>, b: seq<byte>)
    ensures FeedAll(c, a + b) == FeedAll(FeedAll(c, a), b)
    decreases |a|
  {
    if a == [] {
      assert a + b == b;
    } else {
      assert (a + b)[1..] == a[1..] + b;
      FeedAppend(Feed(c, a[0]), a[1..], b);
    }
  }

  // ------------------------------------------------------------- the receiver

  /** The device: its stored settings and its side of the wire. */
  class Device {
    var wifi: Option<Creds>
    var apEnabled: bool
    var apSsid: seq<byte>
    var apPsk: seq<byte>
    var sent: seq<byte>
    var restarted: bool

    function View(): Settings
      reads this
    {
      Settings(wifi, apEnabled, apSsid, apPsk, sent, restarted)
    }

    method HandleLine(line: seq<byte>)
      modifies this
      ensures View() == Handle(line, old(View()))
    {
      hide ParseNat, ParseWifi;
      var natLine := HandleNatLine(line);
      match natLine {
        case StoreNat(enabled, ssid, psk) =>
          apEnabled := enabled;
          if ssid.Some? {
            apSsid := ssid.value;
          }
          if psk.Some? {
            apPsk := psk.value;
          }
          sent := sent + NAT_ACK;
        case NatRejected =>
        case NotNat =>
          var wifiLine := HandleWifiLine(line);
          if wifiLine.StoreWifi? {
            wifi := Some(Creds(wifiLine.ssid, wifiLine.psk));
            sent := sent + WIFI_ACK;
            restarted := true;
          }
      }
    }
  }

  class RxLine {
    var data: array<byte>
    var len: nat

    predicate Valid()
      reads this
    {
      data.Length == LINE_CAP && len < LINE_CAP
    }

    function Contents(): (s: seq<byte>)
      reads this, data
      requires Valid()
    {
      data[..len]
    }

    constructor ()
      ensures Valid() && fresh(data) && Contents() == []
    {
      data := new byte[LINE_CAP](_ => 0);
      len := 0;
    }

    method AppendRx(b: byte, dev: Device)
      requires Valid() && !dev.restarted
      modifies this`len, data, dev
      ensures Valid() && data == old(data)
      ensures Console(Contents(), dev.View()) == old(Feed(Console(Contents(), dev.View()), b))
    {
      if b == CR {
        return;
      }
      if b == NL {
        ghost var text := data[..len];
        data[len] := 0;
        assert data[..len] == text;
        var end := StrChr(data[..], 0, 0);
        StrLen(data[..], text);
        dev.HandleLine(data[..end]);
        len := 0;
        data[0] := 0;
        return;
      }
      if len + 1 < data.Length {
        ghost var text := data[..len];
        data[len] := b;
        assert data[..len + 1] == text + [b];
        len := len + 1;
      } else {
        len := 0;
        data[0] := 0;
      }
    }
  }

  /** The C string in a buffer is that of the text before the terminator put behind it. */
  lemma StrLen(data: seq<byte>, text: seq<byte>)
    requires |text| < |data| && data[..|text|] == text && data[|text|] == 0
    ensures IndexOf(data, 0) == IndexOf(text, 0) && data[..IndexOf(data, 0)] == CString(text)
    ensures data[0..] == data
  {
    var i := IndexOf(text, 0);
    assert forall k :: 0 <= k < |text| ==> data[k] == text[k];
    IndexAt(data, 0, i);
  }

  // -------------------------------------------------------------- the flasher

  /** What the form on the page holds. */
  datatype Config = Config(sta: Option<Creds>, apEnabled: bool, apSsid: seq<byte>, apPsk: seq<byte>)

  predicate PasswordValid(psk: seq<byte>, maxBytes: nat, hex64: bool) {
    && (|psk| == 0 || |psk| >= 8)
    && |psk| <= maxBytes
    && (hex64 && |psk| == 64 ==> AllHex(psk))
  }

  predicate StaValid(c: Creds) {
    c.ssid != [] && |c.ssid| <= 32 && PasswordValid(c.psk, 64, true)
  }

  predicate ApValid(ssid: seq<byte>, psk: seq<byte>) {
    |ssid| <= 32 && PasswordValid(psk, 63, false)
  }

  /** The form is accepted. */
  predicate ConfigValid(c: Config) {
    && (c.sta.Some? ==> StaValid(c.sta.value))
    && (c.apEnabled ==> ApValid(c.apSsid, c.apPsk))
  }

  /** A C string carries it: no NUL inside. */
  predicate NulFree(c: Config) {
    && (c.sta.Some? ==> 0 !in c.sta.value.ssid && 0 !in c.sta.value.psk)
    && (c.apEnabled ==> 0 !in c.apSsid && 0 !in c.apPsk)
  }

  function WifiText(c: Creds): seq<byte> {
    WIFI_PREFIX + (Token(c.ssid) + [SPACE] + Token(c.psk))
  }

  function NatText(enabled: bool, ssid: seq<byte>, psk: seq<byte>): seq<byte> {
    NAT_PREFIX + ([if enabled then 49 else 48] + [SPACE] + (Token(ssid) + [SPACE] + Token(psk)))
  }

  function ApText(c: Config): seq<byte> {
    NatText(c.apEnabled, if c.apEnabled then c.apSsid else [], if c.apEnabled then c.apPsk else [])
  }

  function Printed(c: Config): seq<byte> {
    ApText(c) + [NL] + if c.sta.Some? then WifiText(c.sta.value) + [NL] else []
  }

  /** No blanks, controls or terminators in it. */
  predicate Plain(s: seq<byte>) {
    forall k :: 0 <= k < |s| ==> s[k] > SPACE
  }

  lemma {:induction false} EncodePlain(b: seq<byte>)
    ensures Plain(Encode(b))
  {
    if b == [] {
    } else if |b| <= 3 {
      GroupPlain(b);
    } else {
      GroupPlain(b[..3]);
      EncodePlain(b[3..]);
      assert Encode(b) == EncodeGroup(b[..3]) + Encode(b[3..]);
    }
  }

  lemma GroupPlain(b: seq<byte>)
    requires 1 <= |b| <= 3
    ensures Plain(EncodeGroup(b))
  {
  }

  lemma TokenPlain(b: seq<byte>)
    ensures Token(b) != [] && Plain(Token(b))
    ensures 3 * |Token(b)| <= 4 * |b| + 8
    ensures Token(b) == [DASH] <==> b == []
  {
    EncodePlain(b);
  }

  lemma {:induction false} TrimPlain(s: seq<byte>)
    requires Plain(s)
    ensures Trimmed(s) == s
  {
  }

  lemma WordOf(w: seq<byte>, rest: seq<byte>)
    requires w != [] && Plain(w)
    ensures NextWord(w + [SPACE] + rest) == Some(Split(w, rest))
  {
    var s := w + [SPACE] + rest;
    assert s[0] == w[0];
    assert forall k :: 0 <= k < |w| ==> s[k] == w[k];
    IndexAt(s, SPACE, |w|);
    assert s[..|w|] == w && s[|w| + 1..] == rest;
  }

  lemma TwoWordsOf(v: seq<byte>, w: seq<byte>)
    requires v != [] && Plain(v) && Plain(w)
    ensures TwoWords(v + [SPACE] + w) == Some(Split(v, w))
  {
    WordOf(v, w);
    TrimPlain(w);
    hide NextWord;
  }

  /** The device stores a printed WiFi line exactly when the flasher accepts the form and no
      field has a NUL in it, and then it stores exactly the bytes of the form. */
  lemma WifiRoundTrip(c: Creds)
    ensures ParseWifi(WifiText(c)) ==
            if StaValid(c) && 0 !in c.ssid && 0 !in c.psk then StoreWifi(c.ssid, c.psk) else WifiRejected
  {
    var line := WifiText(c);
    var rest := Token(c.ssid) + [SPACE] + Token(c.psk);
    AfterPrefix(WIFI_PREFIX, rest);
    TokenPlain(c.ssid);
    TokenPlain(c.psk);
    TwoWordsOf(Token(c.ssid), Token(c.psk));
    hide Token, DecodeToken, TwoWords, Plain;
    TokenRoundTrip(c.ssid, 32);
    TokenRoundTrip(c.psk, 64);
  }

  /** The same for the SoftAP line, where an empty field keeps what is stored. */
  lemma NatRoundTrip(enabled: bool, ssid: seq<byte>, psk: seq<byte>)
    ensures ParseNat(NatText(enabled, ssid, psk)) ==
            if !enabled then StoreNat(false, None, None)
            else if ApValid(ssid, psk) && 0 !in ssid && 0 !in psk then
              StoreNat(true, if ssid == [] then None else Some(ssid), if psk == [] then None else Some(psk))
            else NatRejected
  {
    NatWordsOf(enabled, ssid, psk);
    TokenPlain(ssid);
    TokenPlain(psk);
    hide ParseNat, NatText, Token, DecodeToken, Plain;
    TokenRoundTrip(ssid, 32);
    TokenRoundTrip(psk, 63);
  }

  lemma AfterPrefix(prefix: seq<byte>, rest: seq<byte>)
    ensures StartsWith(prefix + rest, prefix) && (prefix + rest)[|prefix|..] == rest
  {
  }

  lemma NatWordsOf(enabled: bool, ssid: seq<byte>, psk: seq<byte>)
    ensures ParseNat(NatText(enabled, ssid, psk)) == NatFields(enabled, Token(ssid), Token(psk))
  {
    var line := NatText(enabled, ssid, psk);
    var flag: seq<byte> := [if enabled then 49 else 48];
    var fields := Token(ssid) + [SPACE] + Token(psk);
    var rest := flag + [SPACE] + fields;
    AfterPrefix(NAT_PREFIX, rest);
    TokenPlain(ssid);
    TokenPlain(psk);
    WordOf(flag, fields);
    TwoWordsOf(Token(ssid), Token(psk));
    hide Token, TwoWords, NextWord, NatFields, Plain, StartsWith;
  }

  // ------------------------------------------------- byte by byte to the device

  /** A line's text in the buffer: printable, so no byte of it is acted on. */
  lemma {:induction false} FeedText(c: Console, text: seq<byte>)
    requires !c.dev.restarted && |c.line| + |text| < LINE_CAP
    requires forall k :: 0 <= k < |text| ==> text[k] != NL && text[k] != CR
    ensures FeedAll(c, text) == c.(line := c.line + text)
    decreases |text|
  {
    if text == [] {
      assert c.line + text == c.line;
    } else {
      FeedText(Feed(c, text[0]), text[1..]);
      assert c.line + [text[0]] + text[1..] == c.line + text;
    }
  }

  /** From an empty buffer, a whole line has exactly the effect of handling its text. */
  lemma FeedLine(d: Settings, text: seq<byte>)
    requires !d.restarted && |text| < LINE_CAP
    requires forall k :: 0 <= k < |text| ==> text[k] != NL && text[k] != CR
    ensures FeedAll(Console([], d), text + [NL]) == Console([], Handle(CString(text), d))
  {
    var c := Console([], d);
    FeedAppend(c, text, [NL]);
    FeedText(c, text);
    assert [] + text == text;
    hide Handle;
    assert FeedAll(Feed(Console(text, d), NL), [NL][1..]) == Feed(Console(text, d), NL);
  }

  lemma PlainLine(text: seq<byte>)
    requires forall k :: 0 <= k < |text| ==> text[k] >= SPACE
    ensures CString(text) == text
  {
    IndexAt(text, 0, |text|);
  }

  /** A printed line is a whole line: no byte below a blank in it, and it fits the buffer. */
  predicate Fits(text: seq<byte>) {
    |text| < LINE_CAP && forall k :: 0 <= k < |text| ==> text[k] >= SPACE
  }

  lemma WifiTextFits(c: Creds)
    requires StaValid(c)
    ensures Fits(WifiText(c))
  {
    TokenPlain(c.ssid);
    TokenPlain(c.psk);
    hide Token;
  }

  lemma ApTextFits(c: Config)
    requires ConfigValid(c)
    ensures Fits(ApText(c))
  {
    TokenPlain(if c.apEnabled then c.apSsid else []);
    TokenPlain(if c.apEnabled then c.apPsk else []);
    hide Token;
  }

  lemma FeedPrinted(d: Settings, text: seq<byte>)
    requires !d.restarted && Fits(text)
    ensures FeedAll(Console([], d), text + [NL]) == Console([], Handle(text, d))
  {
    FeedLine(d, text);
    PlainLine(text);
  }

  /** The settings a form asks for: an empty SoftAP field, or a SoftAP switched off, keeps the old name. */
  function Wanted(c: Config, d: Settings): Settings {
    var ap := d.(apEnabled := c.apEnabled,
                 apSsid := if c.apEnabled && c.apSsid != [] then c.apSsid else d.apSsid,
                 apPsk := if c.apEnabled && c.apPsk != [] then c.apPsk else d.apPsk,
                 sent := d.sent + NAT_ACK);
    if c.sta == None then ap
    else ap.(wifi := c.sta, sent := d.sent + NAT_ACK + WIFI_ACK, restarted := true)
  }

  lemma HandleAp(c: Config, d: Settings)
    requires ConfigValid(c) && NulFree(c)
    ensures Handle(ApText(c), d) == Wanted(c.(sta := None), d)
  {
    NatRoundTrip(c.apEnabled, if c.apEnabled then c.apSsid else [], if c.apEnabled then c.apPsk else []);
    hide ParseNat, ParseWifi, NatText;
  }

  lemma HandleWifi(c: Creds, d: Settings)
    requires StaValid(c) && 0 !in c.ssid && 0 !in c.psk
    ensures Handle(WifiText(c), d) == d.(wifi := Some(c), sent := d.sent + WIFI_ACK, restarted := true)
  {
    WifiRoundTrip(c);
    OtherPrefix(c);
    hide ParseNat, ParseWifi, WifiText;
  }

  lemma OtherPrefix(c: Creds)
    ensures ParseNat(WifiText(c)) == NotNat
  {
    var line := WifiText(c);
    assert line[..|NAT_PREFIX|][4] == line[4] == WIFI_PREFIX[4];
  }

  /** Everything the flasher accepts and a C string can carry, sent byte by byte to a device
      waiting for a line, is stored exactly and acknowledged, and a station change restarts it. */
  lemma ProvisioningRoundTrip(c: Config, d: Settings)
    requires ConfigValid(c) && NulFree(c) && !d.restarted
    ensures FeedAll(Console([], d), Printed(c)) == Console([], Wanted(c, d))
  {
    var ap := Wanted(c.(sta := None), d);
    ApTextFits(c);
    FeedPrinted(d, ApText(c));
    HandleAp(c, d);
    if c.sta.Some? {
      WifiTextFits(c.sta.value);
      FeedPrinted(ap, WifiText(c.sta.value));
      HandleWifi(c.sta.value, ap);
      FeedAppend(Console([], d), ApText(c) + [NL], WifiText(c.sta.value) + [NL]);
    } else {
      assert ApText(c) + [NL] + [] == ApText(c) + [NL];
    }
  }

  /** Sent the other way round, the restart would swallow the SoftAP line: the flasher's order matters. */
  lemma WifiFirstLosesAp(c: Config, d: Settings)
    requires ConfigValid(c) && NulFree(c) && !d.restarted && c.sta.Some?
    ensures FeedAll(Console([], d), WifiText(c.sta.value) + [NL] + (ApText(c) + [NL])) ==
            Console([], d.(wifi := c.sta, sent := d.sent + WIFI_ACK, restarted := true))
  {
    var wifi := WifiText(c.sta.value) + [NL];
    WifiTextFits(c.sta.value);
    FeedPrinted(d, WifiText(c.sta.value));
    HandleWifi(c.sta.value, d);
    FeedAppend(Console([], d), wifi, ApText(c) + [NL]);
    Deaf(FeedAll(Console([], d), wifi), ApText(c) + [NL]);
  }

  lemma {:induction false} Deaf(c: Console, bytes: seq<byte>)
    requires c.dev.restarted
    ensures FeedAll(c, bytes) == c
  {
    if bytes != [] {
      Deaf(c, bytes[1..]);
    }
  }

  // ------------------------------------------------------------ the rules themselves

  /** A station's name has 1 to 32 bytes; its password none or 8 to 64, the last only hexadecimal. The
      SoftAP's has at most 32, its password none or 8 to 63. */
  lemma LengthRules(ssid: seq<byte>, psk: seq<byte>)
    ensures StaValid(Creds(ssid, psk)) <==>
            && 1 <= |ssid| <= 32 && (|psk| == 0 || 8 <= |psk| <= 64)
            && (|psk| == 64 ==> forall k :: 0 <= k < 64 ==>
                  (48 <= psk[k] <= 57 || 65 <= psk[k] <= 70 || 97 <= psk[k] <= 102))
    ensures ApValid(ssid, psk) <==> |ssid| <= 32 && (|psk| == 0 || 8 <= |psk| <= 63)
  {
  }

  /** The acknowledgements, as sent. */
  lemma Acknowledgements()
    ensures |WIFI_ACK| == 12 && forall i :: 0 <= i < 12 ==> WIFI_ACK[i] as int == "NBP-PROV-OK\n"[i] as int
    ensures |NAT_ACK| == 11 && forall i :: 0 <= i < 11 ==> NAT_ACK[i] as int == "NBP-NAT-OK\n"[i] as int
  {
  }

  /** The line "NBP-PROV1 aG9tZQ== cGFzc3dvcmQx" for the name "home" and the password "password1". */
  lemma LineExample()
    ensures WifiText(Creds([104, 111, 109, 101], [112, 97, 115, 115, 119, 111, 114, 100, 49])) ==
            [78, 66, 80, 45, 80, 82, 79, 86, 49, 32] + [97, 71, 57, 116, 90, 81, 61, 61] + [32]
            + [99, 71, 70, 122, 99, 51, 100, 118, 99, 109, 81, 120]
  {
    HomeToken();
    PasswordToken();
    hide Encode;
  }

  lemma HomeToken()
    ensures Encode([104, 111, 109, 101]) == [97, 71, 57, 116, 90, 81, 61, 61]
  {
    assert EncodeGroup([104, 111, 109]) == [97, 71, 57, 116];
    assert EncodeGroup([101]) == [90, 81, 61, 61];
    hide EncodeGroup;
    TwoGroups([104, 111, 109], [101]);
    hide Encode;
    assert [104, 111, 109] + [101] == [104, 111, 109, 101];
  }

  lemma TwoGroups(a: seq<byte>, b: seq<byte>)
    requires |a| == 3 && 1 <= |b| <= 3
    ensures Encode(a + b) == EncodeGroup(a) + EncodeGroup(b)
  {
    hide EncodeGroup;
    assert (a + b)[..3] == a && (a + b)[3..] == b;
    assert Encode(b) == EncodeGroup(b);
  }

  lemma PasswordToken()
    ensures Encode([112, 97, 115, 115, 119, 111, 114, 100, 49]) == [99, 71, 70, 122, 99, 51, 100, 118, 99, 109, 81, 120]
  {
    PasswordGroups();
    hide EncodeGroup;
    ThreeGroups([112, 97, 115], [115, 119, 111], [114, 100, 49]);
    hide Encode;
    assert [112, 97, 115] + ([115, 119, 111] + [114, 100, 49]) == [112, 97, 115, 115, 119, 111, 114, 100, 49];
  }

  lemma PasswordGroups()
    ensures EncodeGroup([112, 97, 115]) == [99, 71, 70, 122]
    ensures EncodeGroup([115, 119, 111]) == [99, 51, 100, 118]
    ensures EncodeGroup([114, 100, 49]) == [99, 109, 81, 120]
  {
    FirstGroup();
    SecondGroup();
    ThirdGroup();
    hide EncodeGroup;
  }

  lemma FirstGroup()
    ensures EncodeGroup([112, 97, 115]) == [99, 71, 70, 122]
  {
  }

  lemma SecondGroup()
    ensures EncodeGroup([115, 119, 111]) == [99, 51, 100, 118]
  {
  }

  lemma ThirdGroup()
    ensures EncodeGroup([114, 100, 49]) == [99, 109, 81, 120]
  {
  }

  lemma ThreeGroups(a: seq<byte>, b: seq<byte>, c: seq<byte>)
    requires |a| == |b| == |c| == 3
    ensures Encode(a + (b + c)) == EncodeGroup(a) + (EncodeGroup(b) + EncodeGroup(c))
  {
    hide EncodeGroup;
    assert (a + (b + c))[..3] == a && (a + (b + c))[3..] == b + c;
    assert (b + c)[..3] == b && (b + c)[3..] == c;
    assert Encode(c) == EncodeGroup(c);
    assert Encode(b + c) == EncodeGroup(b) + Encode(c);
  }

  /** The SoftAP line says 1 for on and 0 for off, then the name, then the password. */
  lemma FlagExample(ssid: seq<byte>, psk: seq<byte>)
    ensures NatText(true, ssid, psk)[9] == 49 && NatText(false, ssid, psk)[9] == 48
    ensures NatText(false, [], []) == [78, 66, 80, 45, 78, 65, 84, 49, 32, 48, 32, 45, 32, 45]
  {
  }

  // ------------------------------------------------------------ any bytes at all

  /** The bytes without the carriage returns. */
  function WithoutReturns(s: seq<byte>): seq<byte> {
    if s == [] then []
    else (if s[0] == 13 then [] else [s[0]]) + WithoutReturns(s[1..])
  }

  /** Carriage returns make no difference anywhere. */
  lemma {:induction false} ReturnsDoNotCount(c: Console, s: seq<byte>)
    ensures FeedAll(c, s) == FeedAll(c, WithoutReturns(s))
    decreases |s|
  {
    if s != [] {
      hide Feed;
      if s[0] == 13 {
        FeedReturn(c);
        assert [] + WithoutReturns(s[1..]) == WithoutReturns(s[1..]);
      } else {
        assert WithoutReturns(s)[1..] == WithoutReturns(s[1..]);
      }
      ReturnsDoNotCount(Feed(c, s[0]), s[1..]);
    }
  }

  lemma FeedReturn(c: Console)
    ensures Feed(c, 13) == c
  {
  }

  /** Bytes without a line end fill the buffer and start over: every 512th drops what was there. */
  lemma {:induction false} LongLinesStartOver(d: Settings, s: seq<byte>)
    requires !d.restarted && forall k :: 0 <= k < |s| ==> s[k] != 10 && s[k] != 13
    ensures FeedAll(Console([], d), s) == Console(s[|s| - |s| % 512..], d)
    decreases |s|
  {
    if s != [] {
      var n := |s| - 1;
      LongLinesStartOver(d, s[..n]);
      assert s == s[..n] + [s[n]];
      FeedAppend(Console([], d), s[..n], [s[n]]);
      var c := FeedAll(Console([], d), s[..n]);
      assert FeedAll(c, [s[n]]) == FeedAll(Feed(c, s[n]), [s[n]][1..]) == Feed(c, s[n]);
      hide FeedAll, Handle;
      Turn512(n);
      assert s[..n][n - n % 512..] + [s[n]] == s[n - n % 512..];
    }
  }

  lemma Turn512(n: nat)
    ensures (n + 1) % 512 == if n % 512 == 511 then 0 else n % 512 + 1
  {
  }
}
