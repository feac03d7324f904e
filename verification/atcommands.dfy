/** Emulation of the AT-command surface of the vendor's WiFi-serial bridge:
    parsing an `AT+NAME[=PARAM]` frame and the fixed, closed reply table. */
module AtCommands {
  import opened Base
  import opened Text

  /** What the radio reports: signal strength in dBm, network name, hardware address. */
  datatype WlanStatus = WlanStatus(rssi: int, ssid: string, mac: seq<byte>)

  /** The persisted settings the core reads: cloud host and port, call-home flag. */
  datatype Config = Config(host: string, port: nat, callHome: bool)

  /** A parsed command: the name, and the text after the first `=` if there was one. */
  datatype AtCommand = AtCommand(name: string, param: Option<string>)

  /** The whitespace MicroPython's argument-less `str.strip()` removes:
      tab, line feed, vertical tab, form feed, carriage return and space. */
  predicate IsSpace(c: char)
  {
    c == ' ' || 9 <= c as int <= 13
  }

  function LeadingSpaces(s: string): (k: nat)
    ensures k <= |s|
    ensures forall i :: 0 <= i < k ==> IsSpace(s[i])
    ensures k < |s| ==> !IsSpace(s[k])
  {
    if |s| == 0 || !IsSpace(s[0]) then 0 else 1 + LeadingSpaces(s[1..])
  }

  function TrailingSpaces(s: string): (k: nat)
    ensures k <= |s|
    ensures forall i :: |s| - k <= i < |s| ==> IsSpace(s[i])
    ensures k < |s| ==> !IsSpace(s[|s| - k - 1])
  {
    if |s| == 0 || !IsSpace(s[|s| - 1]) then 0 else 1 + TrailingSpaces(s[..|s| - 1])
  }

  /** `str.strip()`: the infix left after removing whitespace at both ends. */
  function Strip(s: string): (r: string)
    ensures r == [] || (!IsSpace(r[0]) && !IsSpace(r[|r| - 1]))
    ensures LeadingSpaces(s) + |r| <= |s|
    ensures r == s[LeadingSpaces(s)..LeadingSpaces(s) + |r|]
    ensures forall i :: LeadingSpaces(s) + |r| <= i < |s| ==> IsSpace(s[i])
  {
    var t := s[LeadingSpaces(s)..];
    t[..|t| - TrailingSpaces(t)]
  }

  /** Stripping twice changes nothing more. */
  lemma StripIdempotent(s: string)
    ensures Strip(Strip(s)) == Strip(s)
  {
    var r := Strip(s);
    if r != [] {
      assert LeadingSpaces(r) == 0;
      var t := r[LeadingSpaces(r)..];
      assert t == r;
      assert TrailingSpaces(r) == 0;
    }
  }

  /** The position of the first `c` in `s`, as `str.index`. */
  function IndexOf(s: string, c: char): (k: nat)
    requires c in s
    ensures k < |s| && s[k] == c && c !in s[..k]
  {
    if s[0] == c then 0
    else
      var k := 1 + IndexOf(s[1..], c);
      assert s[..k] == [s[0]] + s[1..][..k - 1];
      k
  }

  /** The split of `__parse_at__`: at the first `=`, the name before it and
      everything after it as the parameter; without `=`, no parameter. */
  function SplitCommand(cmd: string): (r: AtCommand)
    ensures '=' !in cmd ==> r == AtCommand(cmd, None)
    ensures '=' in cmd ==> r.param.Some? && cmd == r.name + "=" + r.param.value && '=' !in r.name
  {
    if '=' in cmd then
      var end := IndexOf(cmd, '=');
      assert cmd == cmd[..end] + "=" + cmd[end + 1..];
      AtCommand(cmd[..end], Some(cmd[end + 1..]))
    else AtCommand(cmd, None)
  }

  /** Joining a name free of `=` to any parameter splits back into the two. */
  lemma SplitJoin(name: string, param: string)
    requires '=' !in name
    ensures SplitCommand(name + "=" + param) == AtCommand(name, Some(param))
  {
    var cmd := name + "=" + param;
    assert cmd[|name|] == '=';
    var r := SplitCommand(cmd);
    assert r.name == cmd[..|name|] == name;
    assert r.param.value == cmd[|name| + 1..] == param;
  }

  /** The command in an AT frame: decode, drop the three-byte `AT+` prefix,
      strip whitespace, then split at the first `=`. */
  function ParseAt(frame: seq<byte>): (r: AtCommand)
    requires IsAscii(frame)
    ensures '=' !in r.name
    ensures r.name == [] || !IsSpace(r.name[0])
  {
    SplitCommand(Strip(PySlice(AsciiDecode(frame), 3, |frame|)))
  }

  lemma AsciiRoundTrip(text: string)
    requires IsAsciiText(text)
    ensures AsciiDecode(AsciiBytes(text)) == text
  {
  }

  /** Text that neither starts nor ends with whitespace is left as it is. */
  lemma StripNoop(s: string)
    requires s != [] && !IsSpace(s[0]) && !IsSpace(s[|s| - 1])
    ensures Strip(s) == s
  {
    assert LeadingSpaces(s) == 0;
    assert s[0..] == s;
    assert TrailingSpaces(s) == 0;
  }

  /** The frame `AT+` followed by `cmd` parses as `cmd` stripped and split. */
  lemma ParseAtPrefix(cmd: string)
    requires IsAsciiText(cmd)
    ensures IsAsciiText("AT+" + cmd)
    ensures ParseAt(AsciiBytes("AT+" + cmd)) == SplitCommand(Strip(cmd))
  {
    var text := "AT+" + cmd;
    AsciiTextAppend("AT+", cmd);
    AsciiRoundTrip(text);
    assert PySlice(text, 3, |text|) == text[3..] == cmd;
  }

  /** `AT+` followed by a bare name parses to that name without parameter. */
  lemma ParseAtBareName(name: string)
    requires IsAsciiText(name)
    requires name != [] && !IsSpace(name[0]) && !IsSpace(name[|name| - 1]) && '=' !in name
    ensures IsAsciiText("AT+" + name)
    ensures ParseAt(AsciiBytes("AT+" + name)) == AtCommand(name, None)
  {
    ParseAtPrefix(name);
    StripNoop(name);
  }

  /** `AT+name=param` parses to the name and the parameter. */
  lemma ParseAtWithParam(name: string, param: string)
    requires IsAsciiText(name) && IsAsciiText(param)
    requires name != [] && !IsSpace(name[0]) && '=' !in name
    requires param != [] ==> !IsSpace(param[|param| - 1])
    ensures IsAsciiText("AT+" + (name + "=" + param))
    ensures ParseAt(AsciiBytes("AT+" + (name + "=" + param))) == AtCommand(name, Some(param))
  {
    var cmd := name + "=" + param;
    AsciiTextAppend(name, "=");
    AsciiTextAppend(name + "=", param);
    ParseAtPrefix(cmd);
    assert cmd[0] == name[0];
    assert cmd[|cmd| - 1] == if param == [] then '=' else param[|param| - 1];
    StripNoop(cmd);
    SplitJoin(name, param);
  }

  /** `min(max(2 * (dbm + 100), 0), 100)`: the link quality percentage. */
  function LinkQuality(dbm: int): (q: int)
    ensures 0 <= q <= 100
    ensures -100 <= dbm <= -50 ==> q == 2 * (dbm + 100)
    ensures dbm <= -100 ==> q == 0
    ensures -50 <= dbm ==> q == 100
  {
    var raw := 2 * (dbm + 100);
    var lowered := if raw > 0 then raw else 0;
    if lowered < 100 then lowered else 100
  }

  lemma LinkQualityMonotone(a: int, b: int)
    requires a <= b
    ensures LinkQuality(a) <= LinkQuality(b)
  {
    if -100 <= a && b <= -50 {
      assert LinkQuality(a) == 2 * (a + 100) && LinkQuality(b) == 2 * (b + 100);
    }
  }

  /** Python's f-string rendering of the optional parameter: the text, or `None`. */
  function ParamText(p: Option<string>): (s: string)
    ensures p.Some? ==> s == p.value
    ensures p.None? ==> s == "None"
  {
    match p
    case None => "None"
    case Some(v) => v
  }

  const KnownNames: set<string> :=
    {"APPVER", "ENTM", "NETP", "PLANG", "TCPTO", "WAP", "WMODE", "WSLK", "WSLQ", "WSMAC", "WSSSID"}

  /** The reply table, filled in from the parameter, the radio status and the
      settings; names outside the table have no entry. */
  function ReplyFor(cmd: AtCommand, wlan: WlanStatus, config: Config): (r: Option<string>)
    ensures r.Some? <==> cmd.name in KnownNames
    ensures r.Some? ==> r.value != []
  {
    var name := cmd.name;
    if name == "APPVER" then Some("AT+APPVER\r\n\r+ok=v2.0.0.0\r\n\r\n")
    else if name == "ENTM" then Some("AT+ENTM\r\n\r+ok\r\n\r\n")
    else if name == "NETP" then
      Some("AT+NETP\r\n+ok=TCP,Client," + Decimal(config.port) + "," + config.host + "\r\n\r\n")
    else if name == "PLANG" then Some("AT+PLANG\r\n\r+ok=EN\r\n\r\n")
    else if name == "TCPTO" then Some("AT+TCPTO=" + ParamText(cmd.param) + "\r\n\r+ok\r\n\r\n")
    else if name == "WAP" then Some("AT+WAP\r\n\r+ok=11BGN,Solar-WiFi,AUTO\r\n\r\n")
    else if name == "WMODE" then Some("AT+WMODE=" + ParamText(cmd.param) + "\r\n\r+ok\r\n\r\n")
    else if name == "WSLK" then Some("AT+WSLK\r\n\r+ok=" + wlan.ssid + "(aa:bb:cc:dd:ee:ff)\r\n\r\n")
    else if name == "WSLQ" then
      Some("AT+WSLQ\r\n\r+ok=Normal, " + Decimal(LinkQuality(wlan.rssi)) + "%\r\n\r\n")
    // the MAC loop of the source renders each byte as `f'{b:#04x}'[2:]`, as `bytes.hex()` does
    else if name == "WSMAC" then Some("AT+WSMAC\r\n\r+ok=" + HexBytes(wlan.mac) + "\r\n\r\n")
    else if name == "WSSSID" then Some("AT+WSSSID\r\n\r+ok=" + wlan.ssid + "\r\n\r\n")
    else None
  }

  /** `TCPTO` and `WMODE` echo their parameter, or the text `None` when the
      command had no `=`. */
  lemma EchoReplies(cmd: AtCommand, wlan: WlanStatus, config: Config)
    requires cmd.name == "TCPTO" || cmd.name == "WMODE"
    ensures ReplyFor(cmd, wlan, config) == Some("AT+" + cmd.name + "=" + ParamText(cmd.param) + "\r\n\r+ok\r\n\r\n")
  {
    assert "AT+" + "TCPTO" + "=" == "AT+TCPTO=";
    assert "AT+" + "WMODE" + "=" == "AT+WMODE=";
  }

  /** The source's `__parse_at__`: parse the frame, then look its name up. */
  function AtReply(frame: seq<byte>, wlan: WlanStatus, config: Config): (r: Option<string>)
    requires IsAscii(frame)
    ensures r.Some? <==> ParseAt(frame).name in KnownNames
  {
    ReplyFor(ParseAt(frame), wlan, config)
  }

  /** The quality reply always reports a percentage from 0 to 100, whatever
      parameter came with the name, and for -60 dBm it reads `Normal, 80%`. */
  lemma WslqReply(cmd: AtCommand, wlan: WlanStatus, config: Config)
    requires cmd.name == "WSLQ"
    ensures var q := LinkQuality(wlan.rssi);
      0 <= q <= 100 &&
      ReplyFor(cmd, wlan, config) == Some("AT+WSLQ\r\n\r+ok=Normal, " + Decimal(q) + "%\r\n\r\n")
    ensures wlan.rssi == -60 ==>
      ReplyFor(cmd, wlan, config) == Some("AT+WSLQ\r\n\r+ok=Normal, 80%\r\n\r\n")
  {
    if wlan.rssi == -60 {
      assert LinkQuality(wlan.rssi) == 80;
      assert Decimal(80) == "80" by {
        assert Decimal(80) == Decimal(8) + [Digit(0)];
        assert Digit(8) == '8' && Digit(0) == '0';
      }
      assert "AT+WSLQ\r\n\r+ok=Normal, " + "80" + "%\r\n\r\n" == "AT+WSLQ\r\n\r+ok=Normal, 80%\r\n\r\n";
    }
  }

  /** The MAC reply carries two lowercase hex digits per address byte, in
      order and with no separators (`UnhexHexBytes` reads them back as the
      address). */
  lemma WsmacReply(cmd: AtCommand, wlan: WlanStatus, config: Config)
    requires cmd.name == "WSMAC"
    ensures var text := ReplyFor(cmd, wlan, config);
      text.Some? && |text.value| == 19 + 2 * |wlan.mac| &&
      text.value[15..15 + 2 * |wlan.mac|] == HexBytes(wlan.mac) &&
      forall i :: 0 <= i < |wlan.mac| ==> text.value[15 + 2 * i..17 + 2 * i] == HexByte(wlan.mac[i])
  {
    var text := ReplyFor(cmd, wlan, config).value;
    var h := HexBytes(wlan.mac);
    assert text[15..15 + |h|] == h;
    forall i | 0 <= i < |wlan.mac|
      ensures text[15 + 2 * i..17 + 2 * i] == HexByte(wlan.mac[i])
    {
      assert text[15 + 2 * i..17 + 2 * i] == h[2 * i..2 * i + 2];
    }
  }

  /** A name outside the table gets no reply, with or without a parameter. */
  lemma UnknownNameNoReply(frame: seq<byte>, wlan: WlanStatus, config: Config)
    requires IsAscii(frame)
    requires ParseAt(frame).name !in KnownNames
    ensures AtReply(frame, wlan, config) == None
  {
  }

  /** The information separators 0x1C-0x1F are not whitespace to `strip()`:
      a name followed by one keeps it. */
  lemma SeparatorNotStripped()
    ensures IsAsciiText("AT+" + "WSLQ\U{1F}")
    ensures ParseAt(AsciiBytes("AT+" + "WSLQ\U{1F}")) == AtCommand("WSLQ\U{1F}", None)
  {
    ParseAtBareName("WSLQ\U{1F}");
  }

  /** So `AT+WSLQ` followed by 0x1F is not the `WSLQ` query, and gets no reply. */
  lemma SeparatorFrameUnanswered(wlan: WlanStatus, config: Config)
    ensures IsAsciiText("AT+" + "WSLQ\U{1F}")
    ensures AtReply(AsciiBytes("AT+" + "WSLQ\U{1F}"), wlan, config) == None
  {
    SeparatorNotStripped();
    var name := "WSLQ\U{1F}";
    assert |name| == 5;
    assert name !in KnownNames;
  }
}
