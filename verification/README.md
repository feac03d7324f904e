# GoodwePico gateway core, modelled in Dafny

GoodwePico is a Raspberry Pi Pico W firmware. It stands in for the vendor's WiFi
dongle on a GoodWe XS solar inverter. All of its logic lives in the `GoodweComm`
class:

- **Frame dispatcher.** Every frame from the inverter's serial line is sorted
  into one of five kinds: `+++`, the single byte `a`, an `AT+…` command, a
  `POSTGW…` cloud upload, or anything else.
- **AT-command emulator.** It answers the AT dialogue the inverter expects from
  the original module, using a fixed table of reply templates. The templates are
  filled from the radio status (rssi, ssid, MAC) and from the configured cloud
  host and port.
- **Cloud relay.** It forwards uploads to the vendor cloud over a lazily opened
  TCP connection and copies long enough cloud replies back to the serial line.
- **Local relay.** It forwards other frames to the last UDP peer that sent a
  datagram, and copies datagrams to the serial line.
- **Telemetry poller.** It sends a fixed MODBUS Read Holding Registers query and
  accepts a reply by comparing CRC-16/MODBUS strings. It retries up to five
  times and decodes an accepted reply into big-endian integer fields at fixed
  offsets.

The firmware runs on MicroPython. Where its built-ins differ from CPython's,
the model follows MicroPython: `str.strip()` without argument removes only tab,
line feed, vertical tab, form feed, carriage return and space.

Modules, one per file:

| file | module | contents |
|---|---|---|
| `base.dfy` | `Base` | bytes, `Option`, Python slice semantics, ASCII encoding and decoding |
| `text.dfy` | `Text` | `hex()`, `bytes.hex()` and `str()` renderings and their read-back |
| `crc16.dfy` | `Crc` | CRC-16/MODBUS as a fold, and the source's nested-loop method proved equal to it |
| `telemetry.dfy` | `Telemetry` | `get_int`, reply acceptance, the retry loop, decoding, and an encoder as partner |
| `atcommands.dfy` | `AtCommands` | `__parse_at__`: stripping, splitting and the reply table |
| `goodwecomm.dfy` | `Comm` | the frame classification and the class `GoodweComm` with its relay state |

The class keeps the source's mutable state as fields:

- `atMode`;
- `udpConn`, the last UDP peer;
- `tcpSocket`, the held connection;
- `openCount`, which numbers the connections;
- `uartOut`, `tcpOut` and `udpOut`, the sequences of everything written to the
  UART and to each socket.

Each socket call's success is an input flag. An exception that the source does
not catch is returned as `escaped`.

## Model

| member | source | states |
|---|---|---|
| Base.PySlice | goodwecomm.py:147 | A slice never fails: it has at most the source's length, equals `s[lo..hi]` for in-range bounds, and is empty from the end on |
| Base.AsciiDecode | goodwecomm.py:146 | Decoding ASCII bytes keeps the length and maps each byte to the character with the same code |
| Text.HexBytes | goodwecomm.py:227 | `bytes.hex()` has two lowercase hex digits per byte, and digits `2i..2i+2` render byte `i` |
| Text.HexByteInjective | goodwecomm.py:160-163 | Two bytes render to the same two digits exactly when they are equal |
| Text.UnhexHexBytes | goodwecomm.py:227 | Reading the digit pairs back gives the original bytes |
| Text.HexUnpadded | goodwecomm.py:228 | `hex(n)[2:]` is a nonempty string of lowercase hex digits with no leading zero, and it reads back as `n` |
| Text.Decimal | goodwecomm.py:170-176 | The f-string rendering of a port or a percentage is a nonempty string of decimal digits |
| Text.HexUnpaddedShort | goodwecomm.py:228 | `hex(n)[2:]` for n below 0x1000 has at most three digits |
| Text.HexUnpaddedWide | goodwecomm.py:228 | For 0x1000 ≤ n ≤ 0xFFFF, `hex(n)[2:]` is the padded high byte followed by the padded low byte |
| Text.DecimalRoundTrip | goodwecomm.py:170-176 | The decimal rendering of a port or a percentage reads back as the number |
| Crc.Crc16 | goodwecomm.py:185-199 | The checksum lies in 0..0xFFFF, and the empty input gives 0xFFFF |
| Crc.CrcFromAppend | goodwecomm.py:191-198 | The byte loop is a left fold: the checksum of `a + b` continues from the register value after `a` |
| Crc.CheckValue | goodwecomm.py:185-199 | ASCII "123456789" gives 0x4B37, the CRC-16/MODBUS check value |
| Crc.ComputeCrc16 | goodwecomm.py:185-199 | The nested byte and bit loops on one register compute exactly `Crc16(data)`, below 0x10000 |
| Telemetry.QueryIsReadHoldingRegisters | goodwecomm.py:218 | The query addresses slave 0x7F with function 0x03 and asks for 73 registers from 0x7594. Its last two bytes are its CRC, low byte first |
| Telemetry.GetInt | goodwecomm.py:201-207 | An int comes back unchanged. Bytes give a value in 0..256^len−1, and an empty slice gives 0 |
| Telemetry.BigEndian | goodwecomm.py:207 | `int.from_bytes(…, 'big')` of `n` bytes lies below 256^n |
| Telemetry.BigEndianRoundTrip | goodwecomm.py:207 | Reading back the `w` big-endian bytes of `n < 256^w` gives `n` |
| Telemetry.ToBigEndianRoundTrip | goodwecomm.py:207 | Writing the big-endian value of `bs` in `\|bs\|` bytes gives `bs` back |
| Telemetry.CrcData | goodwecomm.py:227 | The received CRC as text is always padded: for a reply of at least two bytes it is the last byte's two hex digits followed by the second-to-last byte's two, and it has two digits per byte for shorter replies |
| Telemetry.CrcCalc | goodwecomm.py:228 | The computed CRC as text has no leading zero and reads back as the CRC-16/MODBUS of `b[2:-2]` |
| Telemetry.ReplyAccepted | goodwecomm.py:216-231 | The as-written test is equality of those two strings. `ReplyAcceptedIff` characterises it |
| Telemetry.ReplyAcceptedIff | goodwecomm.py:227-228 | The two strings are equal exactly when the trailing two bytes, low first, equal the CRC of `b[2:-2]` and that CRC is at least 0x1000. A reply of fewer than two bytes is never accepted |
| Telemetry.ShortHexRejectsValidReply | goodwecomm.py:227-228 | An 11-byte reply whose CRC is correct but equals 0x0573 is rejected |
| Telemetry.CheckReply | goodwecomm.py:227-228 | Building and comparing the two strings yields exactly the arithmetic acceptance test `Accepted` |
| Telemetry.Decode | goodwecomm.py:231-254 | Decoding never yields "no data". It yields the IndexError outcome exactly when the accepted reply is shorter than 11 bytes |
| Telemetry.FieldBound | goodwecomm.py:235-248 | A field read from `[lo, hi)` lies in 0..256^(hi−lo)−1 whatever the reply's length |
| Telemetry.DecodeRanges | goodwecomm.py:233-254 | The decoded year lies in 2000..2255, the energy total below 2^32, and each of the thirteen two-byte fields below 2^16 |
| Telemetry.DecodeFixedOffsets | goodwecomm.py:235-254 | In a reply of at least 151 bytes, each field is the big-endian value of exactly its own byte range. The timestamp is (2000+b[5], b[6], …, b[10]) |
| Telemetry.DecodeShortReply | goodwecomm.py:244 | A reply of 11 to 149 bytes still decodes, and `rssi` (bytes 149–151) reads as 0 |
| Telemetry.FirstAccepted | goodwecomm.py:216-229 | The attempt at which the loop stops. `FirstAcceptedFound` and `FirstAcceptedNone` characterise it |
| Telemetry.FirstAcceptedFound | goodwecomm.py:216-229 | The attempt the loop stops at has an accepted reply, and no earlier attempt has one |
| Telemetry.FirstAcceptedNone | goodwecomm.py:216-229 | When the loop runs out of attempts, no attempt's reply was accepted |
| Telemetry.RetryBounds | goodwecomm.py:213-231 | The query goes out at least once and at most 5 times. The result is "no data" exactly when no attempt's reply is accepted, and otherwise decodes the reply to the last query sent |
| Telemetry.AttemptsUsed | goodwecomm.py:216-229 | The number of queries the loop sends: 1..5, by `RetryBounds` |
| Telemetry.Outcome | goodwecomm.py:231-256 | What the poll returns: "no data" exactly when no attempt is accepted, else the decoding of the last reply, by `RetryBounds` |
| Telemetry.GetPvStats | goodwecomm.py:210-256 | The retry loop writes `AttemptsUsed` copies of the query and returns `Outcome`: the decoding of the first accepted reply, or "no data" |
| Telemetry.EncodeDecode | goodwecomm.py:233-254 | A reply the inverter builds from any representable sample carries a matching CRC and decodes back to that sample |
| AtCommands.Strip | goodwecomm.py:147 | `strip()` returns the infix that starts after the leading whitespace, with whitespace on neither end and only whitespace after it |
| AtCommands.SeparatorNotStripped | goodwecomm.py:147 | `strip()` removes only tab, line feed, vertical tab, form feed, carriage return and space: a trailing 0x1F stays part of the name |
| AtCommands.SeparatorFrameUnanswered | goodwecomm.py:146-183 | So `AT+WSLQ` followed by 0x1F is an unknown name and gets no reply |
| AtCommands.StripIdempotent | goodwecomm.py:147 | Stripping twice is stripping once |
| AtCommands.IndexOf | goodwecomm.py:150 | `index` finds the first occurrence of the character |
| AtCommands.SplitCommand | goodwecomm.py:148-152 | Without `=` the whole text is the name and there is no parameter. With one, text = name + "=" + parameter and the name has no `=` |
| AtCommands.SplitJoin | goodwecomm.py:148-152 | Joining a name free of `=` to any parameter splits back into the same two parts |
| AtCommands.ParseAt | goodwecomm.py:146-152 | The parsed name never contains `=` and never starts with whitespace |
| AtCommands.ParseAtPrefix | goodwecomm.py:146-147 | `AT+` followed by text parses as that text stripped and split |
| AtCommands.ParseAtBareName | goodwecomm.py:146-152 | `AT+NAME` parses to the name without parameter |
| AtCommands.ParseAtWithParam | goodwecomm.py:146-152 | `AT+NAME=PARAM` parses to the name and the parameter, including an empty one |
| AtCommands.LinkQuality | goodwecomm.py:156 | The quality lies in 0..100: it is 2·(dbm+100) between −100 and −50 dBm, 0 below and 100 above |
| AtCommands.LinkQualityMonotone | goodwecomm.py:156 | A stronger signal never gives a lower quality |
| AtCommands.ParamText | goodwecomm.py:171 | The f-string renders a missing parameter as `None` |
| AtCommands.ReplyFor | goodwecomm.py:167-183 | There is a reply exactly for the eleven table names, and it is never empty |
| AtCommands.EchoReplies | goodwecomm.py:171-173 | `TCPTO` and `WMODE` echo the parameter, or `None` when there is none |
| AtCommands.AtReply | goodwecomm.py:143-183 | A frame gets a reply exactly when its parsed name is in the table |
| AtCommands.WslqReply | goodwecomm.py:154-156 | The `WSLQ` reply reports a percentage in 0..100, and reads `Normal, 80%` at −60 dBm |
| AtCommands.WsmacReply | goodwecomm.py:160-163 | The `WSMAC` reply holds two lowercase hex digits per MAC byte, in order and without separators |
| AtCommands.UnknownNameNoReply | goodwecomm.py:181-183 | A name outside the table gets no reply |
| Comm.Dispatch | goodwecomm.py:67-106 | A frame is relayed to TCP only when calling home is enabled |
| Comm.AtFramesStayLocal | goodwecomm.py:88-96 | An AT frame never goes to TCP or UDP. It is answered exactly when its name is known |
| Comm.PostGwRelay | goodwecomm.py:98-103 | A `POSTGW` frame goes to TCP exactly when calling home is enabled, and never to UDP |
| Comm.UdpRelay | goodwecomm.py:104-106 | A frame goes to UDP exactly when it is longer than three bytes and is neither an AT nor a `POSTGW` frame |
| Comm.ShortFramesIgnored | goodwecomm.py:71-106 | A frame of at most three bytes other than `+++` or `a` has no effect |
| Comm.EscapeAnyMiddle | goodwecomm.py:73-79 | `+x+` with any middle byte counts as the escape and is answered with `a` |
| Comm.TcpAfterSend | goodwecomm.py:114-134 | A send opens a connection only when none is held. Success delivers the data on the held connection; after a failure no connection is held |
| Comm.TcpReuse | goodwecomm.py:118-127 | While sends succeed, the held connection is reused and nothing new is opened |
| Comm.TcpFreshAfterFailure | goodwecomm.py:118-134 | After a failed send, the next send opens a fresh connection and delivers on it |
| Comm.GoodweComm.constructor | goodwecomm.py:11-26 | The gateway starts in AT mode with no UDP peer, no connection and nothing written |
| Comm.GoodweComm.SendUart | goodwecomm.py:108-112 | Exactly the one write is appended to the UART output, and the class invariant is kept |
| Comm.GoodweComm.SendTcp | goodwecomm.py:114-134 | The relay state becomes `TcpAfterSend` of the old state. The method escapes exactly when both `send` and `close` fail |
| Comm.GoodweComm.SendUdp | goodwecomm.py:136-141 | Without a peer nothing is sent. With one, the frame goes to that peer, and a failing `sendto` escapes. The class invariant is kept |
| Comm.GoodweComm.ListenUdp | goodwecomm.py:28-37 | A received datagram makes its sender the peer, replacing any earlier one, and goes to the UART unchanged. Nothing received changes nothing. The class invariant is kept |
| Comm.GoodweComm.ListenTcp | goodwecomm.py:39-50 | Only a reply longer than 10 bytes on a held connection reaches the UART. The class invariant is kept |
| Comm.GoodweComm.Parse | goodwecomm.py:67-106 | AT mode stays on. At most one write happens, and it is the one `Dispatch` names. `a` is always answered with `+ok\r\n\r\n` |
| Comm.GoodweComm.PollPvStats | goodwecomm.py:210-256 | The gateway's UART gets `AttemptsUsed` copies of the query, and the result is `Outcome`. The class invariant is kept |

## Left out

- The serial read loop `listen_uart` and the timed read loops of `get_pv_stats` are left out. They are wall-clock and `sleep` polling. Each completed read is an input: the frame for `Parse`, and one element of `replies` per attempt (none means no bytes arrived).
- The floating-point scaling `round(x*0.1, 2)` and `time.mktime` are left out. The model keeps the raw integer fields and the timestamp tuple.
- Socket creation, `bind`, `settimeout` and `getaddrinfo` are left out as foreign calls. A connection is an opaque numbered handle.
- `connect` raising inside `send_tcp` is not modelled; the model assumes the connection attempt returns.
- The syslog sender `log.py` is left out. Every `log.send` is taken to have no effect on state.
- `main.py` is left out: WLAN bring-up, configuration file I/O, the timer and the HTTP server.
- AtCommands.ParseAt: it requires an ASCII frame. Non-ASCII UTF-8 text and the decode error on invalid UTF-8, which nothing catches, are not modelled.
- Comm.GoodweComm.Parse: it requires an AT frame to be ASCII, for the same reason.
- Comm.GoodweComm.ListenTcp: the 2048-byte cap of `recv` is not modelled. The reply is whatever the call returned.
- Comm.GoodweComm.ListenUdp: the 1024-byte cap of `recvfrom` is not modelled. The datagram is whatever the call returned.
- AtCommands.WsmacReply: it is stated for every MAC address. There is no separate concrete example.
- Where the repository's documentation and the code disagree, the model follows the code:
  - A received UDP datagram is written to the UART verbatim. It is not dispatched like a serial frame.
  - A failing `close` after a failed TCP send, and a failing UDP `sendto`, raise out of the method.
  - An accepted reply shorter than 11 bytes raises IndexError; this is the `IndexError` outcome.
  - Acceptance compares unpadded hex strings (see Findings).

## Findings

| source | as written | input that shows it | evidently intended | confidence | as-written member | corrected member |
|---|---|---|---|---|---|---|
| goodwecomm.py:227-228 | The received CRC is rendered as four padded hex digits. The computed CRC is rendered with `hex()[2:]`, which drops leading zeros. So every correct reply whose CRC is below 0x1000 is rejected, on all five attempts | The 11-byte reply `AA 55 7F 03 04 18 05 01 00 73 05`: its CRC is 0x0573, `"0573" != "573"` | Accept exactly when the trailing two bytes, low first, equal the CRC-16/MODBUS of `b[2:-2]` | high (not executed) | Telemetry.ShortHexRejectsValidReply | Telemetry.EncodeDecode |

The as-written test is `Telemetry.ReplyAccepted`. It is characterised by
`Telemetry.ReplyAcceptedIff` and is what `Telemetry.GetPvStats` runs, because
that is what the code does. The corrected test is `Telemetry.CrcMatches`.
`Telemetry.EncodeDecode` proves that every reply the inverter builds satisfies
it and decodes back to its sample.
