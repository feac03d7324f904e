/** The gateway object that sits between the inverter's serial port and the
    network: it classifies every serial frame, answers the AT dialogue
    itself, relays cloud traffic over a lazily opened TCP connection and
    local traffic to the last UDP peer. */
module Comm {
  import opened Base
  import opened AtCommands
  import Telemetry

  /** A UDP sender address as `recvfrom` reports it. */
  datatype Peer = Peer(host: string, port: nat)

  /** An open TCP connection, told apart by the order in which it was opened. */
  datatype Socket = Socket(id: nat)

  /** What reaches `uart.write`: a Python `str` or a `bytes` object. */
  datatype UartWrite = Text(s: string) | Raw(b: seq<byte>)

  /** The one outward effect a serial frame can have. */
  datatype Action = Reply(text: string) | ToTcp | ToUdp | NoAction

  /** `+++`: three bytes whose first and last are `+`; the middle one is not looked at. */
  predicate IsEscape(frame: seq<byte>)
  {
    |frame| == 3 && frame[0] == 0x2B && frame[2] == 0x2B
  }

  /** The single byte `a`. */
  predicate IsAttention(frame: seq<byte>)
  {
    |frame| == 1 && frame[0] == 0x61
  }

  /** `AT+` followed by at least one more byte. */
  predicate IsAtFrame(frame: seq<byte>)
  {
    |frame| > 3 && frame[0] == 0x41 && frame[1] == 0x54 && frame[2] == 0x2B
  }

  /** `POSTGW` followed by at least one more byte: data for the vendor cloud. */
  predicate IsPostGw(frame: seq<byte>)
  {
    |frame| > 6 && frame[..6] == [0x50, 0x4F, 0x53, 0x54, 0x47, 0x57]
  }

  /** The classification of `__parse__`, tests taken in the source's order. An
      AT reply is never the empty string, so the source's truth test on it
      only tells a reply from none. */
  function Dispatch(frame: seq<byte>, atMode: bool, config: Config, wlan: WlanStatus): (act: Action)
    requires IsAtFrame(frame) ==> IsAscii(frame)
    ensures act == ToTcp ==> config.callHome
  {
    if IsEscape(frame) then Reply("a")
    else if IsAttention(frame) then (if atMode then Reply("+ok\r\n\r\n") else NoAction)
    else if IsAtFrame(frame) then
      (match AtReply(frame, wlan, config)
       case Some(text) => Reply(text)
       case None => NoAction)
    else if IsPostGw(frame) then (if config.callHome then ToTcp else NoAction)
    else if |frame| > 3 then ToUdp
    else NoAction
  }

  /** AT frames are answered on the serial line or not at all, never relayed,
      whether or not the name is known. */
  lemma AtFramesStayLocal(frame: seq<byte>, atMode: bool, config: Config, wlan: WlanStatus)
    requires IsAtFrame(frame) && IsAscii(frame)
    ensures Dispatch(frame, atMode, config, wlan) != ToTcp
    ensures Dispatch(frame, atMode, config, wlan) != ToUdp
    ensures Dispatch(frame, atMode, config, wlan).Reply? <==> ParseAt(frame).name in KnownNames
  {
    assert !IsEscape(frame) && !IsAttention(frame);
  }

  /** Cloud frames go to TCP exactly when calling home is enabled, and never to UDP. */
  lemma PostGwRelay(frame: seq<byte>, atMode: bool, config: Config, wlan: WlanStatus)
    requires IsPostGw(frame)
    ensures !IsAtFrame(frame)
    ensures Dispatch(frame, atMode, config, wlan) == ToTcp <==> config.callHome
    ensures Dispatch(frame, atMode, config, wlan) != ToUdp
  {
    assert frame[0] == frame[..6][0] == 0x50;
    assert !IsEscape(frame) && !IsAttention(frame) && !IsAtFrame(frame);
  }

  /** Relaying to UDP happens exactly for frames longer than three bytes that
      are neither AT nor cloud frames. */
  lemma UdpRelay(frame: seq<byte>, atMode: bool, config: Config, wlan: WlanStatus)
    requires IsAtFrame(frame) ==> IsAscii(frame)
    ensures Dispatch(frame, atMode, config, wlan) == ToUdp <==>
      |frame| > 3 && !IsAtFrame(frame) && !IsPostGw(frame)
  {
  }

  /** Frames of at most three bytes do nothing unless they are `+++` or `a`. */
  lemma ShortFramesIgnored(frame: seq<byte>, atMode: bool, config: Config, wlan: WlanStatus)
    requires |frame| <= 3 && !IsEscape(frame) && !IsAttention(frame)
    ensures Dispatch(frame, atMode, config, wlan) == NoAction
  {
  }

  /** Any byte between two `+` signs makes an escape, answered with `a`. */
  lemma EscapeAnyMiddle(x: byte, atMode: bool, config: Config, wlan: WlanStatus)
    ensures Dispatch([0x2B, x, 0x2B], atMode, config, wlan) == Reply("a")
  {
  }

  /** What the TCP relay state becomes after one `send_tcp`: a connection is
      opened (with the next number) only when none is held, the data is
      delivered on it when the send succeeds, and after a failed send no
      connection is held. */
  function TcpAfterSend(sock: Option<Socket>, openCount: nat, sent: seq<(Socket, seq<byte>)>,
                        data: seq<byte>, sendOk: bool): (r: (Option<Socket>, nat, seq<(Socket, seq<byte>)>))
    ensures r.1 == (if sock.None? then openCount + 1 else openCount)
    ensures sendOk ==> r.0.Some? && r.2 == sent + [(r.0.value, data)]
    ensures !sendOk ==> r.0 == None && r.2 == sent
  {
    var s := if sock.Some? then sock.value else Socket(openCount);
    var n := if sock.Some? then openCount else openCount + 1;
    if sendOk then (Some(s), n, sent + [(s, data)]) else (None, n, sent)
  }

  /** A held connection is reused while sends succeed: nothing new is opened. */
  lemma TcpReuse(s: Socket, openCount: nat, sent: seq<(Socket, seq<byte>)>, data: seq<byte>)
    ensures TcpAfterSend(Some(s), openCount, sent, data, true) == (Some(s), openCount, sent + [(s, data)])
  {
  }

  /** Without a held connection a send opens a fresh one, numbered after all
      earlier ones, and a failure drops it again. */
  lemma TcpFreshAfterFailure(sock: Option<Socket>, openCount: nat, sent: seq<(Socket, seq<byte>)>,
                                                a: seq<byte>, b: seq<byte>)
    ensures var (s1, n1, o1) := TcpAfterSend(sock, openCount, sent, a, false);
      var (s2, n2, o2) := TcpAfterSend(s1, n1, o1, b, true);
      s2 == Some(Socket(n1)) && n2 == n1 + 1 && o2 == sent + [(Socket(n1), b)]
  {
    var (s1, n1, o1) := TcpAfterSend(sock, openCount, sent, a, false);
    assert s1 == None && o1 == sent;
  }

  /** The gateway state. The UART and both sockets are represented by the
      sequences of what was written to them. */
  class GoodweComm {
    const config: Config
    var atMode: bool
    var udpConn: Option<Peer>
    var tcpSocket: Option<Socket>
    var openCount: nat
    var uartOut: seq<UartWrite>
    var tcpOut: seq<(Socket, seq<byte>)>
    var udpOut: seq<(Peer, seq<byte>)>

    /** `at_mode` starts set and is only ever set again, so it always holds;
        a held connection is one of those opened so far. */
    ghost predicate Valid()
      reads this
    {
      atMode && (tcpSocket.Some? ==> tcpSocket.value.id < openCount)
    }

    constructor(config: Config)
      ensures Valid() && this.config == config
      ensures udpConn == None && tcpSocket == None && openCount == 0
      ensures uartOut == [] && tcpOut == [] && udpOut == []
    {
      this.config := config;
      atMode := true;
      udpConn := None;
      tcpSocket := None;
      openCount := 0;
      uartOut := [];
      tcpOut := [];
      udpOut := [];
    }

    method SendUart(w: UartWrite)
      requires Valid()
      modifies this`uartOut
      ensures Valid()
      ensures uartOut == old(uartOut) + [w]
    {
      uartOut := uartOut + [w];
    }

    /** `send_tcp`. `sendOk` is whether `send` returns; `closeOk` whether the
        `close` after a failed send returns. When `close` also fails its
        exception leaves the method (`escaped`), after the handle is dropped. */
    method SendTcp(data: seq<byte>, sendOk: bool, closeOk: bool) returns (escaped: bool)
      requires Valid()
      modifies this`tcpSocket, this`openCount, this`tcpOut
      ensures Valid()
      ensures (tcpSocket, openCount, tcpOut) == TcpAfterSend(old(tcpSocket), old(openCount), old(tcpOut), data, sendOk)
      ensures escaped <==> !sendOk && !closeOk
    {
      if tcpSocket.None? {
        tcpSocket := Some(Socket(openCount));
        openCount := openCount + 1;
      }
      if sendOk {
        tcpOut := tcpOut + [(tcpSocket.value, data)];
        escaped := false;
      } else {
        tcpSocket := None;
        escaped := !closeOk;
      }
    }

    /** `send_udp`: to the last UDP peer, or nowhere while there is none. A
        failing `sendto` is not caught (`escaped`). */
    method SendUdp(data: seq<byte>, sendOk: bool) returns (escaped: bool)
      requires Valid()
      modifies this`udpOut
      ensures Valid()
      ensures udpConn.None? ==> udpOut == old(udpOut) && !escaped
      ensures udpConn.Some? && sendOk ==> udpOut == old(udpOut) + [(udpConn.value, data)] && !escaped
      ensures udpConn.Some? && !sendOk ==> udpOut == old(udpOut) && escaped
    {
      escaped := false;
      if udpConn.Some? {
        if sendOk {
          udpOut := udpOut + [(udpConn.value, data)];
        } else {
          escaped := true;
        }
      }
    }

    /** `listen_udp`: `datagram` is what `recvfrom` returned, `None` when it
        raised (nothing pending). The sender becomes the UDP peer, replacing
        any earlier one, and the bytes go to the UART unchanged. */
    method ListenUdp(datagram: Option<(seq<byte>, Peer)>)
      requires Valid()
      modifies this`udpConn, this`uartOut
      ensures Valid()
      ensures datagram.None? ==> udpConn == old(udpConn) && uartOut == old(uartOut)
      ensures datagram.Some? ==>
        udpConn == Some(datagram.value.1) && uartOut == old(uartOut) + [Raw(datagram.value.0)]
    {
      if datagram.Some? {
        var (bytesOnUdp, peer) := datagram.value;
        udpConn := Some(peer);
        SendUart(Raw(bytesOnUdp));
      }
    }

    /** `listen_tcp`: `received` is what `recv` returned, `None` when it raised.
        Only replies longer than ten bytes on a held connection reach the UART. */
    method ListenTcp(received: Option<seq<byte>>)
      requires Valid()
      modifies this`uartOut
      ensures Valid()
      ensures tcpSocket.Some? && received.Some? && |received.value| > 10 ==>
        uartOut == old(uartOut) + [Raw(received.value)]
      ensures !(tcpSocket.Some? && received.Some? && |received.value| > 10) ==> uartOut == old(uartOut)
    {
      if tcpSocket.Some? {
        if received.Some? && |received.value| > 10 {
          SendUart(Raw(received.value));
        }
      }
    }

    /** `__parse__` on one serial frame. `wlan` is the radio status at that
        moment; `sendOk`/`closeOk` are the outcomes of the relay's socket
        calls. Every frame has at most one outward effect, the one `Dispatch`
        names. */
    method Parse(frame: seq<byte>, wlan: WlanStatus, sendOk: bool, closeOk: bool) returns (escaped: bool)
      requires Valid()
      requires IsAtFrame(frame) ==> IsAscii(frame)
      modifies this`atMode, this`tcpSocket, this`openCount, this`tcpOut, this`udpOut, this`uartOut
      ensures Valid() && atMode
      ensures |uartOut| + |tcpOut| + |udpOut| <= old(|uartOut| + |tcpOut| + |udpOut|) + 1
      ensures IsAttention(frame) ==> uartOut == old(uartOut) + [Text("+ok\r\n\r\n")]
      ensures var act := Dispatch(frame, old(atMode), config, wlan);
        act.Reply? ==>
          uartOut == old(uartOut) + [Text(act.text)] && !escaped &&
          tcpSocket == old(tcpSocket) && openCount == old(openCount) && tcpOut == old(tcpOut) && udpOut == old(udpOut)
      ensures var act := Dispatch(frame, old(atMode), config, wlan);
        act == ToTcp ==>
          (tcpSocket, openCount, tcpOut) == TcpAfterSend(old(tcpSocket), old(openCount), old(tcpOut), frame, sendOk) &&
          (escaped <==> !sendOk && !closeOk) && uartOut == old(uartOut) && udpOut == old(udpOut)
      ensures var act := Dispatch(frame, old(atMode), config, wlan);
        act == ToUdp ==>
          (udpOut == if udpConn.Some? && sendOk then old(udpOut) + [(udpConn.value, frame)] else old(udpOut)) &&
          (escaped <==> udpConn.Some? && !sendOk) &&
          uartOut == old(uartOut) && tcpSocket == old(tcpSocket) && openCount == old(openCount) && tcpOut == old(tcpOut)
      ensures var act := Dispatch(frame, old(atMode), config, wlan);
        act == NoAction ==>
          !escaped && uartOut == old(uartOut) && tcpSocket == old(tcpSocket) && openCount == old(openCount) &&
          tcpOut == old(tcpOut) && udpOut == old(udpOut)
    {
      escaped := false;
      var dataLen := |frame|;
      if dataLen == 3 && frame[0] == 0x2B && frame[2] == 0x2B {
        atMode := true;
        SendUart(Text("a"));
        return;
      }
      if dataLen == 1 && frame[0] == 0x61 {
        if atMode {
          SendUart(Text("+ok\r\n\r\n"));
        }
        return;
      }
      if dataLen > 3 && frame[0] == 0x41 && frame[1] == 0x54 && frame[2] == 0x2B {
        var response := AtReply(frame, wlan, config);
        if response.Some? {
          SendUart(Text(response.value));
        }
        return;
      }
      if dataLen > 6 && frame[0..6] == [0x50, 0x4F, 0x53, 0x54, 0x47, 0x57] {
        if config.callHome {
          escaped := SendTcp(frame, sendOk, closeOk);
        }
        return;
      }
      if dataLen > 3 {
        escaped := SendUdp(frame, sendOk);
      }
    }

    /** `get_pv_stats` on this gateway: the query goes out on the UART once
        per attempt, `replies[k]` being what came back to attempt `k`. */
    method PollPvStats(replies: seq<seq<byte>>) returns (result: Telemetry.PvStats)
      requires Valid()
      modifies this`uartOut
      ensures Valid()
      ensures |uartOut| == |old(uartOut)| + Telemetry.AttemptsUsed(replies)
      ensures uartOut[..|old(uartOut)|] == old(uartOut)
      ensures forall k :: |old(uartOut)| <= k < |uartOut| ==> uartOut[k] == Raw(Telemetry.Query)
      ensures result == Telemetry.Outcome(replies)
    {
      var writes;
      writes, result := Telemetry.GetPvStats(replies);
      uartOut := uartOut + seq(|writes|, k requires 0 <= k < |writes| => Raw(writes[k]));
    }
  }
}
