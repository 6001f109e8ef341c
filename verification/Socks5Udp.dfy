/**
  The UDP relay of the SOCKS5 proxy: one datagram is decoded, sent on, and answered
  from the same buffer.
 */
module Socks5Udp {
  import opened Common
  import opened Tools
  import opened Socks5Codec

  /** A datagram with the address the client means it for, or got it from. */
  datatype Datagram = Datagram(ip: seq<byte>, port: Port, payload: seq<byte>)

  datatype DecodeError = TooShort | Reserved | Fragmented | UnsupportedType
  datatype Decoded = Ok(datagram: Datagram) | Err(error: DecodeError)

  /** The header for an address in the form it is given. */
  function Header(ip: seq<byte>, port: Port): seq<byte>
    requires IsAddress(ip)
  {
    [0, 0, 0, if |ip| == 16 then 4 else 1] + ip + Uint16ToBytes(port)
  }

  function Encode(d: Datagram): seq<byte>
    requires IsAddress(d.ip)
  {
    Header(d.ip, d.port) + d.payload
  }

  /** Replies name an IPv4-mapped address by its IPv4 form. */
  function EncodeReply(d: Datagram): seq<byte>
    requires IsAddress(d.ip)
  {
    Encode(d.(ip := Shortest(d.ip)))
  }

  function HeadLength(atyp: byte): Option<nat> {
    if atyp == 1 then Some(10) else if atyp == 4 then Some(22) else None
  }

  function Decode(packet: seq<byte>): Decoded {
    if |packet| < 4 then Err(TooShort)
    else if packet[0] != 0 || packet[1] != 0 then Err(Reserved)
    else if packet[2] != 0 then Err(Fragmented)
    else
      match HeadLength(packet[3])
      case None => Err(UnsupportedType)
      case Some(head) =>
        if |packet| < head then Err(TooShort)
        else Ok(Datagram(packet[4..head - 2], BytesToUint16(packet[head - 2..head]), packet[head..]))
  }

  lemma DecodeSound(packet: seq<byte>)
    requires Decode(packet).Ok?
    ensures var d := Decode(packet).datagram; IsAddress(d.ip) && packet == Encode(d)
  {
    hide Uint16ToBytes, BytesToUint16;
    var d := Decode(packet).datagram;
    var head := HeadLength(packet[3]).value;
    Uint16RoundTrip(d.port, packet[head - 2..head]);
    assert packet == packet[..4] + packet[4..head - 2] + packet[head - 2..head] + packet[head..];
  }

  lemma DecodeComplete(d: Datagram)
    requires IsAddress(d.ip)
    ensures Decode(Encode(d)) == Ok(d)
  {
    hide BytesToUint16;
    var packet, port := Encode(d), Uint16ToBytes(d.port);
    var head := 6 + |d.ip|;
    assert packet[4..head - 2] == d.ip && packet[head - 2..head] == port && packet[head..] == d.payload;
    Uint16RoundTrip(d.port, port);
  }

  /** Section 7 of RFC 1928 without fragments and names: the packets accepted are exactly the encodings. */
  lemma DecodeExact(packet: seq<byte>, d: Datagram)
    ensures Decode(packet) == Ok(d) <==> IsAddress(d.ip) && packet == Encode(d)
  {
    if Decode(packet).Ok? {
      DecodeSound(packet);
    }
    if IsAddress(d.ip) {
      DecodeComplete(d);
    }
  }

  lemma ShortestIsAddress(ip: seq<byte>)
    requires IsAddress(ip)
    ensures IsAddress(Shortest(ip)) && Shortest(Shortest(ip)) == Shortest(ip)
  {
  }

  /**
    The client reads back address, port and payload of a reply; the address is the
    one it asked for, byte for byte, exactly when that was not an IPv4-mapped one.
   */
  lemma ReplyRoundTrip(d: Datagram)
    requires IsAddress(d.ip)
    ensures Decode(EncodeReply(d)) == Ok(d.(ip := Shortest(d.ip)))
    ensures Decode(EncodeReply(d)) == Ok(d) <==> |d.ip| == 4 || To4(d.ip).None?
  {
    ShortestIsAddress(d.ip);
    DecodeComplete(d.(ip := Shortest(d.ip)));
  }

  /** Two different addresses are confused in replies only if they are one address in its two forms. */
  lemma RepliesDistinguish(d: Datagram, e: Datagram)
    requires IsAddress(d.ip) && IsAddress(e.ip) && EncodeReply(d) == EncodeReply(e)
    ensures d.port == e.port && d.payload == e.payload
    ensures d.ip == e.ip || (To4(d.ip).Some? && To4(d.ip) == To4(e.ip))
  {
    ReplyRoundTrip(d);
    ReplyRoundTrip(e);
  }

  /** Decodes from the buffer; the address is copied out of it, the payload stays in it. */
  method DecodePacket(packet: array<byte>, bc: nat)
      returns (error: Option<DecodeError>, ip: array<byte>, port: Port, from: nat)
    requires bc <= packet.Length
    ensures fresh(ip)
    ensures error.Some? ==> Decode(packet[..bc]) == Err(error.value)
    ensures error.None? ==> from <= bc && Decode(packet[..bc]) == Ok(Datagram(ip[..], port, packet[from..bc]))
  {
    port, from, ip := 0, 0, new byte[0];
    if bc < 4 {
      return Some(TooShort), ip, port, from;
    }
    assert packet[..bc][..4] == [packet[0], packet[1], packet[2], packet[3]];
    if packet[0] != 0 || packet[1] != 0 {
      return Some(Reserved), ip, port, from;
    }
    if packet[2] != 0 {
      return Some(Fragmented), ip, port, from;
    }
    var head;
    match packet[3] {
      case 1 => head := 4 + 4 + 2;
      case 4 => head := 4 + 16 + 2;
      case _ => return Some(UnsupportedType), ip, port, from;
    }
    if bc < head {
      return Some(TooShort), ip, port, from;
    }
    ip := new byte[head - 6](i requires 0 <= i < head - 6 reads packet => packet[4 + i]);
    assert ip[..] == packet[..bc][4..head - 2];
    assert packet[..bc][head - 2..head] == packet[head - 2..head];
    assert packet[..bc][head..] == packet[head..bc];
    port, from, error := BytesToUint16(packet[head - 2..head]), head, None;
  }

  /** Why a packet is refused, in the order of the tests. */
  lemma DecodeErrors(packet: seq<byte>)
    ensures var d := Decode(packet);
            && (|packet| < 4 ==> d == Err(TooShort))
            && (|packet| >= 4 && (packet[0] != 0 || packet[1] != 0) ==> d == Err(Reserved))
            && (|packet| >= 4 && packet[0] == 0 && packet[1] == 0 && packet[2] != 0 ==> d == Err(Fragmented))
            && (|packet| >= 4 && packet[0] == 0 && packet[1] == 0 && packet[2] == 0 ==>
                  && (packet[3] != 1 && packet[3] != 4 ==> d == Err(UnsupportedType))
                  && (packet[3] == 1 && |packet| < 10 ==> d == Err(TooShort))
                  && (packet[3] == 4 && |packet| < 22 ==> d == Err(TooShort))
                  && (packet[3] == 1 && |packet| >= 10 ==> d.Ok? && d.datagram.ip == packet[4..8])
                  && (packet[3] == 4 && |packet| >= 22 ==> d.Ok? && d.datagram.ip == packet[4..20]))
  {
  }

  /** Two zero bytes, no fragment, address type, address, port and payload, as section 7 of RFC 1928 lays it out. */
  lemma PacketLayout(d: Datagram)
    requires IsAddress(d.ip)
    ensures var s, n := Encode(d), 4 + |d.ip|;
            && |s| == n + 2 + |d.payload| && s[0] == 0 && s[1] == 0 && s[2] == 0
            && s[3] == (if |d.ip| == 4 then 1 else 4)
            && s[4..n] == d.ip && PortAt(s, n, d.port) && s[n + 2..] == d.payload
  {
    var s, port, n := Encode(d), Uint16ToBytes(d.port), 4 + |d.ip|;
    Uint16RoundTrip(d.port, port);
    assert s[n..n + 2] == port && s[n] == s[n..n + 2][0] && s[n + 1] == s[n..n + 2][1];
  }

  /** The client reads the address it asked for, a mapped one in its 4-byte form, its port, and the answer. */
  predicate AnswersTo(d: Datagram, answer: seq<byte>, reply: seq<byte>) {
    && (!Mapped(d.ip) ==> Decode(reply) == Ok(Datagram(d.ip, d.port, answer)))
    && (Mapped(d.ip) ==> Decode(reply) == Ok(Datagram([d.ip[12], d.ip[13], d.ip[14], d.ip[15]], d.port, answer)))
  }

  lemma ReplyAnswers(d: Datagram, answer: seq<byte>)
    requires IsAddress(d.ip)
    ensures AnswersTo(d, answer, EncodeReply(Datagram(d.ip, d.port, answer)))
  {
    hide Decode, EncodeReply, Shortest;
    ShortestExact(d.ip);
    ReplyRoundTrip(Datagram(d.ip, d.port, answer));
  }

  /** The reply packet, from the copied address and the answer in the buffer. */
  method BuildReply(buf: array<byte>, n: nat, ip: array<byte>, port: Port) returns (packet: seq<byte>)
    requires n <= buf.Length && IsAddress(ip[..])
    ensures packet == EncodeReply(Datagram(ip[..], port, buf[..n]))
  {
    if To4(ip[..]).None? {
      packet := [0, 0, 0, 4] + ip[..] + Uint16ToBytes(port) + buf[..n];
    } else {
      packet := [0, 0, 0, 1] + To4(ip[..]).value + Uint16ToBytes(port) + buf[..n];
    }
  }

  /**
    One datagram and its answer. The payload leaves the buffer before the answer
    overwrites it, and the reply still names the address the request named.
   */
  method Relay(buf: array<byte>, bc: nat, dialed: bool, sent: bool, answer: Option<seq<byte>>)
    returns (target: Option<(seq<byte>, Port)>, out: Option<seq<byte>>, reply: Option<seq<byte>>)
    requires bc <= buf.Length && (answer.Some? ==> |answer.value| <= buf.Length)
    modifies buf
    ensures var request := Decode(old(buf[..bc]));
            && (request.Err? ==> target.None? && out.None? && reply.None?)
            && (request.Ok? ==>
                  && target == Some((request.datagram.ip, request.datagram.port))
                  && out == (if dialed then Some(request.datagram.payload) else None)
                  && (reply.Some? <==> dialed && sent && answer.Some?)
                  && (reply.Some? ==>
                        && AnswersTo(request.datagram, answer.value, reply.value)
                        && buf[..|answer.value|] == answer.value))
  {
    hide Decode, EncodeReply, AnswersTo;
    target, out, reply := None, None, None;
    var error, ip, port, from := DecodePacket(buf, bc);
    if error.Some? {
      return;
    }
    target := Some((ip[..], port));
    if !dialed {
      return;
    }
    out := Some(buf[from..bc]);
    if !sent || answer.None? {
      return;
    }
    var n := |answer.value|;
    DecodeSound(buf[..bc]);
    ghost var request := Decode(buf[..bc]).datagram;
    assert request == Datagram(ip[..], port, buf[from..bc]);
    forall i | 0 <= i < n {
      buf[i] := answer.value[i];
    }
    assert buf[..n] == answer.value && ip[..] == request.ip;
    var packet := BuildReply(buf, n, ip, port);
    assert packet == EncodeReply(Datagram(request.ip, request.port, answer.value));
    ReplyAnswers(request, answer.value);
    reply := Some(packet);
  }
}
