/**
  The wire format of SOCKS version 5 (RFC 1928) as far as the proxy speaks it: the
  client's greeting and request (sections 3 to 5), the replies (section 6) and the
  UDP request header (section 7), each as a parser with the encoder it inverts.
 */
module Socks5Codec {
  import opened Common
  import opened Tools

  datatype Target = V4(ip: seq<byte>) | Name(name: seq<byte>) | V6(ip: seq<byte>)

  type Port = x: int | 0 <= x < 0x1_0000

  datatype Request = Request(methods: seq<byte>, cmd: byte, rsv: byte, target: Target, port: Port)

  /**
    What the bytes a client sends amount to: nothing that can be served, with or
    without a complete greeting; the start of an HTTP request; or a request.
   */
  datatype Meaning = Nothing(greeted: bool) | Http | Asked(request: Request)

  // -- the encoder -------------------------------------------------------------

  predicate ValidTarget(t: Target) {
    match t
    case V4(ip) => |ip| == 4
    case Name(name) => |name| < 256
    case V6(ip) => |ip| == 16
  }

  predicate ValidRequest(r: Request) {
    |r.methods| < 256 && ValidTarget(r.target)
  }

  function AddressType(t: Target): byte {
    match t case V4(_) => 1 case Name(_) => 3 case V6(_) => 4
  }

  function TargetBytes(t: Target): seq<byte>
    requires ValidTarget(t)
  {
    match t
    case V4(ip) => ip
    case Name(name) => [|name|] + name
    case V6(ip) => ip
  }

  function Greeting(methods: seq<byte>): seq<byte>
    requires |methods| < 256
  {
    [5, |methods|] + methods
  }

  function Command(r: Request): seq<byte>
    requires ValidRequest(r)
  {
    [5, r.cmd, r.rsv, AddressType(r.target)] + TargetBytes(r.target) + Uint16ToBytes(r.port)
  }

  function Encode(r: Request): seq<byte>
    requires ValidRequest(r)
  {
    Greeting(r.methods) + Command(r)
  }

  // -- the parser --------------------------------------------------------------

  /** The address at the front of `s` and what follows it. */
  function ParseTarget(atyp: byte, s: seq<byte>): Option<(Target, seq<byte>)> {
    if atyp == 1 then
      if |s| < 4 then None else Some((V4(s[..4]), s[4..]))
    else if atyp == 3 then
      if |s| < 1 || |s| - 1 < s[0] then None else Some((Name(s[1..1 + s[0]]), s[1 + s[0]..]))
    else if atyp == 4 then
      if |s| < 16 then None else Some((V6(s[..16]), s[16..]))
    else None
  }

  function ParseCommand(methods: seq<byte>, s: seq<byte>): Option<Request> {
    if |s| < 4 || s[0] != 5 then None
    else
      match ParseTarget(s[3], s[4..])
      case None => None
      case Some((target, rest)) =>
        if |rest| < 2 then None else Some(Request(methods, s[1], s[2], target, BytesToUint16(rest[..2])))
  }

  function Parse(s: seq<byte>): Meaning {
    if |s| < 2 then Nothing(false)
    else if s[0] != 5 then if s[0] >= 65 then Http else Nothing(false)
    else if |s| - 2 < s[1] then Nothing(false)
    else
      match ParseCommand(s[2..2 + s[1]], s[2 + s[1]..])
      case None => Nothing(true)
      case Some(r) => Asked(r)
  }

  lemma ParseTargetExact(atyp: byte, s: seq<byte>, t: Target, rest: seq<byte>)
    ensures ParseTarget(atyp, s) == Some((t, rest)) <==>
            ValidTarget(t) && AddressType(t) == atyp && s == TargetBytes(t) + rest
  {
    if ValidTarget(t) && AddressType(t) == atyp && s == TargetBytes(t) + rest {
      var n := |TargetBytes(t)|;
      assert s[..n] == TargetBytes(t) && s[n..] == rest;
      if t.Name? {
        assert s[0] == |t.name| && s[1..n] == TargetBytes(t)[1..] == t.name;
      }
    }
  }

  lemma ParsedCommandIsEncoded(methods: seq<byte>, s: seq<byte>)
    requires |methods| < 256 && ParseCommand(methods, s).Some?
    ensures var r := ParseCommand(methods, s).value;
            r.methods == methods && ValidRequest(r) && Command(r) <= s
  {
    hide ParseTarget, TargetBytes, BytesToUint16, Uint16ToBytes;
    var r := ParseCommand(methods, s).value;
    var rest := ParseTarget(s[3], s[4..]).value.1;
    ParseTargetExact(s[3], s[4..], r.target, rest);
    Uint16RoundTrip(r.port, rest[..2]);
    assert s == s[..4] + (TargetBytes(r.target) + (rest[..2] + rest[2..])) == Command(r) + rest[2..];
  }

  lemma EncodedCommandIsParsed(r: Request, tail: seq<byte>)
    requires ValidRequest(r)
    ensures ParseCommand(r.methods, Command(r) + tail) == Some(r)
  {
    hide ParseTarget, TargetBytes, BytesToUint16;
    var s := Command(r) + tail;
    var head, body, port := [5, r.cmd, r.rsv, AddressType(r.target)], TargetBytes(r.target), Uint16ToBytes(r.port);
    Uint16RoundTrip(r.port, port);
    assert s == head + (body + (port + tail));
    assert s[..4] == head && s[4..] == body + (port + tail);
    ParseTargetExact(AddressType(r.target), s[4..], r.target, port + tail);
    assert (port + tail)[..2] == port;
  }

  lemma ParseCommandExact(methods: seq<byte>, s: seq<byte>, r: Request)
    requires |methods| < 256
    ensures ParseCommand(methods, s) == Some(r) <==> r.methods == methods && ValidRequest(r) && Command(r) <= s
  {
    hide ParseCommand, Command;
    if ParseCommand(methods, s) == Some(r) {
      ParsedCommandIsEncoded(methods, s);
    }
    if r.methods == methods && ValidRequest(r) && Command(r) <= s {
      assert s == Command(r) + s[|Command(r)|..];
      EncodedCommandIsParsed(r, s[|Command(r)|..]);
    }
  }

  /**
    Sections 3 to 5 of RFC 1928 in both directions: the bytes mean a request exactly
    when they start with its encoding, whatever the methods offered and whatever
    follows; so the request and where it ends are determined by the bytes alone.
   */
  lemma ParseExact(s: seq<byte>, r: Request)
    ensures Parse(s) == Asked(r) <==> ValidRequest(r) && Encode(r) <= s
    ensures Parse(s).Http? <==> |s| >= 2 && s[0] >= 65
  {
    hide ParseCommand, Command;
    if |s| >= 2 && s[0] == 5 && |s| - 2 >= s[1] {
      var n := 2 + (s[1] as int);
      ParseCommandExact(s[2..n], s[n..], r);
      assert s == Greeting(s[2..n]) + s[n..];
    }
    if ValidRequest(r) && Encode(r) <= s {
      var n := 2 + |r.methods|;
      assert s[..n] == Encode(r)[..n] == Greeting(r.methods);
      assert s[2..n] == Greeting(r.methods)[2..] == r.methods;
      assert Command(r) == Encode(r)[n..] <= s[n..];
    }
  }

  predicate Offers(s: seq<byte>, methods: seq<byte>) {
    |methods| < 256 && Greeting(methods) <= s
  }

  lemma OffersExact(s: seq<byte>, methods: seq<byte>)
    ensures Offers(s, methods) <==>
              |s| >= 2 && s[0] == 5 && s[1] == |methods| && |s| - 2 >= s[1] && s[2..2 + |methods|] == methods
  {
    if Offers(s, methods) {
      assert s[..2 + |methods|] == Greeting(methods);
      assert s[2..2 + |methods|] == Greeting(methods)[2..] == methods;
    }
  }

  /** Whether the client is greeted depends on the greeting alone. */
  lemma GreetedExact(s: seq<byte>)
    ensures Parse(s).Asked? || Parse(s) == Nothing(true) <==> exists methods :: Offers(s, methods)
  {
    hide ParseCommand, Offers;
    if methods :| Offers(s, methods) {
      OffersExact(s, methods);
    }
    if Parse(s).Asked? || Parse(s) == Nothing(true) {
      OffersExact(s, s[2..2 + (s[1] as int)]);
    }
  }

  /** No request's bytes are the start of another's. */
  lemma EncodingPrefixFree(r: Request, q: Request)
    requires ValidRequest(r) && ValidRequest(q) && Encode(r) <= Encode(q)
    ensures r == q
  {
    ParseExact(Encode(q), r);
    ParseExact(Encode(q), q);
  }

  // -- replies -----------------------------------------------------------------

  /** The 4-byte form of an address that has one. */
  function To4(ip: seq<byte>): Option<seq<byte>> {
    if |ip| == 4 then Some(ip)
    else if |ip| == 16 && ip[..12] == [0, 0, 0, 0, 0, 0, 0, 0, 0, 0, 255, 255] then Some(ip[12..])
    else None
  }

  /** IPv4-mapped addresses in their 4-byte form, all others as they are. */
  function Shortest(ip: seq<byte>): seq<byte> {
    if To4(ip).Some? then To4(ip).value else ip
  }

  predicate IsAddress(ip: seq<byte>) {
    |ip| == 4 || |ip| == 16
  }

  datatype Reply = Reply(code: byte, ip: seq<byte>, port: Port)

  function ReplyBytes(r: Reply): seq<byte>
    requires IsAddress(r.ip)
  {
    [5, r.code, 0, if |r.ip| == 16 then 4 else 1] + r.ip + Uint16ToBytes(r.port)
  }

  /** How a client reads a reply by section 6 of RFC 1928: it must be exactly one. */
  function ParseReply(s: seq<byte>): Option<Reply> {
    if |s| < 4 || s[0] != 5 || s[2] != 0 then None
    else
      match ParseTarget(s[3], s[4..])
      case None => None
      case Some((target, rest)) =>
        if target.Name? || |rest| != 2 then None else Some(Reply(s[1], target.ip, BytesToUint16(rest)))
  }

  lemma ReplyRoundTrip(r: Reply, s: seq<byte>)
    requires IsAddress(r.ip)
    ensures ParseReply(s) == Some(r) <==> s == ReplyBytes(r)
  {
    var t := if |r.ip| == 16 then V6(r.ip) else V4(r.ip);
    if ParseReply(s) == Some(r) {
      var (target, rest) := ParseTarget(s[3], s[4..]).value;
      ParseTargetExact(s[3], s[4..], target, rest);
      Uint16RoundTrip(r.port, rest);
      assert s == s[..4] + s[4..];
    } else if s == ReplyBytes(r) {
      var port := Uint16ToBytes(r.port);
      assert s[4..] == TargetBytes(t) + port;
      ParseTargetExact(s[3], s[4..], t, port);
      Uint16RoundTrip(r.port, port);
    }
  }

  // -- the formats, byte by byte --------------------------------------------------

  /** An IPv4-mapped address: ten zero bytes, two of all ones, and the IPv4 address. */
  predicate Mapped(ip: seq<byte>) {
    |ip| == 16 && (forall i :: 0 <= i < 10 ==> ip[i] == 0) && ip[10] == 255 && ip[11] == 255
  }

  /** Only 4-byte and mapped addresses have a 4-byte form; all others stay as they are. */
  lemma ShortestExact(ip: seq<byte>)
    requires IsAddress(ip)
    ensures To4(ip).Some? <==> |ip| == 4 || Mapped(ip)
    ensures Mapped(ip) ==> To4(ip) == Some([ip[12], ip[13], ip[14], ip[15]])
    ensures |ip| == 4 ==> To4(ip) == Some(ip)
    ensures Shortest(ip) == if Mapped(ip) then [ip[12], ip[13], ip[14], ip[15]] else ip
  {
    if |ip| == 16 {
      assert ip[12..] == [ip[12], ip[13], ip[14], ip[15]];
      assert ip[..12] == ip[..10] + [ip[10], ip[11]];
      if Mapped(ip) {
        assert ip[..10] == [0, 0, 0, 0, 0, 0, 0, 0, 0, 0];
      } else if ip[..12] == [0, 0, 0, 0, 0, 0, 0, 0, 0, 0, 255, 255] {
        assert forall i :: 0 <= i < 12 ==> ip[i] == ip[..12][i];
      }
    }
  }

  /** The bytes of a port, the high one first. */
  predicate PortAt(s: seq<byte>, i: nat, port: Port) {
    i + 2 <= |s| && port == (s[i] as int) * 256 + s[i + 1]
  }

  /** Version, command, a byte nobody looks at, and the address type, as sections 4 and 5 of RFC 1928 number them. */
  lemma CommandBytes(r: Request)
    requires ValidRequest(r)
    ensures var s := Command(r);
            && s[0] == 5 && s[1] == r.cmd && s[2] == r.rsv
            && (match r.target
                case V4(ip) => |s| == 10 && s[3] == 1 && s[4..8] == ip && PortAt(s, 8, r.port)
                case Name(name) => |s| == 7 + |name| && s[3] == 3 && s[4] == |name| && s[5..5 + |name|] == name
                                   && PortAt(s, 5 + |name|, r.port)
                case V6(ip) => |s| == 22 && s[3] == 4 && s[4..20] == ip && PortAt(s, 20, r.port))
  {
    hide PortAt;
    var s, body, port := Command(r), TargetBytes(r.target), Uint16ToBytes(r.port);
    assert s == [5, r.cmd, r.rsv, AddressType(r.target)] + body + port;
    assert s[4..4 + |body|] == body;
    PortLast([5, r.cmd, r.rsv, AddressType(r.target)] + body, r.port);
    if r.target.Name? {
      assert s[5..4 + |body|] == body[1..] && s[4] == body[0];
    }
  }

  lemma PortLast(s: seq<byte>, port: Port)
    ensures PortAt(s + Uint16ToBytes(port), |s|, port)
  {
  }

  /** The greeting is followed by the command, and nothing else is in a request. */
  lemma RequestBytes(r: Request)
    requires ValidRequest(r)
    ensures var s, n := Encode(r), 2 + |r.methods|;
            s[0] == 5 && s[1] == |r.methods| && s[2..n] == r.methods && s[n..] == Command(r)
  {
  }

  /** Version, code, zero, address type, address and port, as section 6 of RFC 1928 lays a reply out. */
  lemma ReplyLayout(r: Reply)
    requires IsAddress(r.ip)
    ensures var s := ReplyBytes(r);
            && |s| == 6 + |r.ip| && s[0] == 5 && s[1] == r.code && s[2] == 0
            && s[3] == (if |r.ip| == 4 then 1 else 4)
            && s[4..4 + |r.ip|] == r.ip && PortAt(s, 4 + |r.ip|, r.port)
  {
    var s, port, n := ReplyBytes(r), Uint16ToBytes(r.port), 4 + |r.ip|;
    Uint16RoundTrip(r.port, port);
    assert s[n..] == port && s[n] == s[n..][0] && s[n + 1] == s[n..][1];
  }
}
