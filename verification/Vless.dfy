/** The VLESS request and response headers. */
module Vless {
  import opened Bytes
  import opened TargetAddrs
  import Utf8

  datatype VlessVersion = Zero

  datatype VlessCommand = Tcp | Udp | Mux

  datatype VlessRequest = VlessRequest(version: VlessVersion, id: Uuid, command: VlessCommand, target: TargetAddr)

  datatype VlessError =
    | IoFailure(error: IoError)
    | InvalidVersion(version: byte)
    | InvalidCommand(command: byte)
    | InvalidAddrKind(kind: byte)

  function CommandCode(c: VlessCommand): byte {
    match c
    case Tcp => 1
    case Udp => 2
    case Mux => 3
  }

  function CommandNamed(b: byte): Option<VlessCommand> {
    match b
    case 1 => Some(Tcp)
    case 2 => Some(Udp)
    case 3 => Some(Mux)
    case _ => None
  }

  // ---------------------------------------------------------------------------
  // The request header
  // ---------------------------------------------------------------------------

  /** `port(2) | kind(1) | address`; the length of a domain is truncated to one byte. */
  function EncodeTarget(target: TargetAddr): seq<byte> {
    match target
    case SocketTarget(V4(ip, port)) => PutU16(port) + [1] + ip
    case SocketTarget(V6(ip, port, _, _)) => PutU16(port) + [3] + ip
    case Domain(domain, port) => PutU16(port) + [2] + ([|domain| % 0x100] + domain)
  }

  /** `version(1) | id(16) | addons_len(1) | command(1)` and the target. */
  function EncodeRequest(req: VlessRequest): seq<byte> {
    ([0] + req.id + [0, CommandCode(req.command)]) + EncodeTarget(req.target)
  }

  /** What a stream of bytes says: a request and what follows it, an error found after the bytes before
      `rest`, or too little. */
  datatype Parsed =
    | Accepted(req: VlessRequest, rest: seq<byte>)
    | Rejected(error: VlessError, rest: seq<byte>)
    | Truncated

  function ParseRequest(s: seq<byte>): Parsed {
    if |s| < 22 then Truncated
    else if s[0] != 0 then Rejected(InvalidVersion(s[0]), s[22..])
    else
      var addonsLen: int := s[17];
      if |s| < 22 + addonsLen then Truncated
      else
        var rest := s[22 + addonsLen..];
        match CommandNamed(s[18])
        case None => Rejected(InvalidCommand(s[18]), rest)
        case Some(command) => ParseTarget(s[1..17], command, GetU16(s[19], s[20]), s[21], rest)
  }

  function ParseTarget(id: Uuid, command: VlessCommand, port: u16, kind: byte, s: seq<byte>): Parsed {
    match kind
    case 1 =>
      if |s| < 4 then Truncated
      else Accepted(VlessRequest(Zero, id, command, SocketTarget(V4(s[..4], port))), s[4..])
    case 2 =>
      if |s| < 1 || |s| < 1 + DomainLen(s) then Truncated
      else
        var n := DomainLen(s);
        Accepted(VlessRequest(Zero, id, command, Domain(Utf8.Lossy(s[1..1 + n]), port)), s[1 + n..])
    case 3 =>
      if |s| < 16 then Truncated
      else Accepted(VlessRequest(Zero, id, command, SocketTarget(V6(s[..16], port, 0, 0))), s[16..])
    case _ => Rejected(InvalidAddrKind(kind), s)
  }

  function DomainLen(s: seq<byte>): nat
    requires s != []
  {
    s[0]
  }

  /** A domain is a string, hence well-formed UTF-8. */
  predicate WellTyped(target: TargetAddr) {
    match target
    case SocketTarget(addr) => WellFormed(addr)
    case Domain(domain, _) => Utf8.Valid(domain)
  }

  /** The header has room for all of the target. */
  predicate Representable(target: TargetAddr) {
    match target
    case SocketTarget(V4(_, _)) => true
    case SocketTarget(V6(_, _, flowinfo, scopeId)) => flowinfo == 0 && scopeId == 0
    case Domain(domain, _) => |domain| <= 0xFF
  }

  function PortOf(target: TargetAddr): u16 {
    match target
    case SocketTarget(V4(_, port)) => port
    case SocketTarget(V6(_, port, _, _)) => port
    case Domain(_, port) => port
  }

  function KindOf(target: TargetAddr): byte {
    match target
    case SocketTarget(V4(_, _)) => 1
    case SocketTarget(V6(_, _, _, _)) => 3
    case Domain(_, _) => 2
  }

  function AddressOf(target: TargetAddr): seq<byte> {
    match target
    case SocketTarget(V4(ip, _)) => ip
    case SocketTarget(V6(ip, _, _, _)) => ip
    case Domain(domain, _) => [|domain| % 0x100] + domain
  }

  /** The fixed part of an encoded request takes 22 bytes, each field in its place. */
  lemma {:induction false} EncodedHeader(req: VlessRequest)
    ensures var e := EncodeRequest(req);
            && |e| == 22 + |AddressOf(req.target)|
            && e[0] == 0 && e[1..17] == req.id && e[17] == 0 && e[18] == CommandCode(req.command)
            && GetU16(e[19], e[20]) == PortOf(req.target) && e[21] == KindOf(req.target)
            && e[22..] == AddressOf(req.target)
  {
    U16RoundTrip(PortOf(req.target));
  }

  /** Parsing any stream that starts with an encoded request. */
  lemma {:induction false} ParseEncoded(req: VlessRequest, s: seq<byte>)
    requires |s| >= 22 && EncodeRequest(req)[..22] == s[..22]
    ensures ParseRequest(s) == ParseTarget(req.id, req.command, PortOf(req.target), KindOf(req.target), s[22..])
  {
    hide EncodeRequest, ParseTarget, PortOf, KindOf, AddressOf;
    var e := EncodeRequest(req);
    EncodedHeader(req);
    forall i | 0 <= i < 22 ensures e[i] == s[i] {
      assert e[i] == e[..22][i] && s[i] == s[..22][i];
    }
    assert e[1..17] == s[1..17];
    assert CommandNamed(CommandCode(req.command)) == Some(req.command);
    assert s[22 + 0..] == s[22..];
  }

  /** For every request and payload: parsing the encoding followed by the payload gives both back exactly
      if the header has room for the target. */
  lemma {:induction false} RequestRoundTrip(req: VlessRequest, payload: seq<byte>)
    requires WellTyped(req.target)
    ensures ParseRequest(EncodeRequest(req) + payload) == Accepted(req, payload) <==> Representable(req.target)
  {
    hide EncodeRequest, ParseRequest;
    var e, a := EncodeRequest(req), AddressOf(req.target);
    EncodedHeader(req);
    assert (e + payload)[..22] == e[..22] && (e + payload)[22..] == a + payload;
    ParseEncoded(req, e + payload);
    match req.target
    case SocketTarget(V4(ip, port)) =>
      assert (a + payload)[..4] == ip && (a + payload)[4..] == payload;
    case SocketTarget(V6(ip, port, flowinfo, scopeId)) =>
      assert (a + payload)[..16] == ip && (a + payload)[16..] == payload;
    case Domain(domain, port) =>
      DomainParsed(req, domain, payload);
  }

  lemma {:induction false} DomainParsed(req: VlessRequest, domain: Text, payload: seq<byte>)
    requires Utf8.Valid(domain) && req.target.Domain? && req.target.domain == domain && req.version == Zero
    ensures ParseTarget(req.id, req.command, PortOf(req.target), 2, AddressOf(req.target) + payload)
              == Accepted(req, payload)
        <==> |domain| <= 0xFF
  {
    hide Utf8.Valid, Utf8.Lossy;
    var s := AddressOf(req.target) + payload;
    var n := |domain| % 0x100;
    assert DomainLen(s) == n && s[1..] == domain + payload;
    assert s[1 + n..] == s[1..][n..];
    if |domain| <= 0xFF {
      assert s[1..1 + n] == domain;
      Utf8.LossyIffValid(domain);
    } else {
      assert |s[1 + n..]| > |payload|;
    }
  }

  /** A domain of 256 letters: its length is sent as 0, and the server takes the domain for payload. */
  lemma {:induction false} LongDomainExample(id: Uuid, port: u16)
    ensures var req := VlessRequest(Zero, id, Tcp, Domain(Fill(256, 97), port));
            && WellTyped(req.target)
            && ParseRequest(EncodeRequest(req))
               == Accepted(VlessRequest(Zero, id, Tcp, Domain([], port)), Fill(256, 97))
  {
    Utf8.AsciiIsValid(Fill(256, 97));
    DomainOfLengthZero(id, port, Fill(256, 97));
  }

  lemma {:induction false} DomainOfLengthZero(id: Uuid, port: u16, domain: Text)
    requires |domain| % 0x100 == 0
    ensures ParseRequest(EncodeRequest(VlessRequest(Zero, id, Tcp, Domain(domain, port))))
         == Accepted(VlessRequest(Zero, id, Tcp, Domain([], port)), domain)
  {
    hide EncodeRequest, ParseRequest, Utf8.Lossy, Utf8.Valid;
    var req := VlessRequest(Zero, id, Tcp, Domain(domain, port));
    EncodedHeader(req);
    ParseEncoded(req, EncodeRequest(req));
    Utf8.AsciiIsValid([]);
    Utf8.LossyIffValid([]);
    var s := AddressOf(req.target);
    assert DomainLen(s) == 0 && s[1..1 + 0] == [] && s[1 + 0..] == domain;
  }

  /** A proper prefix of an encoded request is never mistaken for anything else. */
  lemma {:induction false} RequestPrefixTruncated(req: VlessRequest, n: nat)
    requires WellTyped(req.target) && Representable(req.target) && n < |EncodeRequest(req)|
    ensures ParseRequest(EncodeRequest(req)[..n]) == Truncated
  {
    var e, a := EncodeRequest(req), AddressOf(req.target);
    EncodedHeader(req);
    if n >= 22 {
      assert e[..n][..22] == e[..22];
      ParseEncoded(req, e[..n]);
      assert e[..n][22..] == a[..n - 22];
      assert n > 22 ==> e[..n][22..][0] == a[0];
    }
  }

  /** The address of an accepted target is what the stream has between the fixed part and the rest. */
  lemma {:induction false} AcceptedTarget(id: Uuid, command: VlessCommand, port: u16, kind: byte, s: seq<byte>,
                                          req: VlessRequest, rest: seq<byte>)
    requires ParseTarget(id, command, port, kind, s) == Accepted(req, rest)
    requires kind == 2 ==> Utf8.Valid(s[1..1 + DomainLen(s)])
    ensures req.id == id && req.command == command && KindOf(req.target) == kind && PortOf(req.target) == port
    ensures Representable(req.target) && s == AddressOf(req.target) + rest
  {
    hide Utf8.Valid, Utf8.Lossy;
    if kind == 2 {
      var n := DomainLen(s);
      Utf8.LossyIffValid(s[1..1 + n]);
      assert s == [s[0]] + s[1..1 + n] + s[1 + n..];
    }
  }

  /** Conversely, a stream that is accepted is the encoding of the request followed by the rest, provided
      that its addons are empty and its domain, if any, is well-formed UTF-8. */
  lemma {:induction false} AcceptedIsEncoded(s: seq<byte>, req: VlessRequest, rest: seq<byte>)
    requires ParseRequest(s) == Accepted(req, rest)
    requires s[17] == 0 && (s[21] == 2 ==> Utf8.Valid(s[22..][1..1 + DomainLen(s[22..])]))
    ensures s == EncodeRequest(req) + rest && Representable(req.target)
  {
    hide EncodeRequest, ParseTarget, Utf8.Valid, AddressOf, KindOf, PortOf, Representable;
    var e, a := EncodeRequest(req), AddressOf(req.target);
    EncodedHeader(req);
    assert s[22 + 0..] == s[22..];
    U16BytesRoundTrip(s[19], s[20]);
    U16BytesRoundTrip(e[19], e[20]);
    AcceptedTarget(s[1..17], CommandNamed(s[18]).value, GetU16(s[19], s[20]), s[21], s[22..], req, rest);
    forall i | 0 <= i < 22 ensures s[i] == e[i] {
      if 1 <= i < 17 {
        assert s[i] == s[1..17][i - 1] && e[i] == e[1..17][i - 1];
      }
    }
    assert s[..22] == e[..22];
    assert s == s[..22] + s[22..] && e == e[..22] + e[22..];
    assert (e[..22] + a) + rest == e[..22] + (a + rest);
  }

  // ---------------------------------------------------------------------------
  // Requests as bytes
  // ---------------------------------------------------------------------------

  /** The command with the code `c`, which is 1, 2 or 3. */
  function NthCommand(c: byte): VlessCommand {
    if c == 1 then Tcp else if c == 2 then Udp else Mux
  }

  lemma {:induction false} FixedPart(version: byte, id: Uuid, addonsLen: byte, c: byte, hi: byte, lo: byte,
                                     kind: byte, rest: seq<byte>)
    ensures var s := [version] + id + [addonsLen, c, hi, lo, kind] + rest;
            && |s| == 22 + |rest| && s[0] == version && s[1..17] == id && s[17] == addonsLen
            && s[18] == c && s[19] == hi && s[20] == lo && s[21] == kind && s[22..] == rest
  {
    var s := [version] + id + [addonsLen, c, hi, lo, kind] + rest;
    assert s[1..17] == id && s[22..] == rest;
  }

  /** What a request without addons says, byte by byte: the command is 1 for TCP, 2 for UDP and 3 for Mux, the port
      has its high byte first, and the kind is 1 for IPv4, 2 for a domain, behind its length, and 3 for IPv6. */
  lemma {:induction false} AcceptedBytes(id: Uuid, c: byte, hi: byte, lo: byte, ip4: seq<byte>, ip6: seq<byte>,
                                         domain: seq<byte>, payload: seq<byte>)
    requires 1 <= c <= 3 && |ip4| == 4 && |ip6| == 16 && |domain| <= 0xFF
    ensures ParseRequest([0] + id + [0, c, hi, lo, 1] + (ip4 + payload))
         == Accepted(VlessRequest(Zero, id, NthCommand(c), SocketTarget(V4(ip4, 256 * hi + lo))), payload)
    ensures ParseRequest([0] + id + [0, c, hi, lo, 2] + ([|domain|] + domain + payload))
         == Accepted(VlessRequest(Zero, id, NthCommand(c), Domain(Utf8.Lossy(domain), 256 * hi + lo)), payload)
    ensures ParseRequest([0] + id + [0, c, hi, lo, 3] + (ip6 + payload))
         == Accepted(VlessRequest(Zero, id, NthCommand(c), SocketTarget(V6(ip6, 256 * hi + lo, 0, 0))), payload)
  {
    hide Utf8.Lossy, ParseTarget;
    var named := [|domain|] + domain + payload;
    ParsedBytes(id, 0, c, hi, lo, 1, [], ip4 + payload);
    ParsedBytes(id, 0, c, hi, lo, 2, [], named);
    ParsedBytes(id, 0, c, hi, lo, 3, [], ip6 + payload);
    assert [] + (ip4 + payload) == ip4 + payload && [] + named == named && [] + (ip6 + payload) == ip6 + payload;
    AddressBytes(id, NthCommand(c), 256 * hi + lo, ip4, ip6, domain, payload);
  }

  lemma {:induction false} AddressBytes(id: Uuid, command: VlessCommand, port: u16, ip4: seq<byte>, ip6: seq<byte>,
                                        domain: seq<byte>, payload: seq<byte>)
    requires |ip4| == 4 && |ip6| == 16 && |domain| <= 0xFF
    ensures ParseTarget(id, command, port, 1, ip4 + payload)
         == Accepted(VlessRequest(Zero, id, command, SocketTarget(V4(ip4, port))), payload)
    ensures ParseTarget(id, command, port, 2, [|domain|] + domain + payload)
         == Accepted(VlessRequest(Zero, id, command, Domain(Utf8.Lossy(domain), port)), payload)
    ensures ParseTarget(id, command, port, 3, ip6 + payload)
         == Accepted(VlessRequest(Zero, id, command, SocketTarget(V6(ip6, port, 0, 0))), payload)
  {
    hide Utf8.Lossy;
    var named := [|domain|] + domain + payload;
    assert (ip4 + payload)[..4] == ip4 && (ip4 + payload)[4..] == payload;
    assert (ip6 + payload)[..16] == ip6 && (ip6 + payload)[16..] == payload;
    assert DomainLen(named) == |domain| && named[1..1 + |domain|] == domain && named[1 + |domain|..] == payload;
  }

  /** The fixed fields are those of the first 22 bytes; as many bytes as the addons' length says are skipped. */
  lemma {:induction false} ParsedBytes(id: Uuid, addonsLen: byte, c: byte, hi: byte, lo: byte, kind: byte,
                                       addons: seq<byte>, rest: seq<byte>)
    requires |addons| == addonsLen
    ensures ParseRequest([0] + id + [addonsLen, c, hi, lo, kind] + (addons + rest))
         == if 1 <= c <= 3 then ParseTarget(id, NthCommand(c), 256 * hi + lo, kind, rest)
            else Rejected(InvalidCommand(c), rest)
  {
    hide ParseTarget;
    FixedPart(0, id, addonsLen, c, hi, lo, kind, addons + rest);
    var s := [0] + id + [addonsLen, c, hi, lo, kind] + (addons + rest);
    assert s[22 + |addons|..] == s[22..][|addons|..] == rest;
  }

  /** Which requests are refused, with which error, and how much of them has been read then: another version at
      once, another command behind the addons, another kind behind the addons if version and command are good. */
  lemma {:induction false} RejectedBytes(version: byte, id: Uuid, addonsLen: byte, c: byte, hi: byte, lo: byte,
                                         kind: byte, addons: seq<byte>, rest: seq<byte>)
    ensures version != 0 ==>
              ParseRequest([version] + id + [addonsLen, c, hi, lo, kind] + rest)
              == Rejected(InvalidVersion(version), rest)
    ensures |addons| == addonsLen && !(1 <= c <= 3) ==>
              ParseRequest([0] + id + [addonsLen, c, hi, lo, kind] + (addons + rest))
              == Rejected(InvalidCommand(c), rest)
    ensures |addons| == addonsLen && 1 <= c <= 3 && !(1 <= kind <= 3) ==>
              ParseRequest([0] + id + [addonsLen, c, hi, lo, kind] + (addons + rest))
              == Rejected(InvalidAddrKind(kind), rest)
    ensures |addons| < addonsLen ==>
              ParseRequest([0] + id + [addonsLen, c, hi, lo, kind] + addons) == Truncated
  {
    FixedPart(version, id, addonsLen, c, hi, lo, kind, rest);
    FixedPart(0, id, addonsLen, c, hi, lo, kind, addons);
    if |addons| == addonsLen {
      ParsedBytes(id, addonsLen, c, hi, lo, kind, addons, rest);
    }
  }

  /** The encoding of every request, byte by byte. */
  lemma {:induction false} EncodedBytes(id: Uuid, c: byte, port: u16, ip4: seq<byte>, ip6: seq<byte>, flowinfo: nat,
                                        scopeId: nat, domain: Text)
    requires 1 <= c <= 3
    ensures var head := [0] + id + [0, c, port / 256, port % 256];
            && EncodeRequest(VlessRequest(Zero, id, NthCommand(c), SocketTarget(V4(ip4, port)))) == head + [1] + ip4
            && EncodeRequest(VlessRequest(Zero, id, NthCommand(c), Domain(domain, port)))
               == head + [2, |domain| % 256] + domain
            && EncodeRequest(VlessRequest(Zero, id, NthCommand(c), SocketTarget(V6(ip6, port, flowinfo, scopeId))))
               == head + [3] + ip6
  {
    hide EncodeTarget;
    var pre := [0] + id + [0, c];
    assert CommandCode(NthCommand(c)) == c;
    assert pre + [port / 256, port % 256] == [0] + id + [0, c, port / 256, port % 256];
    TargetBytes(pre, port, ip4, ip6, flowinfo, scopeId, domain);
  }

  lemma {:induction false} TargetBytes(pre: seq<byte>, port: u16, ip4: seq<byte>, ip6: seq<byte>, flowinfo: nat,
                                       scopeId: nat, domain: Text)
    ensures var head := pre + [port / 256, port % 256];
            && pre + EncodeTarget(SocketTarget(V4(ip4, port))) == head + [1] + ip4
            && pre + EncodeTarget(Domain(domain, port)) == head + [2, |domain| % 256] + domain
            && pre + EncodeTarget(SocketTarget(V6(ip6, port, flowinfo, scopeId))) == head + [3] + ip6
  {
  }

  // ---------------------------------------------------------------------------
  // Requests with addons
  // ---------------------------------------------------------------------------

  /** What follows the addons: `command(1) | port(2) | kind(1)`. */
  function FixedFields(req: VlessRequest): seq<byte> {
    [CommandCode(req.command)] + PutU16(PortOf(req.target)) + [KindOf(req.target)]
  }

  /** A request whose addons stand where their length says: behind it, in front of the command. */
  function EncodeWithAddons(req: VlessRequest, addons: seq<byte>): seq<byte> {
    ([0] + req.id + [|addons| % 0x100]) + (addons + FixedFields(req)) + AddressOf(req.target)
  }

  /** The parser takes the fixed fields from the first four bytes behind the addons' length. */
  lemma {:induction false} ParseWithAddons(req: VlessRequest, addons: seq<byte>, payload: seq<byte>)
    requires |addons| <= 0xFF
    ensures var fields := (addons + FixedFields(req))[..4];
            ParseRequest(EncodeWithAddons(req, addons) + payload)
            == (match CommandNamed(fields[0])
                case None => Rejected(InvalidCommand(fields[0]), AddressOf(req.target) + payload)
                case Some(command) => ParseTarget(req.id, command, GetU16(fields[1], fields[2]), fields[3],
                                                  AddressOf(req.target) + payload))
  {
    hide ParseTarget, FixedFields, AddressOf, CommandNamed;
    var head, middle := [0] + req.id + [|addons|], addons + FixedFields(req);
    var s := EncodeWithAddons(req, addons) + payload;
    FixedFieldsLength(req);
    assert |head| == 18 && s == head + (middle + (AddressOf(req.target) + payload));
    assert s[0] == head[0] && s[17] == head[17] && s[1..17] == head[1..17] == req.id;
    assert s[18..22] == middle[..4];
    assert s[18] == s[18..22][0] && s[19] == s[18..22][1] && s[20] == s[18..22][2] && s[21] == s[18..22][3];
    assert s[22 + |addons|..] == AddressOf(req.target) + payload;
  }

  lemma {:induction false} FixedFieldsLength(req: VlessRequest)
    ensures |FixedFields(req)| == 4
  {
  }

  lemma {:induction false} TargetFields(id: Uuid, command: VlessCommand, port: u16, kind: byte, s: seq<byte>,
                                        req: VlessRequest, rest: seq<byte>)
    requires ParseTarget(id, command, port, kind, s) == Accepted(req, rest)
    ensures req == VlessRequest(Zero, id, command, req.target)
    ensures KindOf(req.target) == kind && PortOf(req.target) == port
  {
    hide Utf8.Lossy;
  }

  /** A request with addons is read back exactly if the first four bytes behind the addons' length happen to be
      its command, port and kind. */
  lemma {:induction false} AddonsRoundTrip(req: VlessRequest, addons: seq<byte>, payload: seq<byte>)
    requires |addons| <= 0xFF && WellTyped(req.target) && Representable(req.target)
    ensures ParseRequest(EncodeWithAddons(req, addons) + payload) == Accepted(req, payload)
        <==> (addons + FixedFields(req))[..4] == FixedFields(req)
  {
    hide ParseRequest, EncodeRequest, EncodeWithAddons, ParseTarget, WellTyped, Representable, FixedFields, GetU16,
      PutU16, CommandNamed, PortOf, KindOf, AddressOf;
    FixedFieldsLength(req);
    var fields, rest := (addons + FixedFields(req))[..4], AddressOf(req.target) + payload;
    FieldsMean(req, fields);
    ParseWithAddons(req, addons, payload);
    TargetReadBack(req, payload);
    if ParseRequest(EncodeWithAddons(req, addons) + payload) == Accepted(req, payload) {
      TargetFields(req.id, CommandNamed(fields[0]).value, GetU16(fields[1], fields[2]), fields[3], rest, req, payload);
    }
  }

  lemma {:induction false} FieldsMean(req: VlessRequest, fields: seq<byte>)
    requires |fields| == 4
    ensures fields == FixedFields(req) <==>
              && CommandNamed(fields[0]) == Some(req.command) && GetU16(fields[1], fields[2]) == PortOf(req.target)
              && fields[3] == KindOf(req.target)
  {
    U16RoundTrip(PortOf(req.target));
    U16BytesRoundTrip(fields[1], fields[2]);
    assert fields == [fields[0]] + [fields[1], fields[2]] + [fields[3]];
  }

  /** A target whose fields are known is read back from its address. */
  lemma {:induction false} TargetReadBack(req: VlessRequest, payload: seq<byte>)
    requires WellTyped(req.target) && Representable(req.target)
    ensures ParseTarget(req.id, req.command, PortOf(req.target), KindOf(req.target), AddressOf(req.target) + payload)
         == Accepted(req, payload)
  {
    hide ParseRequest, EncodeRequest, ParseTarget, PortOf, KindOf, WellTyped, Representable;
    RequestRoundTrip(req, payload);
    EncodedHeader(req);
    var e := EncodeRequest(req);
    assert (e + payload)[..22] == e[..22] && (e + payload)[22..] == AddressOf(req.target) + payload;
    ParseEncoded(req, e + payload);
  }

  /** A TCP request for port 443 whose addons come back as a UDP request for port 53. */
  lemma {:induction false} AddonsExample(id: Uuid)
    ensures ParseRequest(EncodeWithAddons(VlessRequest(Zero, id, Tcp, SocketTarget(V4([10, 0, 0, 1], 443))),
                                          [2, 0, 53, 1]))
         == Accepted(VlessRequest(Zero, id, Udp, SocketTarget(V4([10, 0, 0, 1], 53))), [])
  {
    hide ParseRequest, EncodeWithAddons, FixedFields;
    var req := VlessRequest(Zero, id, Tcp, SocketTarget(V4([10, 0, 0, 1], 443)));
    ParseWithAddons(req, [2, 0, 53, 1], []);
    FixedFieldsLength(req);
    assert EncodeWithAddons(req, [2, 0, 53, 1]) + [] == EncodeWithAddons(req, [2, 0, 53, 1]);
    assert ([2, 0, 53, 1] + FixedFields(req))[..4] == [2, 0, 53, 1];
    assert AddressOf(req.target) + [] == [10, 0, 0, 1];
    assert [10, 0, 0, 1][..4] == [10, 0, 0, 1] && [10, 0, 0, 1][4..] == [];
  }

  /** A verdict on exactly what has been read goes on to hold, whatever follows. */
  lemma {:induction false} VerdictBefore(s: seq<byte>, more: seq<byte>)
    requires !ParseRequest(s).Truncated? && ParseRequest(s).rest == []
    ensures ParseRequest(s + more) == ParseRequest(s).(rest := more)
  {
    hide ParseTarget;
    if s[0] != 0 {
      assert (s + more)[22..] == more;
      return;
    }
    var n := 22 + (s[17] as int);
    assert (s + more)[1..17] == s[1..17] && (s + more)[n..] == s[n..] + more;
    if CommandNamed(s[18]).Some? {
      TargetBefore(s[1..17], CommandNamed(s[18]).value, GetU16(s[19], s[20]), s[21], s[n..], more);
    }
  }

  lemma {:induction false} TargetBefore(id: Uuid, command: VlessCommand, port: u16, kind: byte, s: seq<byte>,
                                        more: seq<byte>)
    ensures var parsed := ParseTarget(id, command, port, kind, s);
            !parsed.Truncated? && parsed.rest == []
            ==> ParseTarget(id, command, port, kind, s + more) == parsed.(rest := more)
  {
    hide Utf8.Lossy;
    var parsed := ParseTarget(id, command, port, kind, s);
    if !parsed.Truncated? && parsed.rest == [] {
      match kind
      case 1 =>
        assert (s + more)[..4] == s[..4] && (s + more)[4..] == more;
      case 2 =>
        var n := DomainLen(s);
        assert (s + more)[1..1 + n] == s[1..1 + n] && (s + more)[1 + n..] == more;
      case 3 =>
        assert (s + more)[..16] == s[..16] && (s + more)[16..] == more;
      case _ =>
    }
  }

  // ---------------------------------------------------------------------------
  // Stripping the response
  // ---------------------------------------------------------------------------

  /** What follows a complete response header: two bytes and as many addons as the second one says. */
  function StripResponse(s: seq<byte>): Option<seq<byte>> {
    if |s| < 2 || |s| < ResponseLen(s) then None else Some(s[ResponseLen(s)..])
  }

  function ResponseLen(s: seq<byte>): (n: nat)
    requires |s| >= 2
    ensures 2 <= n <= 257
  {
    2 + (s[1] as int)
  }

  /** The bytes behind the response header, if it is ever complete. */
  function Payload(s: seq<byte>): seq<byte> {
    match StripResponse(s)
    case None => []
    case Some(rest) => rest
  }

  lemma {:induction false} IncompleteIsShort(s: seq<byte>)
    requires StripResponse(s) == None
    ensures |s| < 257
  {
  }

  lemma {:induction false} PayloadBehindHeader(s: seq<byte>)
    requires StripResponse(s).Some?
    ensures Payload(s) == StripResponse(s).value
  {
  }

  lemma {:induction false} NoHeaderNoPayload(s: seq<byte>)
    requires StripResponse(s) == None
    ensures Payload(s) == []
  {
  }

  /** A complete header stays what it is when more arrives behind it. */
  lemma {:induction false} StripSplit(s: seq<byte>, more: seq<byte>)
    requires StripResponse(s).Some?
    ensures StripResponse(s + more) == Some(StripResponse(s).value + more)
  {
    assert (s + more)[ResponseLen(s)..] == s[ResponseLen(s)..] + more;
  }

  /** A response is two bytes and as many addons as the second one says, whatever the first one is; what follows is
      the payload, and nothing comes out of a part of the header. */
  lemma {:induction false} ResponseBytes(version: byte, addons: seq<byte>, payload: seq<byte>)
    requires |addons| <= 0xFF
    ensures StripResponse([version, |addons|] + addons + payload) == Some(payload)
    ensures forall n | 0 <= n < 2 + |addons| :: StripResponse(([version, |addons|] + addons + payload)[..n]) == None
  {
    assert ([version, |addons|] + addons + payload)[2 + |addons|..] == payload;
  }

  /** Stripping the response that `Accept` sends gives back exactly what is written behind it, and nothing
      comes out of a part of it. */
  lemma {:induction false} ResponseRoundTrip(payload: seq<byte>)
    ensures StripResponse([0, 0] + payload) == Some(payload)
    ensures forall n | 0 <= n < 2 :: StripResponse(([0, 0] + payload)[..n]) == None
  {
    assert ([0, 0] + payload)[2..] == payload;
  }
}
