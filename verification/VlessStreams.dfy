/**
 VLESS on streams: connecting, accepting, and reading behind the response header.

 Whatever an operation has consumed of its stream, also when it fails or is still suspended, is `got`.
 */
module VlessStreams {
  import opened Bytes
  import opened Streams
  import opened TargetAddrs
  import opened VisionReading
  import opened VisionProspects
  import opened Vless
  import Utf8

  /** What an awaited operation comes to; `Waiting` is one that is still suspended. */
  datatype Result<+T> = Success(value: T) | Failure(error: VlessError) | Waiting

  // ---------------------------------------------------------------------------
  // Accepting a request
  // ---------------------------------------------------------------------------

  /** What has been consumed, and answered, when accepting a request comes to `r`. */
  predicate AcceptOutcome(got: seq<byte>, r: Result<VlessRequest>, answer: seq<byte>) {
    var parsed := ParseRequest(got);
    && answer <= [0, 0]
    && (answer != [] ==> parsed.Accepted?)
    && match r
       case Success(req) => parsed == Accepted(req, []) && answer == [0, 0]
       case Waiting => parsed.Truncated? || (parsed.Accepted? && parsed.rest == [])
       case Failure(IoFailure(_)) => true
       case Failure(error) => parsed == Rejected(error, []) && answer == []
  }

  /** What accepting a request from `s` comes to, if nothing fails, and what it leaves behind. */
  predicate Verdict(s: seq<byte>, r: Result<VlessRequest>, rest: seq<byte>) {
    match ParseRequest(s)
    case Accepted(req, after) => r == Success(req) && rest == after
    case Rejected(error, after) => r == Failure(error) && rest == after
    case Truncated => r == Failure(IoFailure(UnexpectedEof)) && rest == []
  }

  /** The result is there, and not that of a stream with a reason to fail. */
  ghost predicate Settled<T>(stream: AsyncStream, r: Result<T>)
    reads stream.Repr()
  {
    r.Success? || (r.Failure? && (r.error.IoFailure? ==> !stream.CanFail(r.error.error) && !stream.CutOff()))
  }

  predicate RequestOutcome(parsed: Parsed, r: Result<VlessRequest>) {
    match r
    case Success(req) => parsed == Accepted(req, [])
    case Waiting => parsed.Truncated?
    case Failure(IoFailure(_)) => true
    case Failure(error) => parsed == Rejected(error, [])
  }

  /** What has been consumed when reading the address that follows the fixed part of the header comes to `r`. */
  predicate TargetOutcome(parsed: Parsed, r: Result<TargetAddr>) {
    match r
    case Success(target) => parsed.Accepted? && parsed.req.target == target && parsed.rest == []
    case Waiting => parsed.Truncated?
    case Failure(IoFailure(_)) => true
    case Failure(error) => parsed == Rejected(error, [])
  }

  /** Reads a domain: its length, and that many bytes. */
  method AcceptDomain(stream: AsyncStream) returns (r: Result<seq<byte>>, ghost got: seq<byte>)
    requires stream.Valid()
    modifies stream.Repr()
    ensures stream.Valid()
    ensures old(stream.Incoming()) == got + stream.Incoming()
    ensures stream.Delivered() == old(stream.Delivered()) + got && stream.Outgoing() == old(stream.Outgoing())
    ensures r.Success? ==> got != [] && |got| == 1 + DomainLen(got) && r.value == got[1..]
    ensures r.Waiting? ==> (got == [] || |got| < 1 + DomainLen(got)) && stream.Idle()
    ensures r.Waiting? ==> stream.Stalls() > old(stream.Stalls())
    ensures stream.Stalls() >= old(stream.Stalls())
    ensures r.Failure? ==> || (r.error.IoFailure? && stream.CanFail(r.error.error))
                           || (r.error == IoFailure(UnexpectedEof) && stream.Ends()
                               && (got == [] || |got| < 1 + DomainLen(got)))
  {
    hide AsyncStream.Valid, AsyncStream.Incoming, AsyncStream.Delivered, AsyncStream.Outgoing, AsyncStream.Idle,
      AsyncStream.CanFail, AsyncStream.Ends, AsyncStream.Stalls;
    var domainLen, lenGot := ReadBufExact(stream, 1, 1);
    got := lenGot;
    if !domainLen.Ready? {
      return if domainLen.Pending? then Waiting else Failure(IoFailure(domainLen.error)), got;
    }
    var n := DomainLen(domainLen.value);
    var domain, domainGot := ReadBufExact(stream, n, n);
    got := got + domainGot;
    assert got[1..] == domainGot && DomainLen(got) == n;
    if !domain.Ready? {
      return if domain.Pending? then Waiting else Failure(IoFailure(domain.error)), got;
    }
    return Success(domain.value), got;
  }

  /** Reads the address of a target of the given kind. */
  method AcceptTarget(stream: AsyncStream, ghost id: Uuid, ghost command: VlessCommand, port: u16, kind: byte)
    returns (r: Result<TargetAddr>, ghost got: seq<byte>)
    requires stream.Valid()
    modifies stream.Repr()
    ensures stream.Valid()
    ensures old(stream.Incoming()) == got + stream.Incoming()
    ensures stream.Delivered() == old(stream.Delivered()) + got && stream.Outgoing() == old(stream.Outgoing())
    ensures TargetOutcome(ParseTarget(id, command, port, kind, got), r)
    ensures r.Waiting? ==> stream.Idle() && stream.Stalls() > old(stream.Stalls())
    ensures stream.Stalls() >= old(stream.Stalls())
    ensures r.Failure? && r.error.IoFailure? ==>
              || stream.CanFail(r.error.error)
              || (r.error == IoFailure(UnexpectedEof) && stream.Ends()
                  && ParseTarget(id, command, port, kind, got).Truncated?)
  {
    hide Utf8.Lossy, AsyncStream.Valid, AsyncStream.Incoming, AsyncStream.Delivered, AsyncStream.Outgoing,
      AsyncStream.Idle, AsyncStream.CanFail, AsyncStream.Ends, AsyncStream.Stalls;
    match kind {
      case 1 =>
        var ip;
        ip, got := ReadBufExact(stream, 4, 4);
        if !ip.Ready? {
          return if ip.Pending? then Waiting else Failure(IoFailure(ip.error)), got;
        }
        assert got[..4] == got;
        return Success(SocketTarget(V4(ip.value, port))), got;
      case 2 =>
        var domain;
        domain, got := AcceptDomain(stream);
        if !domain.Success? {
          return if domain.Waiting? then Waiting else Failure(domain.error), got;
        }
        assert got[1..1 + DomainLen(got)] == got[1..];
        return Success(Domain(Utf8.Lossy(domain.value), port)), got;
      case 3 =>
        var ip;
        ip, got := ReadBufExact(stream, 16, 16);
        if !ip.Ready? {
          return if ip.Pending? then Waiting else Failure(IoFailure(ip.error)), got;
        }
        assert got[..16] == got;
        return Success(SocketTarget(V6(ip.value, port, 0, 0))), got;
      case _ =>
        got := [];
        assert got + stream.Incoming() == stream.Incoming() && stream.Delivered() + got == stream.Delivered();
        return Failure(InvalidAddrKind(kind)), got;
    }
  }

  lemma {:induction false} HeaderInFront(header: seq<byte>, more: seq<byte>)
    requires |header| == 22
    ensures (header + more)[1..17] == header[1..17]
    ensures forall i | 0 <= i < 22 :: (header + more)[i] == header[i]
  {
  }

  /** Reads a request, however the stream splits it. */
  method ReadRequest(stream: AsyncStream) returns (r: Result<VlessRequest>, ghost got: seq<byte>)
    requires stream.Valid()
    modifies stream.Repr()
    ensures stream.Valid()
    ensures old(stream.Incoming()) == got + stream.Incoming()
    ensures stream.Delivered() == old(stream.Delivered()) + got && stream.Outgoing() == old(stream.Outgoing())
    ensures RequestOutcome(ParseRequest(got), r)
    ensures r.Waiting? ==> stream.Idle() && stream.Stalls() > old(stream.Stalls())
    ensures stream.Stalls() >= old(stream.Stalls())
    ensures r.Failure? && r.error.IoFailure? ==>
              || stream.CanFail(r.error.error)
              || (r.error == IoFailure(UnexpectedEof) && stream.Ends() && ParseRequest(got).Truncated?)
  {
    hide AsyncStream.Valid, AsyncStream.Incoming, AsyncStream.Delivered, AsyncStream.Outgoing, AsyncStream.Idle,
      AsyncStream.CanFail, AsyncStream.Ends, AsyncStream.Stalls, ParseTarget;
    var headerBuf;
    headerBuf, got := ReadBufExact(stream, 22, 22);
    if !headerBuf.Ready? {
      return if headerBuf.Pending? then Waiting else Failure(IoFailure(headerBuf.error)), got;
    }
    var header := headerBuf.value;
    if header[0] != 0 {
      return Failure(InvalidVersion(header[0])), got;
    }
    var id := header[1..17];
    var addonsLen: int := header[17];
    if addonsLen != 0 {
      var addons, addonsGot := ReadBufExact(stream, addonsLen, addonsLen);
      Associative(header, addonsGot, stream.Incoming());
      Associative(old(stream.Delivered()), header, addonsGot);
      got := got + addonsGot;
      if !addons.Ready? {
        return if addons.Pending? then Waiting else Failure(IoFailure(addons.error)), got;
      }
    }
    ghost var addons := got[22..];
    HeaderInFront(header, addons);
    assert header + [] == header && got[22 + addonsLen..] == [];

    var command := CommandNamed(header[18]);
    if command.None? {
      return Failure(InvalidCommand(header[18])), got;
    }
    var port := GetU16(header[19], header[20]);
    var target, targetGot := AcceptTarget(stream, id, command.value, port, header[21]);
    Associative(got, targetGot, stream.Incoming());
    Associative(old(stream.Delivered()), got, targetGot);
    Associative(header, addons, targetGot);
    HeaderInFront(header, addons + targetGot);
    got := got + targetGot;
    assert got[22 + addonsLen..] == targetGot;
    if !target.Success? {
      return if target.Waiting? then Waiting else Failure(target.error), got;
    }
    TargetFields(id, command.value, port, header[21], targetGot, ParseRequest(got).req, []);
    return Success(VlessRequest(Zero, id, command.value, target.value)), got;
  }

  /** Reads a request, however the stream splits it, consuming exactly its bytes, and answers it. */
  method Accept(stream: AsyncStream) returns (r: Result<VlessRequest>, ghost got: seq<byte>, ghost answer: seq<byte>)
    requires stream.Valid()
    modifies stream.Repr()
    ensures stream.Valid()
    ensures old(stream.Incoming()) == got + stream.Incoming()
    ensures stream.Delivered() == old(stream.Delivered()) + got
    ensures stream.Outgoing() == old(stream.Outgoing()) + answer
    ensures AcceptOutcome(got, r, answer)
    ensures r.Success? ==> stream.Flushed()
    ensures r.Waiting? && ParseRequest(got).Truncated? ==> stream.Idle()
    ensures r.Waiting? ==> stream.Stalls() > old(stream.Stalls()) || stream.Stuck()
    ensures Settled(stream, r) ==> Verdict(old(stream.Incoming()), r, stream.Incoming())
  {
    hide AsyncStream.Valid, AsyncStream.Incoming, AsyncStream.Delivered, AsyncStream.Outgoing, AsyncStream.Idle,
      AsyncStream.CanFail, AsyncStream.Stalls, AsyncStream.Stuck, AsyncStream.Flushed, ParseTarget, ParseRequest;
    r, got := ReadRequest(stream);
    answer := [];
    if r.Success? || (r.Failure? && !r.error.IoFailure?) {
      VerdictBefore(got, stream.Incoming());
    }
    assert stream.Outgoing() + [] == stream.Outgoing();
    assert stream.Incoming() == [] ==> got + stream.Incoming() == got;
    if !r.Success? {
      return;
    }
    var written;
    written, answer := stream.WriteAllAndFlush([0, 0]);
    if !written.Ready? {
      r := if written.Pending? then Waiting else Failure(IoFailure(written.error));
    }
  }

  // ---------------------------------------------------------------------------
  // The client's stream
  // ---------------------------------------------------------------------------

  const INITIAL_CAPACITY := 256

  /** While the handshake lasts, what has been taken is in `buf`, or lost; afterwards it is the header, what has
      been delivered, and `buf`. */
  predicate Accounts(taken: seq<byte>, buf: seq<byte>, lost: seq<byte>, delivered: seq<byte>, isHandshakeDone: bool) {
    if isHandshakeDone then StripResponse(taken) == Some(delivered + buf) else taken == buf + lost
  }

  lemma {:induction false} TakenInHandshake(taken: seq<byte>, buf: seq<byte>, lost: seq<byte>, put: seq<byte>)
    requires Accounts(taken, buf, lost, [], false)
    ensures Accounts(taken + put, buf, lost + put, [], false)
    ensures lost == [] ==> Accounts(taken + put, buf + put, [], [], false)
  {
  }

  lemma {:induction false} HeaderComplete(taken: seq<byte>, buf: seq<byte>)
    requires StripResponse(buf).Some?
    ensures Accounts(taken, buf, [], [], false) ==> Accounts(taken, StripResponse(buf).value, [], [], true)
  {
    hide StripResponse;
    assert [] + StripResponse(buf).value == StripResponse(buf).value && buf + [] == buf;
  }

  lemma {:induction false} SurplusDelivered(taken: seq<byte>, buf: seq<byte>, delivered: seq<byte>, n: nat)
    requires n <= |buf|
    ensures Accounts(taken, buf, [], delivered, true) ==> Accounts(taken, buf[n..], [], delivered + buf[..n], true)
  {
    hide StripResponse;
    assert (delivered + buf[..n]) + buf[n..] == delivered + buf;
  }

  lemma {:induction false} PassedThrough(taken: seq<byte>, delivered: seq<byte>, put: seq<byte>)
    ensures Accounts(taken, [], [], delivered, true) ==> Accounts(taken + put, [], [], delivered + put, true)
  {
    hide StripResponse;
    if Accounts(taken, [], [], delivered, true) {
      StripSplit(taken, put);
      assert delivered + [] == delivered && (delivered + put) + [] == delivered + put;
    }
  }

  /** The room a read into `buf` is offered: the spare capacity, or what the buffer grows by. */
  function Spare(buf: seq<byte>, growth: nat): nat {
    if |buf| < INITIAL_CAPACITY then INITIAL_CAPACITY - |buf| else growth
  }

  // ---------------------------------------------------------------------------
  // Whether the handshake loses bytes
  // ---------------------------------------------------------------------------

  /** An inner read with the given room that finds `d` fails, and takes bytes with it. */
  predicate FailsWithBytes(d: Decoded, room: nat) {
    d.bad && 0 < |d.out| <= room
  }

  datatype Fate = Lost | Kept | Undecided

  /** What becomes of the bytes that a handshake reads from an inner stream with the prospects `ds`, if `buf` has
      been read before: an invalid command that a read reaches before the header is complete takes with it what
      precedes it in that read. */
  function HandshakeFate(ds: seq<Decoded>, buf: seq<byte>, growth: nat): Fate
    requires growth > 0 && StripResponse(buf) == None
    decreases 257 - |buf|
  {
    var awake, room := Awake(ds), Spare(buf, growth);
    if awake == [] then Undecided
    else if awake[0].bad && |awake[0].out| <= room then
      if FailsWithBytes(awake[0], room) then Lost else Kept
    else
      var put := Take(awake[0].out, room);
      if StripResponse(buf + put).Some? then Kept
      else
        IncompleteIsShort(buf + put);
        HandshakeFate(Shifted(awake, |put|), buf + put, growth)
  }

  /** The fate of the first read of a handshake with enough room: it is lost if an invalid command follows it. */
  lemma {:induction false} FateOfOneRead(d: Decoded, ds: seq<Decoded>, growth: nat)
    requires 0 < |d.out| <= 256 && growth > 0
    requires d.bad || StripResponse(d.out).Some?
    ensures HandshakeFate([d] + ds, [], growth) == if d.bad then Lost else Kept
  {
    assert Awake([d] + ds) == [d] + ds;
    assert Take(d.out, INITIAL_CAPACITY) == d.out && [] + d.out == d.out;
  }

  /** One read of the handshake follows the prospects: it settles the fate, or leaves it as it is. */
  lemma {:induction false} FateFollows(ds: seq<Decoded>, buf: seq<byte>, growth: nat, found: Decoded, put: seq<byte>,
                                       failed: bool, now: seq<Decoded>)
    requires growth > 0 && StripResponse(buf) == None
    requires put == Take(found.out, Spare(buf, growth))
    requires Follows(ds, Spare(buf, growth), found, put, failed, now)
    ensures var fate := HandshakeFate(ds, buf, growth);
            || fate == Undecided
            || (if failed then fate == (if put == [] then Kept else Lost)
                else put != [] && if StripResponse(buf + put).Some? then fate == Kept
                                  else fate == HandshakeFate(now, buf + put, growth))
  {
    hide StripResponse, Shifted, Awake;
    IncompleteIsShort(buf);
  }

  class VlessStream {
    const inner: AsyncStream
    var buf: seq<byte>               // read, not yet delivered
    var isHandshakeDone: bool

    ghost const start: seq<byte>     // what the inner stream had delivered before
    ghost var delivered: seq<byte>   // what has been delivered behind the header
    ghost var handshakeReads: nat    // inner reads that the handshake has taken so far
    ghost var lost: seq<byte>        // taken by an inner read of the handshake that failed
    const growth: nat                // what a full buffer grows by

    /** What has been taken from the inner stream. */
    ghost function Taken(): seq<byte>
      requires start <= inner.Delivered()
      reads this, inner.Repr()
    {
      inner.Delivered()[|start|..]
    }

    ghost predicate Valid()
      reads this, inner.Repr()
    {
      Coherent() && (!isHandshakeDone ==> StripResponse(buf) == None)
    }

    ghost predicate Coherent()
      reads this, inner.Repr()
    {
      && inner.Valid() && start <= inner.Delivered()
      && growth >= GROWTH
      // bytes that are lost are the last ones, and the handshake never ends
      && (lost != [] ==> inner.Spoiled() && !isHandshakeDone)
      && (!isHandshakeDone ==> delivered == [] && handshakeReads <= |buf|)
      && handshakeReads <= 257
      && Accounts(Taken(), buf, lost, delivered, isHandshakeDone)
    }

    /** What the stream will still deliver. */
    ghost function Remaining(): seq<byte>
      reads this, inner.Repr()
    {
      if isHandshakeDone then buf + inner.Incoming() else Payload(buf + inner.Incoming())
    }

    constructor (inner: AsyncStream)
      requires inner.Valid()
      ensures Valid() && this.inner == inner && start == inner.Delivered()
      ensures !isHandshakeDone && buf == [] && delivered == [] && handshakeReads == 0 && lost == []
      ensures Remaining() == Payload(inner.Incoming())
    {
      hide AsyncStream.Valid, AsyncStream.Incoming, AsyncStream.Delivered, AsyncStream.Outgoing, AsyncStream.Spoiled;
      this.inner, buf, isHandshakeDone := inner, [], false;
      start, delivered, handshakeReads, lost := inner.Delivered(), [], 0, [];
      var spare: nat :| spare >= GROWTH;
      growth := spare;
      new;
      assert this !in inner.Repr();
      assert [] + inner.Incoming() == inner.Incoming();
    }

    /** Sends a request.  Nothing of what is read changes. */
    method Connect(req: VlessRequest) returns (r: Result<()>, ghost took: seq<byte>)
      requires Valid()
      modifies inner.Repr()
      ensures Valid() && Remaining() == old(Remaining())
      ensures inner.Outgoing() == old(inner.Outgoing()) + took && took <= EncodeRequest(req)
      ensures r.Success? ==> took == EncodeRequest(req) && inner.Flushed()
      ensures r.Waiting? ==> inner.Stalls() > old(inner.Stalls()) || inner.Stuck()
      ensures r.Failure? ==> r.error.IoFailure? && inner.CanFail(r.error.error)
    {
      hide StripResponse, Payload, Accounts, AsyncStream.Valid, AsyncStream.Incoming, AsyncStream.Delivered,
        AsyncStream.Outgoing, AsyncStream.CanFail, AsyncStream.Spoiled;
      var buf: seq<byte> := [];
      buf := buf + [0];
      buf := buf + req.id;
      buf := buf + [0];
      buf := buf + [CommandCode(req.command)];
      assert buf == [0] + req.id + [0, CommandCode(req.command)];
      ghost var head := buf;
      match req.target {
        case SocketTarget(V4(ip, port)) =>
          buf := buf + PutU16(port);
          buf := buf + [1];
          buf := buf + ip;
        case Domain(domain, port) =>
          buf := buf + PutU16(port);
          buf := buf + [2];
          buf := buf + [|domain| % 0x100];
          buf := buf + domain;
        case SocketTarget(V6(ip, port, _, _)) =>
          buf := buf + PutU16(port);
          buf := buf + [3];
          buf := buf + ip;
      }
      assert buf == head + EncodeTarget(req.target);

      var written;
      written, took := inner.WriteAllAndFlush(buf);
      match written
      case Pending => return Waiting, took;
      case Failed(e) => return Failure(IoFailure(e)), took;
      case Ready(_) => return Success(()), took;
    }

    /** Writes go to the inner stream as they are. */
    method PollWrite(data: seq<byte>) returns (r: Outcome<nat>)
      requires Valid()
      modifies inner.Repr()
      ensures Valid() && Remaining() == old(Remaining())
      ensures r.Done? ==> r.value <= |data| && inner.Outgoing() == old(inner.Outgoing()) + data[..r.value]
      ensures old(inner.Outgoing()) <= inner.Outgoing() <= old(inner.Outgoing()) + data
      ensures r.Fails? ==> inner.CanFail(r.error)
    {
      hide StripResponse, Payload, Accounts, AsyncStream.Valid, AsyncStream.Incoming, AsyncStream.Delivered,
        AsyncStream.Outgoing, AsyncStream.CanFail, AsyncStream.Spoiled;
      r := inner.PollWrite(data);
    }

    /** Drops a complete response header from `buf`. */
    method Decode() returns (done: bool)
      modifies `buf
      ensures done == StripResponse(old(buf)).Some?
      ensures buf == if done then StripResponse(old(buf)).value else old(buf)
    {
      if |buf| < 2 {
        return false;
      }
      var headerLen := 2 + (buf[1] as int);
      if |buf| < headerLen {
        return false;
      }
      buf := buf[headerLen..];
      return true;
    }

    /** Reads until the response header is complete.  However often it is resumed, it takes at most 257
        inner reads that succeed. */
    method Handshake() returns (r: Poll<()>)
      requires Valid() && !isHandshakeDone
      modifies `buf, `isHandshakeDone, `handshakeReads, `lost, inner.Repr()
      ensures Valid() && inner.Outgoing() == old(inner.Outgoing())
      ensures lost == [] ==> Remaining() == old(Remaining())
      ensures old(lost) <= lost
      ensures r.Ready? <==> isHandshakeDone
      ensures handshakeReads >= old(handshakeReads)
      ensures r.Pending? ==> inner.Idle() && inner.Stalls() > old(inner.Stalls())
      ensures inner.Stalls() >= old(inner.Stalls())
      ensures r.Failed? ==> inner.CanFail(r.error) || (r.error == UnexpectedEof && inner.Ends())
      // it loses bytes exactly if the prospects of the inner stream say so, as far as they go
      ensures old(Prediction()) != Undecided ==>
                !r.Pending? && (lost != [] <==> old(lost) != [] || old(Prediction()) == Lost)
    {
      hide *;
      while true
        invariant Valid() && !isHandshakeDone && inner.Outgoing() == old(inner.Outgoing())
        invariant lost == [] ==> Remaining() == old(Remaining())
        invariant lost == old(lost)
        invariant old(Prediction()) != Undecided ==> Prediction() == old(Prediction())
        invariant handshakeReads >= old(handshakeReads)
        invariant inner.Stalls() >= old(inner.Stalls())
        decreases 257 - |buf|
      {
        var done := HandshakeRead();
        match done
        case Pending => return Pending;
        case Failed(e) => return Failed(e);
        case Ready(complete) =>
          if complete {
            return Ready(());
          }
      }
    }

    /** What becomes of the bytes that the handshake will read. */
    ghost function Prediction(): Fate
      reads this, inner.Repr()
    {
      if growth > 0 && StripResponse(buf) == None then HandshakeFate(inner.Held(), buf, growth) else Kept
    }

    /** One inner read of the handshake, and a look at what there is. */
    method HandshakeRead() returns (r: Poll<bool>)
      requires Valid() && !isHandshakeDone
      modifies `buf, `isHandshakeDone, `handshakeReads, `lost, inner.Repr()
      ensures Valid() && inner.Outgoing() == old(inner.Outgoing())
      ensures lost == [] ==> Remaining() == old(Remaining())
      ensures old(lost) <= lost && (!r.Failed? ==> lost == old(lost))
      ensures r == Ready(true) <==> isHandshakeDone
      ensures r == Ready(false) ==> |old(buf)| < |buf| < 257
      ensures handshakeReads == old(handshakeReads) + if r.Ready? then 1 else 0
      ensures r.Pending? ==> inner.Idle() && inner.Stalls() > old(inner.Stalls())
      ensures inner.Stalls() >= old(inner.Stalls())
      ensures r.Failed? ==> inner.CanFail(r.error) || (r.error == UnexpectedEof && inner.Ends())
      ensures old(Prediction()) != Undecided ==>
                && !r.Pending?
                && (r == Ready(false) ==> Prediction() == old(Prediction()))
                && (r == Ready(true) ==> old(Prediction()) == Kept)
                && (r.Failed? ==> (lost != old(lost) <==> old(Prediction()) == Lost))
    {
      hide StripResponse, Payload, Accounts, HandshakeFate, Awake, Shifted, Spare, FailsWithBytes, Finds,
        AsyncStream.Valid, AsyncStream.Incoming, AsyncStream.Delivered, AsyncStream.Outgoing, AsyncStream.CanFail,
        AsyncStream.Spoiled, AsyncStream.Idle, AsyncStream.Stalls, AsyncStream.Ends, AsyncStream.Held, Finding,
        Follows, Take;
      ghost var b0, ds := buf, inner.Held();
      var n, put, found := ReadChunk();
      assert b0 + [] == b0;
      FateFollows(ds, b0, growth, found, put, n.Failed?, inner.Held());
      if !n.Ready? {
        return if n.Pending? then Pending else Failed(n.error);
      }
      if n.value == 0 {
        return Failed(UnexpectedEof);
      }

      ghost var all := buf;
      ghost var taken := Taken();
      var done := Decode();
      if done {
        HeaderComplete(taken, all);
        StripSplit(all, inner.Incoming());
        PayloadBehindHeader(all + inner.Incoming());
        isHandshakeDone := true;
      } else {
        IncompleteIsShort(buf);
      }
      return Ready(done);
    }

    /** One inner read behind what is in `buf`.  What comes with an error is not kept. */
    method ReadChunk() returns (r: Poll<nat>, ghost put: seq<byte>, ghost found: Decoded)
      requires Valid() && !isHandshakeDone
      modifies `buf, `handshakeReads, `lost, inner.Repr()
      ensures Coherent() && inner.Outgoing() == old(inner.Outgoing())
      ensures lost == [] ==> buf + inner.Incoming() == old(buf + inner.Incoming())
      ensures buf == old(buf) + (if r.Ready? then put else []) && lost == old(lost) + if r.Ready? then [] else put
      // bytes are lost exactly if an invalid command follows them within the spare room
      ensures lost != old(lost) <==> FailsWithBytes(found, Spare(old(buf), growth))
      ensures inner.Vision? ==>
                var vision := inner.vision;
                found == Finding(old(vision.reading), old(vision.readBuf), old(vision.wire), vision.wire)
      // which is decided before, if the inner stream holds anything
      ensures put == Take(found.out, Spare(old(buf), growth))
      ensures Follows(old(inner.Held()), Spare(old(buf), growth), found, put, r.Failed?, inner.Held())
      ensures r.Ready? ==> r.value == |put| && lost == []
      ensures handshakeReads == old(handshakeReads) + if r.Ready? && r.value > 0 then 1 else 0
      ensures r == Ready(0) ==> inner.Ends()
      ensures r.Pending? ==> put == [] && inner.Idle() && inner.Stalls() > old(inner.Stalls())
      ensures inner.Stalls() >= old(inner.Stalls())
      ensures r.Failed? ==> inner.CanFail(r.error)
    {
      hide StripResponse, Accounts, Awake, Shifted, AsyncStream.Valid, AsyncStream.Incoming, AsyncStream.Delivered,
        AsyncStream.Outgoing, AsyncStream.CanFail, AsyncStream.Spoiled, AsyncStream.Idle, AsyncStream.Stalls,
        AsyncStream.Ends,
        AsyncStream.Held, Finding, Follows;
      IncompleteIsShort(buf);
      ghost var b0, before := buf, inner.Delivered();
      var room := Spare(buf, growth);
      var n, data;
      n, data, found := inner.PollRead(room);
      put := data;
      r := match n case Pending => Pending case Failed(e) => Failed(e) case Ready(_) => Ready(|data|);
      TakenMore(start, before, put);
      TakenInHandshake(before[|start|..], b0, lost, put);
      Associative(b0, put, inner.Incoming());
      assert b0 + [] == b0 && lost + [] == lost;
      if !r.Ready? {
        lost := lost + put;
      } else if data != [] {
        buf := buf + data;
        handshakeReads := handshakeReads + 1;
      }
    }

    method PollRead(room: nat) returns (r: Poll<()>, put: seq<byte>)
      requires Valid()
      modifies `buf, `isHandshakeDone, `handshakeReads, `lost, `delivered, inner.Repr()
      // surplus of the handshake comes first, without another inner read
      ensures old(isHandshakeDone && buf != []) ==> r.Ready? && put == Take(old(buf), room) && unchanged(inner.Repr())
      ensures Valid() && inner.Outgoing() == old(inner.Outgoing())
      // delivery in order, with nothing lost and nothing twice, surplus of the handshake included
      ensures lost == [] ==> old(Remaining()) == put + Remaining()
      ensures delivered == old(delivered) + put && |put| <= room
      // nothing is delivered before the header is complete
      ensures put != [] ==> isHandshakeDone
      // waiting only when nothing that has arrived can be delivered
      ensures r.Pending? ==> put == [] && (room > 0 ==> inner.Idle()) && (isHandshakeDone ==> buf == [])
      ensures r.Pending? ==> inner.Stalls() > old(inner.Stalls())
      ensures inner.Stalls() >= old(inner.Stalls())
      // surplus is held back only for want of room
      ensures put != [] ==> |put| == room || buf == []
      // the end of the stream only at the end of the inner one
      ensures r.Ready? && put == [] && room > 0 ==> isHandshakeDone && buf == [] && inner.Ends()
      // an error is the inner stream's, or says that it has ended during the handshake
      ensures r.Failed? ==>
                || inner.CanFail(r.error)
                || (r.error == UnexpectedEof && !isHandshakeDone && inner.Ends()
                    && (inner.Incoming() == [] ==> Remaining() == []))
      // bytes are lost during the handshake only, and exactly if the prospects of the inner stream say so, as far
      // as they go
      ensures old(lost) <= lost
      ensures old(isHandshakeDone) ==> isHandshakeDone && lost == []
      ensures !old(isHandshakeDone) && old(Prediction()) != Undecided ==>
                && (lost != [] <==> old(lost) != [] || old(Prediction()) == Lost)
                && (isHandshakeDone || r.Failed?)
    {
      hide StripResponse, Payload, Accounts, HandshakeFate, AsyncStream.Valid, AsyncStream.Incoming,
        AsyncStream.Delivered, AsyncStream.Outgoing, AsyncStream.CanFail, AsyncStream.Spoiled, AsyncStream.Idle,
        AsyncStream.Stalls, AsyncStream.Ends, VlessStream.Prediction;
      put := [];
      if !isHandshakeDone {
        r := Handshake();
        if !r.Ready? {
          NoHeaderNoPayload(buf);
          assert buf + [] == buf;
          return r, put;
        }
      }

      if buf != [] {
        put := PlaceSurplus(room);
        return Ready(()), put;
      }
      r, put := ReadBehindHeader(room);
    }

    /** Delivers from what the handshake has read beyond the header. */
    method PlaceSurplus(room: nat) returns (put: seq<byte>)
      requires Valid() && isHandshakeDone && buf != []
      modifies `buf, `delivered
      ensures Valid() && old(Remaining()) == put + Remaining()
      ensures put == Take(old(buf), room) && delivered == old(delivered) + put
      ensures room > 0 ==> put != []
    {
      hide StripResponse, Accounts, AsyncStream.Valid, AsyncStream.Incoming, AsyncStream.Delivered,
        AsyncStream.Spoiled;
      assert this !in inner.Repr();
      var len := Min(room, |buf|);
      SurplusDelivered(Taken(), buf, delivered, len);
      ghost var rest := buf + inner.Incoming();
      put, buf := buf[..len], buf[len..];
      assert rest == put + (buf + inner.Incoming());
      delivered := delivered + put;
    }

    /** Delivers what the inner stream does, with its errors. */
    method ReadBehindHeader(room: nat) returns (r: Poll<()>, put: seq<byte>)
      requires Valid() && isHandshakeDone && buf == []
      modifies `delivered, inner.Repr()
      ensures Valid() && inner.Outgoing() == old(inner.Outgoing())
      ensures old(Remaining()) == put + Remaining()
      ensures delivered == old(delivered) + put && |put| <= room
      ensures r.Pending? ==> put == [] && (room > 0 ==> inner.Idle()) && inner.Stalls() > old(inner.Stalls())
      ensures inner.Stalls() >= old(inner.Stalls())
      ensures r.Ready? && put == [] && room > 0 ==> inner.Ends()
      ensures r.Failed? ==> inner.CanFail(r.error)
    {
      hide StripResponse, Accounts, Finding, Finds, Follows, AsyncStream.Valid, AsyncStream.Incoming,
        AsyncStream.Delivered, AsyncStream.Outgoing, AsyncStream.CanFail, AsyncStream.Spoiled, AsyncStream.Idle,
        AsyncStream.Stalls, AsyncStream.Ends, AsyncStream.Held;
      ghost var before := inner.Delivered();
      ghost var found;
      r, put, found := inner.PollRead(room);
      TakenMore(start, before, put);
      PassedThrough(before[|start|..], delivered, put);
      delivered := delivered + put;
    }
  }

  lemma {:induction false} TakenMore(start: seq<byte>, before: seq<byte>, put: seq<byte>)
    requires start <= before
    ensures start <= before + put && (before + put)[|start|..] == before[|start|..] + put
  {
  }
}
