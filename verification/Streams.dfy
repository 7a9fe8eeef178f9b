/**
 Byte streams as their users see them, awaited reads and writes, and exact reads.

 `AsyncStream` is what the protocols on top are given: some transport, a TLS stream, or a Vision stream.  An awaited
 operation that is still suspended when one stops looking is `Pending`.
 */
module Streams {
  import opened Bytes
  import opened VisionReading
  import opened VisionWriting
  import opened VisionSniffing
  import opened VisionProspects
  import opened Sessions
  import opened TlsStreams
  import opened VisionStreams

  /** A transport: bytes in, bytes out, and errors of any kind unless it is reliable. */
  class ByteStream {
    var incoming: seq<byte>         // everything that will still arrive before the end of the stream
    var outgoing: seq<byte>         // everything written so far
    var unflushed: bool             // written bytes are still held back
    ghost var delivered: seq<byte>  // everything read so far
    ghost var blocks: nat           // how often an operation would have blocked
    const reliable: bool            // no operation fails

    constructor (incoming: seq<byte>, reliable: bool)
      ensures this.incoming == incoming && outgoing == [] && delivered == [] && this.reliable == reliable
      ensures !unflushed
    {
      this.incoming, outgoing, delivered, this.reliable := incoming, [], [], reliable;
      unflushed, blocks := false, 0;
    }

    /** Delivers some of the bytes to come, in order; none only at the end of the stream. */
    method PollRead(room: nat) returns (r: Poll<()>, put: seq<byte>)
      modifies `incoming, `delivered, `blocks
      ensures |put| <= room && old(incoming) == put + incoming && delivered == old(delivered) + put
      ensures r.Ready? && put == [] ==> room == 0 || incoming == []
      ensures !r.Ready? ==> put == []
      ensures r.Failed? ==> !reliable
      ensures blocks == old(blocks) + (if r.Pending? then 1 else 0)
    {
      put := [];
      if * {
        r := Pending;
        blocks := blocks + 1;
      } else {
        r := Ready(());
        if !reliable {
          var error: IoError :| true;
          if * {
            r := Failed(error);
          }
        }
        if r.Ready? {
          var n: nat :| n <= room && n <= |incoming| && (n == 0 ==> room == 0 || incoming == []);
          put, incoming := incoming[..n], incoming[n..];
        }
      }
      delivered := delivered + put;
    }

    /** Takes a prefix of `data`; nothing of it only from a stream that may fail. */
    method PollWrite(data: seq<byte>) returns (r: Poll<nat>)
      modifies `outgoing, `unflushed, `blocks
      ensures blocks == old(blocks) + (if r.Pending? then 1 else 0)
      ensures r.Ready? ==> r.value <= |data| && outgoing == old(outgoing) + data[..r.value]
      ensures r == Ready(0) ==> data == [] || !reliable
      ensures !r.Ready? ==> outgoing == old(outgoing)
      ensures r.Failed? ==> !reliable
    {
      if * {
        blocks := blocks + 1;
        return Pending;
      }
      if !reliable {
        if * {
          var error: IoError :| true;
          return Failed(error);
        }
      }
      var n: nat :| n <= |data| && (n == 0 ==> data == [] || !reliable);
      outgoing := outgoing + data[..n];
      unflushed := unflushed || n > 0;
      return Ready(n);
    }

    /** Sends on what is held back. */
    method PollFlush() returns (r: Poll<()>)
      modifies `unflushed, `blocks
      ensures blocks == old(blocks) + (if r.Pending? then 1 else 0)
      ensures r.Ready? ==> !unflushed
      ensures r.Failed? ==> !reliable
    {
      if * {
        blocks := blocks + 1;
        return Pending;
      }
      if !reliable {
        if * {
          var error: IoError :| true;
          return Failed(error);
        }
      }
      unflushed := false;
      return Ready(());
    }
  }

  /** What the pipelines put under a protocol. */
  datatype AsyncStream = Plain(bytes: ByteStream) | Tls(tls: TlsStream) | Vision(vision: VisionTlsStream) {

    ghost function Repr(): set<object> {
      match this
      case Plain(bytes) => {bytes}
      case Tls(tls) => {tls, tls.session}
      case Vision(vision) => {vision, vision.session}
    }

    ghost predicate Valid()
      reads Repr()
    {
      match this
      case Plain(_) => true
      case Tls(tls) => tls.Valid()
      case Vision(vision) => vision.Valid()
    }

    /** Everything that will still be delivered. */
    ghost function Incoming(): seq<byte>
      reads Repr()
    {
      match this
      case Plain(bytes) => bytes.incoming
      case Tls(tls) => tls.session.Inbound()
      case Vision(vision) => vision.Remaining()
    }

    /** Everything delivered so far. */
    ghost function Delivered(): seq<byte>
      reads Repr()
    {
      match this
      case Plain(bytes) => bytes.delivered
      case Tls(tls) => tls.delivered
      case Vision(vision) => vision.delivered
    }

    /** Everything written so far. */
    ghost function Outgoing(): seq<byte>
      reads Repr()
    {
      match this
      case Plain(bytes) => bytes.outgoing
      case Tls(tls) => tls.acknowledged
      case Vision(vision) => Written(vision.log)
    }

    /** Nothing that has arrived can be delivered, or a TLS stream waits to write first. */
    ghost predicate Idle()
      reads Repr()
    {
      match this
      case Plain(_) => true
      case Tls(tls) => tls.session.plaintext == [] || tls.session.unsent > 0
      case Vision(vision) =>
        vision.session.plaintext == [] && Resume(vision.reading, vision.readBuf) == Decoded([], false)
    }

    /** The stream has a reason to fail with `error`. */
    ghost predicate CanFail(error: IoError)
      reads Repr()
    {
      match this
      case Plain(bytes) => !bytes.reliable
      case Tls(tls) =>
        || tls.SessionFailed(error) || (error == UnexpectedEof && tls.session.ended)
        || (error == WriteZero && tls.eof)
      case Vision(vision) =>
        || (error == InvalidData && (Resume(vision.reading, vision.readBuf).bad || vision.session.broken))
        || (error == UnexpectedEof && vision.session.ended && vision.session.plaintext == [])
        || (error == WriteZero && vision.session.zeroWritten)
        || !vision.session.reliable
    }

    /** Everything written has been sent on. */
    ghost predicate Flushed()
      reads Repr()
    {
      match this
      case Plain(bytes) => !bytes.unflushed
      case Tls(tls) => tls.session.unsent == 0 || tls.eof
      case Vision(vision) => vision.session.unsent == 0
    }

    /** Increases whenever an operation has a reason to wait: the transport has blocked, or a Vision stream has read
        ciphertext. */
    ghost function Stalls(): int
      reads Repr()
    {
      match this
      case Plain(bytes) => bytes.blocks
      case Tls(tls) => tls.session.readBlocks + tls.session.writeBlocks
      case Vision(vision) => vision.session.readBlocks + vision.session.writeBlocks - vision.session.inflight
    }

    /** A write may go round without end: the session is full, or its transport accepts nothing. */
    ghost predicate Stuck()
      reads Repr()
    {
      match this
      case Plain(_) => false
      case Tls(tls) => tls.session.free == 0 || tls.session.zeroWritten || !tls.session.reliable
      case Vision(vision) => vision.session.free == 0 && vision.writeBuf != []
    }

    /** A TLS stream has a reason to end with bytes unread. */
    ghost predicate CutOff()
      reads Repr()
    {
      Tls? && (tls.cutShort || tls.session.zeroWritten || tls.session.broken)
    }

    /** The stream may end here. */
    ghost predicate Ends()
      reads Repr()
    {
      Incoming() == [] || CutOff()
    }

    /** The next thing to be read is an invalid command. */
    ghost predicate Spoiled()
      reads Repr()
    {
      Vision? && Resume(vision.reading, vision.readBuf) == Decoded([], true)
    }

    /** What polls will find in what has arrived, as far as that is known before. */
    ghost function Held(): seq<Decoded>
      reads Repr()
    {
      if Vision? then vision.Held() else []
    }

    /** One poll for reading, which finds `found`.  Bytes come along with an error only when that is an invalid
        command, and no others follow. */
    method PollRead(room: nat) returns (r: Poll<()>, put: seq<byte>, ghost found: Decoded)
      requires Valid()
      modifies Repr()
      ensures Valid()
      ensures |put| <= room && old(Incoming()) == put + Incoming()
      ensures Delivered() == old(Delivered()) + put && Outgoing() == old(Outgoing())
      ensures r.Pending? ==> put == [] && (room > 0 ==> Idle()) && Stalls() > old(Stalls())
      ensures Stalls() >= old(Stalls())
      ensures r.Ready? && put == [] && room > 0 ==> Ends()
      ensures r.Failed? ==> CanFail(r.error)
      ensures r.Failed? && put != [] ==> Spoiled()
      ensures room > 0 && old(Spoiled()) ==> r.Failed? && put == [] && Spoiled()
      // a Vision stream finds what it had and what it has taken since
      ensures found == if Vision? then Finding(old(vision.reading), old(vision.readBuf), old(vision.wire), vision.wire)
                       else Decoded(put, false)
      ensures room > 0 ==> Finds(found, room, put, r.Failed?)
      ensures room > 0 ==> Follows(old(Held()), room, found, put, r.Failed?, Held())
    {
      hide Resume, Decode, Written, VisionTlsStream.Valid, VisionTlsStream.Held, TlsStream.ReadsValid,
        TlsStream.WritesValid, Shifted, Finding;
      match this {
        case Plain(bytes) =>
          r, put := bytes.PollRead(room);
          found := Decoded(put, false);
        case Tls(tls) =>
          ghost var was, before := tls.delivered, tls.session.Inbound();
          tls.Losses();
          r, put := tls.PollRead(room);
          tls.Losses();
          NotYetDelivered(was, before, put, tls.session.Inbound());
          found := Decoded(put, false);
        case Vision(vision) =>
          ghost var wire := vision.wire;
          ghost var s, b := vision.reading, vision.readBuf;
          vision.HeldNow();
          ShiftedByNothing(vision.Held());
          r, put := vision.PollRead(room);
          vision.HeldNow();
          found := Finding(s, b, wire, vision.wire);
      }
    }

    /** One poll for writing. */
    method PollWrite(data: seq<byte>) returns (r: Outcome<nat>)
      requires Valid()
      modifies Repr()
      ensures Valid()
      ensures Incoming() == old(Incoming()) && Delivered() == old(Delivered()) && Spoiled() == old(Spoiled())
      ensures r.Done? ==> r.value <= |data| && Outgoing() == old(Outgoing()) + data[..r.value]
      ensures r == Done(0) ==> data == [] || CanFail(WriteZero)
      ensures old(Outgoing()) <= Outgoing() <= old(Outgoing()) + data
      ensures r.Waits? ==> Outgoing() == old(Outgoing()) && Stalls() > old(Stalls())
      ensures Stalls() >= old(Stalls())
      ensures r.Spins? || r.Retries? ==> Stuck()
      ensures r.Fails? ==> CanFail(r.error)
    {
      hide Resume, Decode, Written, VisionTlsStream.Valid, VisionTlsStream.FramedOnce, TlsStream.Valid, Emitted,
        EmitAll, DrawInRange, NoWrap, LeastEmitted, MostEmitted, VisionTlsStream.FramedAs;
      match this {
        case Plain(bytes) =>
          var written := bytes.PollWrite(data);
          r := match written case Ready(n) => Done(n) case Pending => Waits case Failed(e) => Fails(e);
        case Tls(tls) =>
          r := tls.PollWrite(data);
        case Vision(vision) =>
          ghost var log := vision.log;
          r := vision.PollWrite(data);
          OneMoreWritten(vision, log, data[..Min(|data|, 0xFFFF)]);
      }
    }

    /** One poll for flushing. */
    method PollFlush() returns (r: Poll<()>)
      requires Valid()
      modifies Repr()
      ensures Valid()
      ensures Incoming() == old(Incoming()) && Delivered() == old(Delivered()) && Spoiled() == old(Spoiled())
      ensures Outgoing() == old(Outgoing())
      ensures r.Ready? ==> Flushed()
      ensures r.Pending? ==> Stalls() > old(Stalls())
      ensures Stalls() >= old(Stalls())
      ensures r.Failed? ==> CanFail(r.error)
    {
      hide Resume, Decode, Written, VisionTlsStream.Valid, TlsStream.Valid;
      match this {
        case Plain(bytes) =>
          r := bytes.PollFlush();
        case Tls(tls) =>
          if tls.eof {
            return Ready(());
          }
          r := tls.FlushTls();
        case Vision(vision) =>
          r := vision.FlushTls();
      }
    }

    /** An awaited read: polls until there is a result, or for as long as one looks. */
    method ReadBuf(room: nat) returns (r: Poll<()>, put: seq<byte>)
      requires Valid()
      modifies Repr()
      ensures Valid()
      ensures |put| <= room && old(Incoming()) == put + Incoming()
      ensures Delivered() == old(Delivered()) + put && Outgoing() == old(Outgoing())
      ensures r.Pending? ==> put == [] && (room > 0 ==> Idle()) && Stalls() > old(Stalls())
      ensures Stalls() >= old(Stalls())
      ensures r.Ready? && put == [] && room > 0 ==> Ends()
      ensures r.Failed? ==> CanFail(r.error)
    {
      hide *;
      var polls: nat :| true;
      ghost var found;
      r, put, found := PollRead(room);
      while r.Pending? && polls > 0
        invariant Valid()
        invariant |put| <= room && old(Incoming()) == put + Incoming()
        invariant Delivered() == old(Delivered()) + put && Outgoing() == old(Outgoing())
        invariant r.Pending? ==> put == [] && (room > 0 ==> Idle()) && Stalls() > old(Stalls())
        invariant Stalls() >= old(Stalls())
        invariant r.Ready? && put == [] && room > 0 ==> Ends()
        invariant r.Failed? ==> CanFail(r.error)
        decreases polls
      {
        assert [] + Incoming() == Incoming() && Delivered() + [] == Delivered();
        r, put, found := PollRead(room);
        polls := polls - 1;
      }
    }

    /** Awaited writes until all of `data` has been taken, and an awaited flush; `took` is what has been taken. */
    method WriteAllAndFlush(data: seq<byte>) returns (r: Poll<()>, ghost took: seq<byte>)
      requires Valid()
      modifies Repr()
      ensures Valid()
      ensures Incoming() == old(Incoming()) && Delivered() == old(Delivered()) && Spoiled() == old(Spoiled())
      ensures Outgoing() == old(Outgoing()) + took && took <= data
      ensures r.Ready? ==> took == data && Flushed()
      ensures r.Pending? ==> Stalls() > old(Stalls()) || Stuck()
      ensures r.Failed? ==> CanFail(r.error)
    {
      hide *;
      r, took := WriteAll(data);
      if r.Ready? {
        r := Flush();
      }
    }

    /** Awaited writes: polls until all of `data` has been taken, or for as long as one looks. */
    method WriteAll(data: seq<byte>) returns (r: Poll<()>, ghost took: seq<byte>)
      requires Valid()
      modifies Repr()
      ensures Valid()
      ensures Incoming() == old(Incoming()) && Delivered() == old(Delivered()) && Spoiled() == old(Spoiled())
      ensures Outgoing() == old(Outgoing()) + took && took <= data
      ensures r.Ready? ==> took == data
      ensures r.Pending? ==> Stalls() > old(Stalls()) || Stuck()
      ensures Stalls() >= old(Stalls())
      ensures r.Failed? ==> CanFail(r.error)
    {
      hide *;
      var polls: nat :| true;
      var rest := data;
      took := [];
      assert Outgoing() + [] == Outgoing();
      while rest != []
        invariant Valid()
        invariant Incoming() == old(Incoming()) && Delivered() == old(Delivered()) && Spoiled() == old(Spoiled())
        invariant data == took + rest
        invariant Outgoing() == old(Outgoing()) + took
        invariant Stalls() >= old(Stalls())
        decreases polls, |rest|
      {
        ghost var before := Outgoing();
        var written := PollWrite(rest);
        ghost var more := Outgoing()[|before|..];
        TookMore(before, Outgoing(), took, rest, more);
        Associative(old(Outgoing()), took, more);
        took := took + more;
        match written {
          case Waits =>
            if polls == 0 {
              return Pending, took;
            }
            polls := polls - 1;
          case Spins => return Pending, took;
          case Retries => return Pending, took;
          case Fails(e) => return Failed(e), took;
          case Done(n) =>
            if n == 0 {
              return Failed(WriteZero), took;
            }
            rest := rest[n..];
        }
      }
      return Ready(()), took;
    }

    /** An awaited flush. */
    method Flush() returns (r: Poll<()>)
      requires Valid()
      modifies Repr()
      ensures Valid()
      ensures Incoming() == old(Incoming()) && Delivered() == old(Delivered()) && Spoiled() == old(Spoiled())
      ensures Outgoing() == old(Outgoing())
      ensures r.Ready? ==> Flushed()
      ensures r.Pending? ==> Stalls() > old(Stalls())
      ensures Stalls() >= old(Stalls())
      ensures r.Failed? ==> CanFail(r.error)
    {
      hide *;
      var polls: nat :| true;
      r := PollFlush();
      while r.Pending? && polls > 0
        invariant Valid()
        invariant Incoming() == old(Incoming()) && Delivered() == old(Delivered()) && Spoiled() == old(Spoiled())
        invariant Outgoing() == old(Outgoing())
        invariant r.Ready? ==> Flushed()
        invariant r.Pending? ==> Stalls() > old(Stalls())
        invariant Stalls() >= old(Stalls())
        invariant r.Failed? ==> CanFail(r.error)
        decreases polls
      {
        r := PollFlush();
        polls := polls - 1;
      }
    }
  }

  lemma {:induction false} TookMore(before: seq<byte>, after: seq<byte>, took: seq<byte>, rest: seq<byte>,
                                    more: seq<byte>)
    requires before <= after <= before + rest && more == after[|before|..]
    ensures after == before + more && more <= rest
    ensures took + rest == (took + more) + rest[|more|..]
    ensures forall n: nat | n <= |rest| && after == before + rest[..n] :: |more| == n && more == rest[..n]
    ensures after == before ==> more == []
  {
  }

  /** What a TLS stream has not delivered yet is what its session still has. */
  lemma {:induction false} NotYetDelivered(was: seq<byte>, before: seq<byte>, put: seq<byte>, after: seq<byte>)
    ensures was + before == (was + put) + after ==> before == put + after
  {
    if was + before == (was + put) + after {
      assert was + before == was + (put + after);
      assert (was + before)[|was|..] == before && (was + (put + after))[|was|..] == put + after;
    }
  }

  lemma {:induction false} OneMoreWritten(vision: VisionTlsStream, was: seq<Write>, content: seq<byte>)
    ensures vision.FramedOnce(was, content) ==> Written(vision.log) == Written(was) + content
  {
    if vision.FramedOnce(was, content) {
      assert vision.log == was + [vision.log[|was|]];
      WrittenAppend(was, [vision.log[|was|]]);
      assert Written([vision.log[|was|]]) == content + Written([]) == content;
    }
  }

  // ---------------------------------------------------------------------------
  // Exact reads
  // ---------------------------------------------------------------------------

  /** The least that a growable buffer sets aside when it is full and more room is asked for. */
  const GROWTH := 64

  /** No growable buffer holds more. */
  const USIZE_MAX := 0xFFFF_FFFF_FFFF_FFFF

  /** Reads at least `needed` bytes into a fresh buffer of the given capacity.  A read may fill all the
      spare capacity, so exactly `needed` bytes are consumed when the capacity is just that. */
  method ReadBufExact(stream: AsyncStream, capacity: nat, needed: nat)
    returns (r: Poll<seq<byte>>, ghost got: seq<byte>)
    requires stream.Valid()
    modifies stream.Repr()
    ensures stream.Valid()
    ensures old(stream.Incoming()) == got + stream.Incoming()
    ensures stream.Delivered() == old(stream.Delivered()) + got && stream.Outgoing() == old(stream.Outgoing())
    ensures r.Ready? ==> r.value == got && needed <= |got|
    ensures r.Ready? && capacity == needed ==> |got| == needed
    ensures r.Pending? ==> |got| < needed && stream.Idle() && stream.Stalls() > old(stream.Stalls())
    ensures stream.Stalls() >= old(stream.Stalls())
    ensures r == Failed(BufferTooSmall) <== needed > USIZE_MAX
    ensures r.Failed? ==> || (r.error == BufferTooSmall && needed > USIZE_MAX)
                          || (r.error == UnexpectedEof && |got| < needed && stream.Ends())
                          || stream.CanFail(r.error)
  {
    hide AsyncStream.Valid, AsyncStream.Incoming, AsyncStream.Delivered, AsyncStream.Outgoing, AsyncStream.Idle,
      AsyncStream.CanFail, AsyncStream.Ends, AsyncStream.Stalls;
    got := [];
    assert got + stream.Incoming() == stream.Incoming() && stream.Delivered() + got == stream.Delivered();
    if USIZE_MAX < needed {
      return Failed(BufferTooSmall), got;
    }
    var buf: seq<byte> := [];
    var totalN := 0;
    while totalN < needed
      invariant stream.Valid()
      invariant totalN == |buf| && buf == got
      invariant old(stream.Incoming()) == got + stream.Incoming()
      invariant stream.Delivered() == old(stream.Delivered()) + got && stream.Outgoing() == old(stream.Outgoing())
      invariant capacity == needed ==> totalN <= needed
      invariant stream.Stalls() >= old(stream.Stalls())
      decreases needed - totalN
    {
      var spare: nat :| GROWTH <= spare;
      var n, put := stream.ReadBuf(if |buf| < capacity then capacity - |buf| else spare);
      Associative(got, put, stream.Incoming());
      Associative(old(stream.Delivered()), got, put);
      got := got + put;
      if n.Pending? {
        return Pending, got;
      }
      if n.Failed? {
        return Failed(n.error), got;
      }
      if put == [] {
        return Failed(UnexpectedEof), got;
      }
      buf := buf + put;
      totalN := totalN + |put|;
    }
    return Ready(buf), got;
  }
}
