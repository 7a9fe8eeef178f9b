/**
 The Vision stream over a TLS session: framing and unframing in place, and the poll functions that
 move bytes between the caller, the two buffers and the session.

 The ghost fields record the whole life of a stream, and `Valid` relates them: what has been delivered
 to what was taken from the session, and what the session has been given to what was written.
 */
module VisionStreams {
  import opened Bytes
  import opened Sessions
  import opened VisionReading
  import opened VisionWriting
  import opened VisionSniffing
  import opened VisionProspects

  class VisionTlsStream {
    const session: Session
    var reading: ReadState
    var writing: WriteState
    var readBuf: seq<byte>   // wire bytes taken from the session, not yet unframed
    var writeBuf: seq<byte>  // wire bytes framed, not yet accepted by the session

    const ids: seq<Uuid>
    const isServer: bool
    const padding: PaddingConfig
    ghost var wire: seq<byte>       // all bytes ever taken from the session
    ghost var delivered: seq<byte>  // all bytes ever delivered to readers
    ghost var log: seq<Write>       // all writes ever framed

    ghost function Start(): WriteState
    {
      WriteStart(ids, isServer, padding)
    }

    ghost predicate ReadsValid()
      reads `wire, `reading, `readBuf, `delivered
    {
      History(ReadStart(ids, isServer), wire, reading, readBuf, delivered)
    }

    ghost predicate WritesValid()
      reads `writing, `writeBuf, `log, session`sent
    {
      && HasId(Start())
      && Fits(log) && DrawsInRange(padding, log)
      && writing == AfterAll(Start(), log)
      && session.sent + writeBuf == EmitAll(Start(), log)
    }

    ghost predicate Valid()
      reads this, session
    {
      session.Valid() && ReadsValid() && WritesValid()
      && CanDraw(padding)
    }

    /** What the stream will still deliver, once all that is on its way has arrived. */
    ghost function Remaining(): seq<byte>
      reads this, session
    {
      Resume(reading, readBuf + session.Inbound()).out
    }

    /** What calls will find in what has arrived. */
    ghost function Held(): seq<Decoded>
      reads `reading, `readBuf, session`plaintext
    {
      Prospects(reading, readBuf, session.plaintext)
    }

    /** Ciphertext has arrived that carries nothing for the reader and does not end the stream. */
    ghost predicate OnlyTickets()
      reads session
    {
      session.prompt && session.inflight > 0 && session.Inbound() == []
      && !session.closed && !session.ended && !session.broken
    }

    lemma {:induction false} HeldNow()
      ensures Held() != [] && Held()[0] == Resume(reading, readBuf)
      ensures Held()[0] != Decoded([], false) ==> Awake(Held()) == Held()
      ensures Held()[0] == Decoded([], false) ==>
                Awake(Held()) == if session.plaintext == [] then [] else Awake(Held()[1..])
    {
      AwakeNow(reading, readBuf, session.plaintext);
    }

    lemma {:induction false} NothingRemains()
      requires Resume(reading, readBuf).out == [] && session.Inbound() == []
      ensures Remaining() == []
    {
      NothingFollows(readBuf, session.Inbound());
    }

    constructor (session: Session, ids: seq<Uuid>, isServer: bool, padding: PaddingConfig)
      requires session.Valid() && session.sent == []
      requires isServer || ids != []
      requires CanDraw(padding)
      ensures Valid()
      ensures this.session == session && this.ids == ids && this.isServer == isServer && this.padding == padding
      ensures wire == [] && delivered == [] && log == []
      ensures reading == ReadStart(ids, isServer) && writing == Start() && readBuf == [] && writeBuf == []
    {
      this.session, this.ids, this.isServer, this.padding := session, ids, isServer, padding;
      reading, readBuf := ReadStart(ids, isServer), [];
      writing, writeBuf := WriteStart(ids, isServer, padding), [];
      wire, delivered, log := [], [], [];
      new;
      HistoryStay(reading, []);
      NothingEmitted(Start());
    }

    /** Moves content from `readBuf` to the caller, who has room for `room` bytes. */
    method UnframeReadBuf(room: nat) returns (r: Io<nat>, put: seq<byte>)
      modifies `reading, `readBuf
      ensures Unframes(old(reading), old(readBuf), room, reading, readBuf, put, r.Err?)
      ensures r == if r.Err? then Err(InvalidData) else Ok(|put|)
    {
      hide History, Advances, Resume, Unframes, HeaderRead;
      put := [];
      ghost var s0, b0 := reading, readBuf;
      HistoryStay(s0, b0);
      if room == 0 {
        CallEnds(s0, b0, room, reading, readBuf, put, false);
        return Ok(0), put;
      }

      var n := 0;
      r := Ok(0);
      while true
        invariant History(s0, b0, reading, readBuf, put)
        invariant n == |put| <= room
        invariant r == Ok(0)
        decreases |readBuf|, StageRank(reading)
      {
        if readBuf == [] {
          break;
        }
        ghost var s, b, was := reading, readBuf, put;

        if reading.readDirectCopy {
          var lenToWrite := Min(|readBuf|, room - n);
          if lenToWrite == 0 {
            ContentHeld(reading, readBuf);
            break;
          }
          put, readBuf := put + readBuf[..lenToWrite], readBuf[lenToWrite..];
          n := n + lenToWrite;
          StepRaw(s, b, lenToWrite);
          HistoryCompose(s0, b0, s, b, was, reading, readBuf, b[..lenToWrite]);
          continue;
        }

        match reading.stage {
          case Id =>
            if reading.isServer {
              if |readBuf| < 16 {
                break;
              }
              if readBuf[..16] !in reading.ids {
                reading := reading.(readDirectCopy := true);
                StepUnknownId(s, b);
                HistorySilent(s0, b0, s, b, put, reading, readBuf);
                continue;
              }
              readBuf := readBuf[16..];
              StepKnownId(s, b);
            } else {
              StepClientId(s, b);
            }
            reading := reading.(stage := Header);
            HistorySilent(s0, b0, s, b, put, reading, readBuf);

          case Header =>
            if |readBuf| < 5 {
              break;
            }
            var command := ParseCommand(readBuf[0]);
            if command.None? {
              BadHeader(reading, readBuf);
              r := Err(InvalidData);
              break;
            }
            reading := HeaderRead(reading, readBuf, command.value);
            readBuf := readBuf[5..];
            StepHeader(s, b, command.value);
            HistorySilent(s0, b0, s, b, put, reading, readBuf);

          case Content =>
            var neededLen := reading.remainingContentLen;
            if neededLen == 0 {
              reading := reading.(stage := Padding);
              StepContentDone(s, b);
              HistorySilent(s0, b0, s, b, put, reading, readBuf);
              continue;
            }
            var lenToProcess := Min(|readBuf|, neededLen);
            var lenToWrite := Min(lenToProcess, room - n);
            if lenToWrite > 0 {
              put, readBuf := put + readBuf[..lenToWrite], readBuf[lenToWrite..];
              reading := reading.(remainingContentLen := neededLen - lenToWrite);
              n := n + lenToWrite;
              StepContent(s, b, lenToWrite);
              HistoryCompose(s0, b0, s, b, was, reading, readBuf, b[..lenToWrite]);
            }
            if room - n == 0 && reading.remainingContentLen > 0 {
              if readBuf != [] {
                ContentHeld(reading, readBuf);
              }
              break;
            }
            if reading.remainingContentLen == 0 {
              StepContentDone(reading, readBuf);
              HistorySilent(s0, b0, reading, readBuf, put, reading.(stage := Padding), readBuf);
              reading := reading.(stage := Padding);
            }

          case Padding =>
            var lenToDrop := Min(|readBuf|, reading.remainingPaddingLen);
            readBuf := readBuf[lenToDrop..];
            reading := reading.(remainingPaddingLen := reading.remainingPaddingLen - lenToDrop);
            StepPadding(s, b, lenToDrop);
            HistorySilent(s0, b0, s, b, put, reading, readBuf);
            if reading.remainingPaddingLen == 0 {
              ghost var s1 := reading;
              match reading.command {
                case ContinuePadding =>
                  reading := reading.(stage := Header);
                case EndPadding =>
                  reading := reading.(readDirectCopy := true, stage := Header);
                case StartDirectCopy =>
                  reading := reading.(readDirectCopy := true, stage := Header);
              }
              StepPaddingDone(s1, readBuf);
              HistorySilent(s0, b0, s1, readBuf, put, reading, readBuf);
            } else {
              break;
            }
        }
      }

      CallEnds(s0, b0, room, reading, readBuf, put, r.Err?);
      if r.Ok? {
        r := Ok(n);
      }
    }

    /** Looks for the TLS handshake in what is written. */
    method SniffHello(buf: seq<byte>)
      modifies `writing
      ensures writing == Sniffed(old(writing), buf)
    {
      hide Sniffed, HelloExtended, HelloComplete, CipherSuite;
      ghost var s := writing;
      if writing.hello == [] {
        SniffedFirst(s, buf);
        if IsHandshake(buf) {
          writing := writing.(isSafeTlsVersion := true, hello := buf);
          if buf[5] == 0x01 {
            writing := writing.(canStartDirectCopy := true);
          }
        }
      } else {
        SniffedLater(s, buf);
        if |writing.hello| < MAX_TLS_SNIFFING_LEN {
          var lenToCopy := Min(MAX_TLS_SNIFFING_LEN - |writing.hello|, |buf|);
          writing := writing.(hello := writing.hello + buf[..lenToCopy]);
        }
        SniffSuite();
      }
    }

    /** Decides by the cipher suite, once the hello reaches as far. */
    method SniffSuite()
      modifies `writing
      ensures HelloComplete(old(writing.hello)) ==>
                writing == old(writing).(hello := [], canStartDirectCopy := CipherSuite(old(writing.hello)) != 0x1305)
      ensures !HelloComplete(old(writing.hello)) ==> writing == old(writing)
    {
      hide HelloComplete, CipherSuite;
      HelloIncomplete(writing.hello);
      if |writing.hello| >= 44 {
        var sessionIdLen := SessionIdLen(writing.hello);
        if |writing.hello| >= 47 + sessionIdLen {
          var idx := 44 + sessionIdLen;
          var cipherSuite := GetU16(writing.hello[idx], writing.hello[idx + 1]);
          SuiteAt(writing.hello);
          writing := writing.(canStartDirectCopy := cipherSuite != 0x1305, hello := []);
        }
      }
    }

    /** Appends the frame for `buf` to `writeBuf`, and sniffs `buf`. */
    method FrameBuf(buf: seq<byte>) returns (ghost draw: u16)
      requires HasId(writing)
      requires CanDraw(writing.padding)
      modifies `writing, `writeBuf
      ensures DrawInRange(writing.padding, |buf|, draw)
      ensures writing == AfterWrite(old(writing), Write(buf, draw))
      ensures writeBuf == old(writeBuf) + Emitted(old(writing), Write(buf, draw))
    {
      hide Sniffed, Frame, AfterWrite, Emitted, U16, IsAppData, FrameHeader, Fill, PutU16;
      ghost var s0, b0 := writing, writeBuf;
      if writing.writeDirectCopy {
        writeBuf := writeBuf + buf;
        draw := if |buf| <= writing.padding.longThreshold then writing.padding.longLo else writing.padding.paddingLo;
        RawWrite(s0, Write(buf, draw));
        return;
      }
      ghost var id: seq<byte> := if SendsId(writing) then writing.ids[0] else [];

      if !writing.isServer && !writing.hasSentId {
        writeBuf := writeBuf + writing.ids[0];
        writing := writing.(hasSentId := true);
      }
      assert writeBuf == b0 + id;

      var command := ContinuePadding;
      if writing.canStartDirectCopy && IsAppData(buf) {
        writing := writing.(hasSeenTlsAppData := true, writeDirectCopy := true);
        command := StartDirectCopy;
      }

      ghost var starts := command == StartDirectCopy;
      assert writing == s0.(hasSentId := s0.hasSentId || !s0.isServer, writeDirectCopy := starts,
                            hasSeenTlsAppData := s0.hasSeenTlsAppData || starts);
      SniffHello(buf);

      var paddingLen;
      paddingLen, draw := DrawPadding(|buf|);
      PutFrame(command, buf, paddingLen);
      Associative(b0, id, Frame(command, buf, paddingLen));
      FramedWrite(s0, Write(buf, draw), starts, paddingLen);
    }

    /** Draws the padding length for a frame with `n` bytes of content. */
    method DrawPadding(n: nat) returns (paddingLen: u16, ghost draw: u16)
      requires CanDraw(writing.padding)
      ensures DrawInRange(writing.padding, n, draw)
      ensures paddingLen == if n <= writing.padding.longThreshold
                            then Max(0, U16(draw + writing.padding.longBase) - U16(n)) else draw
    {
      if n <= writing.padding.longThreshold {
        var drawn: u16 :| writing.padding.longLo <= drawn <= writing.padding.longHi;
        paddingLen := Max(0, U16(drawn + writing.padding.longBase) - U16(n));
        draw := drawn;
      } else {
        paddingLen :| writing.padding.paddingLo <= paddingLen <= writing.padding.paddingHi;
        draw := paddingLen;
      }
    }

    /** Appends one frame: header, content and padding. */
    method PutFrame(command: Command, buf: seq<byte>, paddingLen: u16)
      modifies `writeBuf
      ensures writeBuf == old(writeBuf) + Frame(command, buf, paddingLen)
    {
      hide PutU16, U16, CommandByte, Fill;
      ghost var b0 := writeBuf;
      writeBuf := writeBuf + [CommandByte(command)];
      writeBuf := writeBuf + PutU16(U16(|buf|));
      writeBuf := writeBuf + PutU16(paddingLen);
      ghost var header := FrameHeader(command, |buf|, paddingLen);
      Associative(b0, [CommandByte(command)], PutU16(U16(|buf|)));
      Associative(b0, [CommandByte(command)] + PutU16(U16(|buf|)), PutU16(paddingLen));
      assert writeBuf == b0 + header;
      writeBuf := writeBuf + buf;
      ghost var padding: seq<byte> := Fill(paddingLen, 0);
      Associative(b0, header, buf);
      Associative(b0, header + buf, padding);
      Associative(header, buf, padding);
      if paddingLen > 0 {
        writeBuf := writeBuf + Fill(paddingLen, 0);
      } else {
        FillNone(0 as byte);
        assert writeBuf + padding == writeBuf;
      }
    }

    /** Takes plaintext from the session; fails or says how the stream stands when there is none. */
    method TakePlaintext() returns (r: Io<nat>)
      requires Valid()
      modifies `readBuf, `wire, session`plaintext
      ensures Valid() && Remaining() == old(Remaining())
      ensures wire + session.Inbound() == old(wire + session.Inbound())
      ensures old(wire) <= wire
      ensures r.Ok? ==> |session.Inbound()| == |old(session.Inbound())| - r.value
      ensures r.Ok? ==> |readBuf| == |old(readBuf)| + r.value
      ensures readBuf == old(readBuf) + wire[|old(wire)|..]
      ensures old(session.plaintext) != [] ==> r.Ok? && r.value > 0 && Held() == old(Held())[1..]
      ensures readBuf == old(readBuf) + Take(old(session.plaintext), 4096)
      ensures r.Err? || r == Ok(0) ==> unchanged(`readBuf) && unchanged(`wire) && session.plaintext == []
      ensures r == Ok(0) <==> r.Ok? && session.closed && old(session.plaintext) == []
      ensures r.Err? ==> !session.closed && r.error == (if session.ended then UnexpectedEof else WouldBlock)
    {
      hide History, EmitAll, AfterAll, Resume, Prospects;
      ProspectsNow(reading, readBuf, session.plaintext);
      var temp := session.Read(CHUNK);
      if temp.Err? {
        return Err(temp.error);
      }
      if temp.value == [] {
        return Ok(0);
      }
      HistoryArrive(ReadStart(ids, isServer), wire, reading, readBuf, delivered, temp.value);
      readBuf := readBuf + temp.value;
      wire := wire + temp.value;
      assert readBuf + session.Inbound() == old(readBuf + session.Inbound());
      return Ok(|temp.value|);
    }

    /** Reads and processes ciphertext; the result is the number of ciphertext bytes read. */
    method ReadCipher() returns (r: Poll<nat>)
      requires Valid()
      modifies session`plaintext, session`undecrypted, session`future, session`inflight, session`ended,
               session`closed, session`broken, session`handshaking, session`unsent, session`free,
               session`readBlocks, session`errors
      ensures Valid() && session.Inbound() == old(session.Inbound()) && Remaining() == old(Remaining())
      ensures old(session.closed) ==> session.closed
      ensures r == Ready(0) ==> session.future == [] && (session.closed || session.ended)
      ensures r.Ready? && old(session.closed) ==> r.value == 0
      ensures r.Ready? ==> session.undecrypted == []
      ensures r.Pending? ==> unchanged(session`plaintext) && unchanged(session`inflight)
                             && !session.closed && !(session.inflight == 0 && session.hungUp)
      ensures r.Ready? && r.value > 0 ==> session.inflight < old(session.inflight)
      ensures session.inflight <= old(session.inflight)
      ensures r.Failed? ==> session.broken || unchanged(session`inflight)
      ensures r.Failed? ==> (r.error == InvalidData && session.broken) || (r.error == OtherIo && !session.reliable)
      ensures session.ended ==> old(session.ended) || r == Ready(0) || session.broken
      ensures old(session.broken) ==> session.broken
      ensures !r.Failed? ==> session.broken == old(session.broken)
      ensures session.readBlocks == old(session.readBlocks) + (if r.Pending? then 1 else 0)
      ensures session.errors == old(session.errors) + (if r.Failed? then 1 else 0)
      ensures r.Ready? ==> !session.broken
      ensures session.ended == old(session.ended) || r == Ready(0) || r.Failed?
      ensures session.prompt && !old(session.closed) && !old(session.broken) && old(session.inflight) > 0
              ==> r == Ready(old(session.inflight)) && session.inflight == 0 && !session.closed
    {
      hide History, EmitAll, AfterAll, WritesValid, ReadsValid;
      var readCipherLen := session.ReadTls();
      if readCipherLen.Err? {
        return if readCipherLen.error == WouldBlock then Pending else Failed(readCipherLen.error);
      }
      var processed := session.ProcessNewPackets();
      if processed.Err? {
        return Failed(InvalidData);
      }
      return Ready(readCipherLen.value);
    }

    /** Gets more wire bytes: from the session if it has some, else from the transport.  `Ready(false)` is
        the end of the stream, `Ready(true)` says to go on. */
    method Refill() returns (r: Poll<bool>)
      requires Valid()
      modifies `readBuf, `wire
      modifies session`plaintext, session`undecrypted, session`future, session`inflight, session`ended,
               session`closed, session`broken, session`handshaking, session`unsent, session`free,
               session`readBlocks, session`errors
      ensures Valid() && Remaining() == old(Remaining())
      ensures wire + session.Inbound() == old(wire + session.Inbound())
      ensures old(wire) <= wire
      ensures session.inflight <= old(session.inflight)
      ensures r == Ready(true) ==> |session.Inbound()| < |old(session.Inbound())|
                                   || (|session.Inbound()| == |old(session.Inbound())|
                                       && session.closed && !old(session.closed))
      ensures r != Ready(true) ==> unchanged(`readBuf)
      ensures readBuf == old(readBuf) + wire[|old(wire)|..]
      ensures old(session.plaintext) != [] ==>
                r == Ready(true) && Held() == old(Held())[1..] && unchanged(session`inflight)
      ensures r == Ready(false) ==> session.closed && session.Inbound() == []
      ensures r.Pending? ==> session.plaintext == []
      // it waits because the transport has blocked, or because of what has been read; never at the end of the stream
      ensures session.readBlocks == old(session.readBlocks)
              || (r.Pending? && session.readBlocks == old(session.readBlocks) + 1)
      ensures r.Pending? ==> !session.closed && !session.ended && session.broken == old(session.broken)
      ensures r.Pending? && session.readBlocks == old(session.readBlocks)
              ==> session.inflight < old(session.inflight) && !session.broken
      ensures r.Pending? && session.inflight == old(session.inflight)
              ==> !session.closed && !(session.inflight == 0 && session.hungUp)
      // having read ciphertext, it waits, although the transport has not blocked, exactly if that gave no plaintext
      // and neither ended the stream nor failed
      ensures session.inflight < old(session.inflight) && !old(session.broken) ==>
                (r.Pending? <==> |readBuf| == |old(readBuf)|
                                 && !session.closed && !session.ended && !session.broken)
      ensures old(OnlyTickets()) ==> r.Pending? && session.inflight == 0
      // an error that occurs is reported, and none is invented
      ensures session.errors == old(session.errors) || (r.Failed? && session.errors == old(session.errors) + 1)
      ensures r.Failed? ==>
                || (session.errors > old(session.errors) && r.error == InvalidData && session.broken)
                || (session.errors > old(session.errors) && r.error == OtherIo && !session.reliable)
                || (r.error == UnexpectedEof && session.ended && session.plaintext == [])
    {
      hide Resume, History, EmitAll, AfterAll, WritesValid, ReadsValid, VisionTlsStream.Remaining, Prospects;
      var taken := TakePlaintext();
      if taken.Ok? && taken.value > 0 {
        return Ready(true);
      }
      if taken.Err? && taken.error != WouldBlock {
        return Failed(taken.error);
      }

      var readCipherLen := ReadCipher();
      if readCipherLen.Pending? {
        return Pending;
      }
      if readCipherLen.Failed? {
        return Failed(readCipherLen.error);
      }

      taken := TakePlaintext();
      if taken == Ok(0) && readCipherLen.value == 0 {
        return Ready(false);
      }
      if taken.Err? {
        return if taken.error == WouldBlock then Pending else Failed(taken.error);
      }
      return Ready(true);
    }

    method PollRead(room: nat) returns (r: Poll<()>, put: seq<byte>)
      requires Valid()
      modifies `reading, `readBuf, `wire, `delivered
      modifies session`plaintext, session`undecrypted, session`future, session`inflight, session`ended,
               session`closed, session`broken, session`handshaking, session`unsent, session`free,
               session`readBlocks, session`errors
      ensures Valid()
      // delivery in order, with nothing lost and nothing twice
      ensures old(Remaining()) == put + Remaining()
      ensures |put| <= room && delivered == old(delivered) + put
      ensures wire + session.Inbound() == old(wire + session.Inbound()) && old(wire) <= wire
      // what is delivered is what there is and what fits, of what had arrived or has been taken since; an error of
      // the wire comes with what precedes it exactly if that fits
      ensures room > 0 ==> Finds(Finding(old(reading), old(readBuf), old(wire), wire), room, put, r.Failed?)
      // that is decided before the call, if what has arrived holds anything for the caller
      ensures room > 0 ==>
                Follows(old(Held()), room, Finding(old(reading), old(readBuf), old(wire), wire), put, r.Failed?, Held())
      // then no ciphertext is read; and a call without room does nothing
      ensures room > 0 && Awake(old(Held())) != [] ==> session.inflight == old(session.inflight)
      ensures room == 0 ==> r.Ready? && put == [] && wire == old(wire) && Held() == old(Held()) && unchanged(session)
      // waiting only when nothing can be delivered, and then for the transport, unless ciphertext was read
      ensures r.Pending? ==> put == [] && room > 0
                             && session.plaintext == [] && Resume(reading, readBuf) == Decoded([], false)
      ensures session.readBlocks == old(session.readBlocks)
              || (r.Pending? && session.readBlocks == old(session.readBlocks) + 1)
      ensures r.Pending? ==> !session.closed && !session.ended
      ensures r.Pending? && session.readBlocks == old(session.readBlocks)
              ==> session.inflight < old(session.inflight) && !session.broken
      ensures r.Pending? && session.inflight == old(session.inflight)
              ==> !session.closed && !(session.inflight == 0 && session.hungUp)
      // ciphertext without plaintext in it: it is read, and the call waits with no read outstanding
      ensures room > 0 && old(OnlyTickets()) && old(Resume(reading, readBuf)) == Decoded([], false)
              ==> r.Pending? && session.inflight == 0
      // the end of the stream only when it has ended and everything has been delivered
      ensures r.Ready? && put == [] && room > 0 ==> session.closed && Remaining() == []
      // an error is the wire's own, with everything before it delivered, or the session's, or the transport's
      ensures r.Failed? ==>
                || (r.error == InvalidData && Resume(reading, readBuf) == Decoded([], true))
                || (put == [] && session.errors > old(session.errors) && r.error == InvalidData && session.broken)
                || (put == [] && session.errors > old(session.errors) && r.error == OtherIo && !session.reliable)
                || (put == [] && r.error == UnexpectedEof && session.ended && session.plaintext == [])
      ensures session.errors == old(session.errors) || (r.Failed? && session.errors == old(session.errors) + 1)
      ensures session.inflight <= old(session.inflight)
    {
      hide *;
      ghost var s0, b0, ds := reading, readBuf, Held();
      ghost var tickets := OnlyTickets() && Resume(s0, b0) == Decoded([], false);
      var round;
      HistoryStay(reading, readBuf);
      NothingFollows(b0, wire[|wire|..]);
      HeldNow();
      while true
        invariant Valid()
        invariant old(Remaining()) == Remaining()
        invariant delivered == old(delivered)
        invariant wire + session.Inbound() == old(wire + session.Inbound()) && old(wire) <= wire
        invariant session.inflight <= old(session.inflight)
        invariant session.readBlocks == old(session.readBlocks) && session.errors == old(session.errors)
        invariant History(s0, b0 + wire[|old(wire)|..], reading, readBuf, [])
        invariant Awake(ds) != [] ==> Awake(Held()) == Awake(ds) && session.inflight == old(session.inflight)
        invariant room == 0 ==> wire == old(wire) && Held() == ds && unchanged(session)
        invariant tickets ==> OnlyTickets() && Resume(reading, readBuf) == Decoded([], false)
        decreases |session.Inbound()|, if session.closed then 0 else 1
      {
        ghost var s1, b1, wire1, taken := reading, readBuf, wire, wire[|old(wire)|..];
        ghost var held := Held();
        FoundNow(s0, b0 + taken, s1, b1);
        FindingNow(s0, b0, old(wire), wire);
        HeldNow();
        round, put := ReadRound(room);
        if round != Ready(true) && room > 0 {
          FollowsFromStart(ds, held, room, Resume(s1, b1), put, round.Failed?, Held());
        }
        match round {
          case Failed(e) => return Failed(e), put;
          case Pending => return Pending, put;
          case Ready(goesOn) =>
            if !goesOn {
              return Ready(()), put;
            }
        }
        ghost var more := wire[|wire1|..];
        assert wire[|old(wire)|..] == taken + more;
        HistoryArrive(s0, b0 + taken, s1, b1, [], more);
        HistorySilent(s0, b0 + taken + more, s1, b1 + more, [], reading, readBuf);
        Associative(b0, taken, more);
      }
    }

    /** One round of the loop; `Ready(true)` says that it found nothing for the caller, and has more to look at. */
    method ReadRound(room: nat) returns (r: Poll<bool>, put: seq<byte>)
      requires Valid()
      modifies `reading, `readBuf, `wire, `delivered
      modifies session`plaintext, session`undecrypted, session`future, session`inflight, session`ended,
               session`closed, session`broken, session`handshaking, session`unsent, session`free,
               session`readBlocks, session`errors
      ensures Valid() && old(Remaining()) == put + Remaining()
      ensures |put| <= room && delivered == old(delivered) + put
      ensures wire + session.Inbound() == old(wire + session.Inbound()) && old(wire) <= wire
      ensures session.inflight <= old(session.inflight)
      ensures r == Ready(true) ==>
                && put == [] && room > 0 && old(Resume(reading, readBuf)) == Decoded([], false)
                && History(old(reading), old(readBuf) + wire[|old(wire)|..], reading, readBuf, [])
                && (|session.Inbound()| < |old(session.Inbound())|
                    || (|session.Inbound()| == |old(session.Inbound())| && session.closed && !old(session.closed)))
                && session.readBlocks == old(session.readBlocks) && session.errors == old(session.errors)
                && (Awake(old(Held())) != [] ==>
                      Awake(Held()) == Awake(old(Held())) && session.inflight == old(session.inflight))
                && !old(OnlyTickets())
      ensures r != Ready(true) ==> wire == old(wire)
      ensures r != Ready(true) && room > 0 ==>
                && Finds(old(Resume(reading, readBuf)), room, put, r.Failed?)
                && Follows(old(Held()), room, old(Resume(reading, readBuf)), put, r.Failed?, Held())
                && (Awake(old(Held())) != [] ==> session.inflight == old(session.inflight))
      ensures room == 0 ==> r == Ready(false) && put == [] && Held() == old(Held()) && unchanged(session)
      ensures r.Pending? ==> put == [] && session.plaintext == [] && Resume(reading, readBuf) == Decoded([], false)
      ensures session.readBlocks == old(session.readBlocks)
              || (r.Pending? && session.readBlocks == old(session.readBlocks) + 1)
      ensures r.Pending? ==> !session.closed && !session.ended
      ensures r.Pending? && session.readBlocks == old(session.readBlocks)
              ==> session.inflight < old(session.inflight) && !session.broken
      ensures r.Pending? && session.inflight == old(session.inflight)
              ==> !session.closed && !(session.inflight == 0 && session.hungUp)
      ensures room > 0 && old(OnlyTickets()) && old(Resume(reading, readBuf)) == Decoded([], false)
              ==> r.Pending? && session.inflight == 0
      ensures r == Ready(false) && put == [] && room > 0 ==> session.closed && Remaining() == []
      ensures r.Failed? ==>
                || (r.error == InvalidData && Resume(reading, readBuf) == Decoded([], true))
                || (put == [] && session.errors > old(session.errors) && r.error == InvalidData && session.broken)
                || (put == [] && session.errors > old(session.errors) && r.error == OtherIo && !session.reliable)
                || (put == [] && r.error == UnexpectedEof && session.ended && session.plaintext == [])
      ensures session.errors == old(session.errors) || (r.Failed? && session.errors == old(session.errors) + 1)
    {
      hide *;
      ghost var s1, b1, ds := reading, readBuf, Held();
      HeldNow();
      var unframed;
      unframed, put := Deliver(room);
      FindsWhatThereIs(Resume(s1, b1), room, put, unframed.Err?);
      if room > 0 && (unframed.Err? || unframed.value > 0) {
        FollowsNow(ds, room, Resume(s1, b1), put, unframed.Err?, Held());
      }
      if unframed.Err? {
        return Failed(unframed.error), put;
      }
      if unframed.value > 0 {
        return Ready(false), put;
      }
      if room == 0 {
        return Ready(false), put;
      }

      ghost var s2, b2, wire2 := reading, readBuf, wire;
      FoundNow(s1, b1, s2, b2);
      r := Refill();
      if r == Ready(true) {
        HistoryArrive(s1, b1, s2, b2, [], wire[|wire2|..]);
      } else {
        assert wire[|wire2|..] == [] && wire == wire2;
        FollowsNow(ds, room, Resume(s1, b1), put, r.Failed?, Held());
      }
      if r == Ready(false) {
        NothingRemains();
      }
    }

    method PollWrite(buf: seq<byte>) returns (r: Outcome<nat>)
      requires Valid()
      modifies `writing, `writeBuf, `log
      modifies session`sent, session`unsent, session`free, session`zeroWritten,
               session`writeBlocks, session`errors
      ensures Valid()
      // waiting: nothing of the caller's buffer has been framed
      // (and there was something left over from a write that failed)
      ensures r.Waits? ==> log == old(log) && old(writeBuf) != [] && session.unsent > 0
      ensures r.Waits? ==> session.writeBlocks == old(session.writeBlocks) + 1
      // success: all ciphertext has been written out, unless the transport has blocked
      ensures r.Done? ==> session.unsent == 0 || session.writeBlocks == old(session.writeBlocks) + 1
      ensures r.Spins? || r.Fails? ==> session.writeBlocks == old(session.writeBlocks)
      ensures old(session.writeBlocks) <= session.writeBlocks <= old(session.writeBlocks) + 1
      // and exactly the reported prefix has been framed, once, and the session has it all
      ensures r.Done? ==> r.value == Min(|buf|, 0xFFFF) && FramedOnce(old(log), buf[..r.value])
      ensures r.Done? ==> writeBuf == [] && session.sent == EmitAll(Start(), log)
      // with nothing left over, it is framed in any case
      ensures old(writeBuf) == [] ==> FramedOnce(old(log), buf[..Min(|buf|, 0xFFFF)])
      // otherwise: at most that
      ensures log == old(log) || FramedOnce(old(log), buf[..Min(|buf|, 0xFFFF)])
      ensures r.Fails? ==> (r.error == WriteZero && session.zeroWritten) || !session.reliable
      // an error that occurs is reported, and none is invented
      ensures session.errors == old(session.errors) + (if r.Fails? && r.error != WouldBlock then 1 else 0)
      // never returning: the session is full, and nobody empties it
      ensures !r.Retries?
      ensures r.Spins? ==> session.free == 0 && writeBuf != []
      // with nothing left over, that happens exactly if the frame, with the padding drawn, exceeds the session's room
      ensures old(writeBuf) == [] && session.reliable ==>
                exists draw: u16 ::
                  && FramedAs(old(log), Write(buf[..Min(|buf|, 0xFFFF)], draw))
                  && DrawInRange(padding, Min(|buf|, 0xFFFF), draw)
                  && (r.Spins? <==> |Emitted(old(writing), Write(buf[..Min(|buf|, 0xFFFF)], draw))| > old(session.free))
      // so certainly if the smallest frame does, and certainly not if the largest fits
      ensures old(writeBuf) == [] && session.reliable && (NoWrap(padding) || old(writing.writeDirectCopy)) ==>
                && (LeastEmitted(old(writing), Min(|buf|, 0xFFFF)) > old(session.free) ==> r.Spins?)
                && (MostEmitted(old(writing), Min(|buf|, 0xFFFF)) <= old(session.free) ==> !r.Spins?)
      ensures old(session.sent) <= session.sent
    {
      hide History, EmitAll, AfterAll, ReadsValid, Fits, DrawsInRange, Emitted, DrawInRange, NoWrap, LeastEmitted,
        MostEmitted;
      var drained := DrainBeforeFraming();
      if !drained.Done? {
        return drained.PropagateFailure();
      }

      var lenToWrite := Min(|buf|, 0xFFFF);
      ghost var draw := FrameWrite(buf[..lenToWrite]);
      ghost var frame := Emitted(old(writing), Write(buf[..lenToWrite], draw));
      EmittedRange(old(writing), Write(buf[..lenToWrite], draw));
      assert [] + frame == frame;

      var accepted := DrainWriteBuf();
      if !accepted.Done? {
        return accepted.PropagateFailure();
      }
      assert session.sent + [] == session.sent;
      var flushed := FlushTls();
      if flushed.Failed? {
        return Fails(flushed.error);
      }
      return Done(lenToWrite);
    }

    /** Frames a write, and records it. */
    method FrameWrite(buf: seq<byte>) returns (ghost draw: u16)
      requires Valid() && |buf| <= 0xFFFF
      modifies `writing, `writeBuf, `log
      ensures Valid() && FramedOnce(old(log), buf) && FramedAs(old(log), Write(buf, draw))
      ensures DrawInRange(padding, |buf|, draw) && HasId(old(writing)) && old(writing.padding) == padding
      ensures writeBuf == old(writeBuf) + Emitted(old(writing), Write(buf, draw))
    {
      hide History, EmitAll, AfterAll, ReadsValid, AfterWrite, Emitted, DrawInRange;
      draw := FrameBuf(buf);
      ghost var w := Write(buf, draw);
      RunSnoc(Start(), log, w);
      Associative(session.sent, old(writeBuf), Emitted(AfterAll(Start(), log), w));
      log := log + [w];
    }

    ghost predicate FramedOnce(was: seq<Write>, content: seq<byte>)
      reads `log
    {
      |log| == |was| + 1 && was <= log && log[|was|].content == content
    }

    ghost predicate FramedAs(was: seq<Write>, w: Write)
      reads `log
    {
      log == was + [w]
    }

    /** Hands what an earlier, failed write left over to the session, making room in it when it is full. */
    method DrainBeforeFraming() returns (r: Outcome<()>)
      requires Valid()
      modifies `writeBuf, session`sent, session`unsent, session`free, session`zeroWritten,
               session`writeBlocks, session`errors
      ensures Valid()
      ensures r.Done? ==> writeBuf == []
      ensures r.Waits? ==> old(writeBuf) != [] && session.unsent > 0
      ensures session.writeBlocks == old(session.writeBlocks) + (if r.Waits? then 1 else 0)
      ensures session.errors == old(session.errors) + (if r.Fails? && r.error != WouldBlock then 1 else 0)
      ensures r.Fails? ==> (r.error == WriteZero && session.zeroWritten) || !session.reliable
      // full, with nothing to be written out
      ensures !r.Retries?
      ensures r.Spins? ==> writeBuf != [] && session.free == 0 && session.unsent == 0 && session.handshaking
      ensures old(writeBuf) == [] ==> r.Done? && unchanged(session) && unchanged(`writeBuf)
      ensures old(session.sent) <= session.sent
    {
      hide History, EmitAll, AfterAll, ReadsValid;
      while writeBuf != []
        invariant Valid() && old(session.sent) <= session.sent
        invariant session.writeBlocks == old(session.writeBlocks) && session.errors == old(session.errors)
        invariant old(writeBuf) == [] ==> unchanged(session) && unchanged(`writeBuf)
        decreases |writeBuf|, session.unsent
      {
        var accepted := OfferWriteBuf();
        if accepted.Err? {
          return Fails(accepted.error);
        }
        if accepted.value == 0 {
          if session.unsent == 0 {
            return Spins;
          }
          var written := session.WriteTls(true);
          if written.Err? {
            return if written.error == WouldBlock then Waits else Fails(written.error);
          }
        }
      }
      return Done(());
    }

    /** Hands all of `writeBuf` to the session, writing nothing out in between: a session that is full stays
        full, so the loop ends exactly if it has room for all. */
    method DrainWriteBuf() returns (r: Outcome<()>)
      requires Valid()
      modifies `writeBuf, session`sent, session`unsent, session`free,
               session`errors
      ensures Valid()
      ensures r.Done? ==> writeBuf == []
      ensures r.Spins? ==> writeBuf != [] && session.free == 0
      ensures !r.Waits? && !r.Retries? && (r.Fails? ==> !session.reliable)
      ensures session.reliable ==> (r.Spins? <==> |old(writeBuf)| > old(session.free))
      ensures session.errors == old(session.errors) + (if r.Fails? && r.error != WouldBlock then 1 else 0)
      ensures old(session.sent) <= session.sent
    {
      hide History, EmitAll, AfterAll, ReadsValid;
      while writeBuf != []
        invariant Valid() && old(session.sent) <= session.sent
        invariant session.errors == old(session.errors)
        invariant |writeBuf| > session.free <==> |old(writeBuf)| > old(session.free)
        decreases |writeBuf|
      {
        var accepted := OfferWriteBuf();
        if accepted.Err? {
          return Fails(accepted.error);
        }
        if accepted.value == 0 {
          return Spins;
        }
      }
      return Done(());
    }

    /** Offers `writeBuf` to the session once, and drops from it what was accepted. */
    method OfferWriteBuf() returns (r: Io<nat>)
      requires Valid() && writeBuf != []
      modifies `writeBuf, session`sent, session`unsent, session`free,
               session`errors
      ensures Valid()
      ensures session.sent + writeBuf == old(session.sent + writeBuf)
      ensures old(session.sent) <= session.sent
      ensures r.Ok? ==> r.value == Min(|old(writeBuf)|, old(session.free)) && |writeBuf| == |old(writeBuf)| - r.value
      ensures r.Ok? ==> session.free + r.value <= old(session.free)
      ensures r == Ok(0) ==> unchanged(session) && unchanged(`writeBuf)
      ensures session.errors == old(session.errors) + (if r.Err? && r.error != WouldBlock then 1 else 0)
      ensures r.Err? ==> !session.reliable
    {
      hide History, EmitAll, AfterAll, ReadsValid;
      r := session.Write(writeBuf);
      if r.Ok? {
        writeBuf := writeBuf[r.value..];
      }
      assert session.sent + writeBuf == old(session.sent + writeBuf);
    }

    /** Writes pending ciphertext until there is none or the transport blocks. */
    method FlushTls() returns (r: Poll<()>)
      requires Valid()
      modifies session`unsent, session`free, session`zeroWritten,
               session`writeBlocks, session`errors
      ensures Valid()
      ensures r.Ready? ==> session.unsent == 0
      ensures r.Pending? ==> session.unsent > 0
      ensures session.writeBlocks == old(session.writeBlocks) + (if r.Pending? then 1 else 0)
      ensures session.errors == old(session.errors) + (if r.Failed? then 1 else 0)
      ensures r.Failed? ==> r.error != WouldBlock
      ensures r.Failed? ==> (r.error == WriteZero && session.zeroWritten) || !session.reliable
    {
      hide History, EmitAll, AfterAll, ReadsValid, WritesValid;
      while session.unsent > 0
        invariant Valid()
        invariant session.writeBlocks == old(session.writeBlocks) && session.errors == old(session.errors)
        decreases session.unsent
      {
        var written := session.WriteTls(true);
        if written.Err? {
          return if written.error == WouldBlock then Pending else Failed(written.error);
        }
      }
      return Ready(());
    }

    /** Unframes for the caller, and records what was delivered. */
    method Deliver(room: nat) returns (r: Io<nat>, put: seq<byte>)
      requires Valid()
      modifies `reading, `readBuf, `delivered
      ensures Valid()
      ensures r == if r.Err? then Err(InvalidData) else Ok(|put|)
      ensures |put| <= room && delivered == old(delivered) + put
      ensures old(Remaining()) == put + Remaining()
      ensures put == Take(old(Resume(reading, readBuf)).out, room)
      ensures r.Err? <==> room > 0 && old(Resume(reading, readBuf)).bad && |old(Resume(reading, readBuf)).out| <= room
      ensures History(old(reading), old(readBuf), reading, readBuf, put)
      ensures Held() == Shifted(old(Held()), |put|) && (put == [] ==> Held() == old(Held()))
      ensures r.Err? ==> Resume(reading, readBuf) == Decoded([], true)
      ensures r.Ok? && |put| < room ==> Resume(reading, readBuf) == Decoded([], false)
    {
      hide Resume, Labels, EmitAll, AfterAll, Advances, Starved, Select, Prospects, Shifted;
      ghost var s0, b0 := reading, readBuf;
      r, put := UnframeReadBuf(room);
      ProspectsShift(s0, b0, reading, readBuf, put, session.plaintext);
      ShiftedByNothing(old(Held()));
      HistoryMeaning(s0, b0, reading, readBuf, put, []);
      assert b0 + [] == b0 && readBuf + [] == readBuf;
      if r.Ok? && |put| < room {
        StarvedDeliversNothing(reading, readBuf);
      }
      HistoryMeaning(s0, b0, reading, readBuf, put, session.Inbound());
      HistoryCompose(ReadStart(ids, isServer), wire, s0, b0, delivered, reading, readBuf, put);
      delivered := delivered + put;
    }
  }

  /** What one framed write emits and leaves behind, in the order the code computes it. */
  lemma {:induction false} FramedWrite(s: WriteState, w: Write, starts: bool, paddingLen: u16)
    requires HasId(s) && !s.writeDirectCopy
    requires starts <==> s.canStartDirectCopy && IsAppData(w.content)
    requires paddingLen == if |w.content| <= s.padding.longThreshold
                           then Max(0, U16(w.draw + s.padding.longBase) - U16(|w.content|)) else w.draw
    ensures Emitted(s, w) == (if SendsId(s) then s.ids[0] else [])
                           + Frame(if starts then StartDirectCopy else ContinuePadding, w.content, paddingLen)
    ensures AfterWrite(s, w) == Sniffed(s.(hasSentId := s.hasSentId || !s.isServer, writeDirectCopy := starts,
                                           hasSeenTlsAppData := s.hasSeenTlsAppData || starts), w.content)
  {
    hide Sniffed, Frame, U16, IsAppData;
  }

  lemma {:induction false} SniffedFirst(s: WriteState, buf: seq<byte>)
    requires s.hello == []
    ensures Sniffed(s, buf)
         == (if !IsHandshake(buf) then s
             else s.(isSafeTlsVersion := true, hello := buf,
                     canStartDirectCopy := s.canStartDirectCopy || buf[5] == 1))
  {
  }

  lemma {:induction false} SniffedLater(s: WriteState, buf: seq<byte>)
    requires s.hello != []
    ensures var n := Min(Max(0, MAX_TLS_SNIFFING_LEN - |s.hello|), |buf|);
            var hello := if |s.hello| < MAX_TLS_SNIFFING_LEN then s.hello + buf[..n] else s.hello;
            && (HelloComplete(hello) ==>
                  Sniffed(s, buf) == s.(hello := [], canStartDirectCopy := CipherSuite(hello) != 0x1305))
            && (!HelloComplete(hello) ==> Sniffed(s, buf) == s.(hello := hello))
  {
    assert s.hello + buf[..0] == s.hello;
  }

  lemma {:induction false} SuiteAt(hello: seq<byte>)
    requires |hello| >= 44 && |hello| >= 47 + SessionIdLen(hello)
    ensures HelloComplete(hello)
    ensures CipherSuite(hello) == GetU16(hello[44 + SessionIdLen(hello)], hello[45 + SessionIdLen(hello)])
  {
  }

  lemma {:induction false} HelloIncomplete(hello: seq<byte>)
    ensures HelloComplete(hello) <==> |hello| >= 44 && |hello| >= 47 + SessionIdLen(hello)
  {
  }

  lemma {:induction false} RawWrite(s: WriteState, w: Write)
    requires HasId(s) && s.writeDirectCopy
    ensures Emitted(s, w) == w.content && AfterWrite(s, w) == s
  {
  }

  lemma {:induction false} FindsWhatThereIs(d: Decoded, room: nat, put: seq<byte>, failed: bool)
    requires put == Take(d.out, room)
    requires room > 0 ==> (failed <==> d.bad && |d.out| <= room)
    ensures room > 0 ==> Finds(d, room, put, failed)
    ensures room > 0 && !failed && put == [] ==> d == Decoded([], false)
    ensures d == Decoded([], false) ==> Finds(d, room, put, true)
  {
  }

  lemma {:induction false} NothingFollows<T>(a: seq<T>, b: seq<T>)
    requires b == []
    ensures a + b == a
  {
  }

  lemma {:induction false} FillNone<T>(x: T)
    ensures Fill(0, x) == []
  {
  }

  /** Decreases whenever the decoder's loop goes round without consuming input. */
  function StageRank(s: ReadState): nat {
    if s.readDirectCopy then 0
    else match s.stage
      case Id => 3
      case Content => 2
      case Padding => 1
      case Header => 0
  }

  // ---------------------------------------------------------------------------
  // Two streams
  // ---------------------------------------------------------------------------

  /** Two streams of opposite roles, the server knowing the client's id; TLS carries to `to` a prefix of
      what the session of `from` has accepted. */
  ghost predicate Connected(from: VisionTlsStream, to: VisionTlsStream)
    reads from, from.session, to, to.session
  {
    && from.Valid() && to.Valid()
    && from.isServer != to.isServer
    && (to.isServer ==> from.ids != [] && from.ids[0] in to.ids)
    && to.wire <= from.session.sent
  }

  /** At any time in the life of two connected streams, what one has delivered is a prefix of what was
      written to the other; it is all of it once all of the wire has arrived and been unframed. */
  lemma {:induction false} StreamsEndToEnd(from: VisionTlsStream, to: VisionTlsStream)
    requires Connected(from, to)
    ensures to.delivered <= Written(from.log) && !Resume(to.reading, to.readBuf).bad
    ensures to.wire == from.session.sent && from.writeBuf == [] && Resume(to.reading, to.readBuf).out == []
            ==> to.delivered == Written(from.log)
  {
    hide EmitAll, Resume, Written, History;
    var s, r, sent := from.Start(), ReadStart(to.ids, to.isServer), EmitAll(from.Start(), from.log);
    OneShotRoundTrip(s, from.log, r);
    HistoryMeaning(r, to.wire, to.reading, to.readBuf, to.delivered, []);
    assert to.wire + [] == to.wire && to.readBuf + [] == to.readBuf;
    ResumeMonotone(r, to.wire, sent[|to.wire|..]);
    assert to.wire + sent[|to.wire|..] == sent;
    StartMeaning(r.ids, r.isServer, sent);
    if from.writeBuf == [] {
      assert from.session.sent + from.writeBuf == from.session.sent;
    }
  }

  // ---------------------------------------------------------------------------
  // Concrete streams
  // ---------------------------------------------------------------------------

  /** A session ticket has arrived, and nothing else: the reader reads it, and waits although the transport has
      not blocked. */
  method TicketExample(id: Uuid) returns (stream: VisionTlsStream, r: Poll<()>)
    ensures fresh(stream) && fresh(stream.session) && stream.Valid()
    ensures r.Pending? && stream.session.inflight == 0 && !stream.session.hungUp
  {
    hide Resume, Awake, VisionTlsStream.Valid, VisionTlsStream.ReadsValid, VisionTlsStream.WritesValid,
      VisionTlsStream.Held, VisionTlsStream.Remaining;
    var session := new Session.Ticketed(200);
    stream := new VisionTlsStream(session, [id], false, DEFAULT_PADDING);
    StarvedDeliversNothing(stream.reading, stream.readBuf);
    var put;
    r, put := stream.PollRead(1);
  }

  /** A write to a session with less room than the smallest frame: the call never returns. */
  method FullSessionExample(id: Uuid) returns (stream: VisionTlsStream, r: Outcome<nat>)
    ensures fresh(stream) && fresh(stream.session) && stream.Valid()
    ensures stream.session.reliable && r.Spins?
  {
    hide VisionTlsStream.Valid, VisionTlsStream.ReadsValid, VisionTlsStream.WritesValid, Emitted;
    var session := new Session.Established([], 1, 10, false);
    stream := new VisionTlsStream(session, [id], false, DEFAULT_PADDING);
    r := stream.PollWrite(Fill(100, 7));
  }
}
