/** The plain TLS stream: polling a session over a transport, remembering the end of it in `eof`. */
module TlsStreams {
  import opened Bytes
  import opened Sessions

  class TlsStream {
    const session: Session
    var eof: bool
    ghost var cutShort: bool             // a read without room has ended the stream with bytes unread
    ghost var writeFailed: bool          // some write returned an error
    ghost var delivered: seq<byte>       // all bytes ever delivered to readers
    ghost var acknowledged: seq<byte>    // all bytes ever reported as written
    ghost const arriving: seq<byte>      // all plaintext the session ever receives

    ghost predicate Valid()
      reads this, session
    {
      session.Valid() && ReadsValid() && WritesValid()
    }

    ghost predicate ReadsValid()
      reads `eof, `cutShort, `delivered
      reads session`plaintext, session`undecrypted, session`future, session`broken, session`zeroWritten
    {
      && (session.undecrypted == [] || session.broken)
      // plaintext is delivered in session order, each byte once
      && arriving == delivered + session.Inbound()
      // a transport that accepts zero bytes ends the stream
      && (session.zeroWritten ==> eof)
      // an ended stream over a session that has not failed has lost bytes exactly if a read without room
      // cut it short, unless the transport accepted zero bytes
      && (cutShort ==> eof && delivered != arriving)
      && (eof && !session.zeroWritten && !session.broken && delivered != arriving ==> cutShort)
    }

    /** The session has exactly what the writers were told it has. */
    ghost predicate WritesValid()
      reads `writeFailed, `acknowledged, session`sent
    {
      !writeFailed ==> session.sent == acknowledged
    }

    /** The handshake is over, the transport is at its end, and nothing waits to be written. */
    ghost predicate AtEnd()
      reads session
    {
      !session.handshaking && session.unsent == 0 && (session.closed || (session.inflight == 0 && session.hungUp))
    }

    /** The session has a reason to have failed with `error`. */
    ghost predicate SessionFailed(error: IoError)
      reads session`broken
    {
      (error == InvalidData && session.broken) || (error == OtherIo && !session.reliable)
    }

    lemma {:induction false} NoPlaintextYet()
      requires Valid()
      ensures session.handshaking ==> session.plaintext == []
    {
    }

    /** When an ended stream has lost bytes. */
    lemma {:induction false} Losses()
      requires Valid()
      ensures arriving == delivered + session.Inbound()
      ensures session.zeroWritten ==> eof
      ensures cutShort ==> eof && delivered != arriving
      ensures eof && !session.zeroWritten && !session.broken ==> (delivered != arriving <==> cutShort)
    {
    }

    constructor (session: Session)
      requires session.Valid() && session.undecrypted == [] && session.sent == [] && !session.zeroWritten
      ensures Valid() && this.session == session && !eof && !cutShort && !writeFailed
      ensures arriving == session.Inbound() && delivered == [] && acknowledged == []
    {
      this.session, eof, cutShort, writeFailed := session, false, false, false;
      delivered, acknowledged, arriving := [], [], session.Inbound();
      new;
      assert [] + session.Inbound() == session.Inbound();
    }

    /** Writes pending ciphertext to the transport; one that accepts nothing is at its end. */
    method FlushTls() returns (r: Poll<()>)
      requires Valid()
      modifies `eof, session`unsent, session`free, session`zeroWritten,
               session`writeBlocks, session`errors
      ensures Valid()
      ensures eof <==> old(eof) || session.zeroWritten
      ensures old(session.zeroWritten) ==> session.zeroWritten
      ensures old(session.unsent) > 0 && session.acceptsNothing ==> session.zeroWritten
      ensures r.Ready? ==> session.unsent == 0 || session.zeroWritten
      ensures r.Failed? ==> r.error == OtherIo && !session.reliable
      ensures r.Pending? ==> session.unsent > 0
      ensures session.writeBlocks == old(session.writeBlocks) + (if r.Pending? then 1 else 0)
      ensures session.errors == old(session.errors) + (if r.Failed? then 1 else 0)
      ensures session.free >= old(session.free)
      ensures old(session.unsent) == 0 ==> r.Ready? && unchanged(`eof) && unchanged(session)
      ensures session.free == 0 && session.unsent == 0 ==> session.handshaking
    {
      hide WritesValid;
      while session.unsent > 0
        invariant Valid()
        invariant session.zeroWritten == old(session.zeroWritten) && eof == old(eof)
        invariant old(session.unsent) == 0 ==> unchanged(session)
        invariant session.unsent == old(session.unsent) || !session.acceptsNothing
        invariant session.writeBlocks == old(session.writeBlocks) && session.errors == old(session.errors)
        invariant session.free >= old(session.free)
        decreases session.unsent
      {
        var written := session.WriteTls(false);
        if written == Ok(0) {
          eof := true;
          break;
        }
        if written.Err? {
          return if written.error == WouldBlock then Pending else Failed(written.error);
        }
      }
      return Ready(());
    }

    /** Gets more ciphertext into the session, for a read with the given room, which has read its plaintext if
        it has any room.  The stream ends here only when nothing more is to come, unless the transport accepts
        zero bytes. */
    method DriveTlsReadable(ghost room: nat) returns (r: Poll<()>)
      requires Valid() && (session.plaintext == [] || room == 0)
      modifies `eof, `cutShort, session`plaintext, session`undecrypted, session`future, session`inflight,
               session`ended, session`closed, session`broken, session`handshaking, session`unsent, session`free,
               session`zeroWritten,
               session`readBlocks, session`errors, session`writeBlocks
      ensures Valid()
      ensures session.Inbound() == old(session.Inbound())
      ensures old(eof) ==> eof
      ensures old(cutShort) ==> cutShort
      ensures cutShort && !old(cutShort) ==> room == 0
      ensures session.inflight <= old(session.inflight)
      ensures r.Ready? && !eof ==> session.inflight < old(session.inflight)
      ensures r.Ready? ==> session.unsent == 0 || session.zeroWritten
      ensures r.Failed? ==> SessionFailed(r.error) && session.errors == old(session.errors) + 1
      ensures !r.Failed? ==> session.errors == old(session.errors) && session.broken == old(session.broken)
      ensures session.readBlocks + session.writeBlocks
              == old(session.readBlocks + session.writeBlocks) + (if r.Pending? then 1 else 0)
      // it waits to write, or for a transport that has not ended
      ensures r.Pending? ==> session.unsent > 0
                             || (unchanged(session`handshaking)
                                 && !session.closed && !(session.inflight == 0 && session.hungUp))
      ensures r.Pending? && old(session.plaintext) == [] ==> session.plaintext == [] || session.unsent > 0
      // at the end of the transport, with nothing to be written, it always ends
      ensures old(session.unsent == 0 && (session.closed || (session.inflight == 0 && session.hungUp)))
              ==> r.Ready? && eof && unchanged(session`zeroWritten) && unchanged(session`broken)
    {
      hide ReadsValid, WritesValid;
      var flushed := FlushTls();
      if !flushed.Ready? {
        return flushed;
      }

      var n := ReadPackets();
      if n == Ready(0) {
        EndStream(room);
        return Ready(());
      }
      if !n.Ready? {
        return if n.Pending? then Pending else Failed(n.error);
      }
      r := FlushTls();
    }

    /** Reads ciphertext and processes it; `Ready(0)` is the end of the transport. */
    method ReadPackets() returns (r: Poll<nat>)
      requires Valid()
      modifies session`plaintext, session`undecrypted, session`future, session`inflight, session`ended,
               session`closed, session`broken, session`handshaking, session`unsent, session`free,
               session`readBlocks, session`errors
      ensures Valid() && session.Inbound() == old(session.Inbound())
      ensures session.inflight <= old(session.inflight)
      ensures r == Ready(0) <==> old(session.closed || (session.inflight == 0 && session.hungUp))
      ensures r == Ready(0) ==> session.future == [] && unchanged(session`plaintext) && unchanged(session`broken)
                                && unchanged(session`unsent)
      ensures r.Ready? && r.value > 0 ==> session.inflight < old(session.inflight)
      ensures r.Pending? ==> unchanged(session`handshaking) && unchanged(session`plaintext)
                             && !session.closed && !(session.inflight == 0 && session.hungUp)
      ensures r.Failed? ==> SessionFailed(r.error) && session.errors == old(session.errors) + 1
      ensures !r.Failed? ==> session.errors == old(session.errors) && session.broken == old(session.broken)
      ensures session.readBlocks == old(session.readBlocks) + (if r.Pending? then 1 else 0)
    {
      hide WritesValid;
      var n := session.ReadTls();
      if n == Ok(0) {
        return Ready(0);
      }
      if n.Err? {
        return if n.error == WouldBlock then Pending else Failed(n.error);
      }
      var processed := session.ProcessNewPackets();
      if processed.Err? {
        return Failed(InvalidData);
      }
      return Ready(n.value);
    }

    /** Sets `eof` at the end of the transport, and records whether bytes stay unread because of that. */
    method EndStream(ghost room: nat)
      requires Valid() && (session.plaintext == [] || room == 0)
      requires session.future == []
      modifies `eof, `cutShort
      ensures Valid() && eof
      ensures old(cutShort) ==> cutShort
      ensures cutShort && !old(cutShort) ==> room == 0
    {
      if !eof && room == 0 && session.Inbound() != [] {
        cutShort := true;
      }
      if session.undecrypted == [] && session.plaintext == [] {
        assert session.Inbound() == [];
        assert delivered + [] == delivered;
      }
      if session.Inbound() != [] {
        assert |arriving| > |delivered|;
      }
      eof := true;
    }

    /** Drives the handshake until it is over or the stream has ended. */
    method FinishHandshake() returns (r: Poll<()>)
      requires Valid()
      modifies `eof, `cutShort, session`plaintext, session`undecrypted, session`future, session`inflight,
               session`ended, session`closed, session`broken, session`handshaking, session`unsent, session`free,
               session`zeroWritten,
               session`readBlocks, session`errors, session`writeBlocks
      ensures Valid() && session.Inbound() == old(session.Inbound())
      ensures old(eof) ==> eof
      ensures cutShort == old(cutShort)
      ensures r.Ready? ==> !session.handshaking || eof
      ensures r.Pending? ==> session.unsent > 0
                             || (session.handshaking && !session.closed && !(session.inflight == 0 && session.hungUp))
      ensures r.Ready? && old(session.handshaking && !eof) ==> session.unsent == 0 || session.zeroWritten
      ensures r.Failed? ==> SessionFailed(r.error) && session.errors == old(session.errors) + 1
      ensures !r.Failed? ==> session.errors == old(session.errors) && session.broken == old(session.broken)
      ensures session.readBlocks + session.writeBlocks
              == old(session.readBlocks + session.writeBlocks) + (if r.Pending? then 1 else 0)
      ensures !old(session.handshaking) ==> r.Ready? && unchanged(`eof) && unchanged(session)
    {
      hide ReadsValid, WritesValid;
      while session.handshaking && !eof
        invariant Valid() && session.Inbound() == old(session.Inbound())
        invariant old(eof) ==> eof
        invariant cutShort == old(cutShort)
        invariant session.errors == old(session.errors) && session.broken == old(session.broken)
        invariant session.readBlocks + session.writeBlocks == old(session.readBlocks + session.writeBlocks)
        invariant old(session.handshaking && !eof) ==>
                    (session.handshaking && !eof) || session.unsent == 0 || session.zeroWritten
        invariant !old(session.handshaking) ==> unchanged(`eof) && unchanged(session)
        decreases session.inflight, !eof
      {
        var driven := DriveTlsReadable(1);
        if !driven.Ready? {
          return driven;
        }
      }
      return Ready(());
    }

    /** Reads plaintext the session has, and records it. */
    method ReadPlaintext(room: nat) returns (r: Io<seq<byte>>)
      requires Valid() && !eof
      modifies `delivered, session`plaintext
      ensures Valid()
      ensures r.Ok? ==> |r.value| <= room && delivered == old(delivered) + r.value
      ensures r.Err? || r.value == [] ==> unchanged(`delivered) && unchanged(session`plaintext)
                                          && (room == 0 || session.plaintext == [])
      ensures room == 0 ==> r == Ok([])
      ensures room > 0 && old(session.plaintext) != [] ==> r.Ok? && r.value != []
      ensures r.Ok? ==> r.value == Take(old(session.plaintext), room)
      ensures r.Ok? ==> |r.value| == room || session.plaintext == []
      ensures r.Err? ==> r.error == if session.ended then UnexpectedEof else WouldBlock
    {
      r := session.Read(room);
      if r.Ok? && r.value == [] {
        assert r.value + session.plaintext == session.plaintext;
      } else if r.Ok? {
        ghost var behind := session.plaintext + session.undecrypted + session.future;
        assert delivered + (r.value + behind) == (delivered + r.value) + behind;
        delivered := delivered + r.value;
      }
    }

    method PollRead(room: nat) returns (r: Poll<()>, put: seq<byte>)
      requires Valid()
      modifies `eof, `cutShort, `delivered
      modifies session`plaintext, session`undecrypted, session`future, session`inflight, session`ended,
               session`closed, session`broken, session`handshaking, session`unsent, session`free,
               session`zeroWritten,
               session`readBlocks, session`errors, session`writeBlocks
      ensures Valid()
      ensures |put| <= room && delivered == old(delivered) + put
      ensures !r.Ready? ==> put == []
      ensures r.Pending? ==> session.unsent > 0 || (!session.closed && !(session.inflight == 0 && session.hungUp))
      ensures r.Pending? && room > 0 ==> session.plaintext == [] || session.unsent > 0
      // a read that delivers nothing has ended the stream, whatever its room
      ensures r.Ready? && put == [] ==> eof
      // ending it, a read loses bytes only for want of room, or because the transport accepts zero bytes
      ensures cutShort && !old(cutShort) ==> room == 0
      ensures eof && !old(eof) && delivered != arriving && !session.broken ==> room == 0 || session.zeroWritten
      // and then it loses whatever had not been read before
      ensures r.Ready? && put == [] && !old(eof) && !session.broken ==>
                (delivered != arriving <==>
                   old(delivered) != arriving && (room == 0 || session.zeroWritten))
      // plaintext the session has is delivered at once
      ensures !old(eof) && old(session.plaintext) != [] && room > 0 ==>
                r.Ready? && put != [] && put == Take(old(session.plaintext), room)
                && session.inflight == old(session.inflight)
      ensures put != [] ==> |put| == room || session.plaintext == []
      // an error that occurs is reported, and none is invented
      ensures r.Failed? ==> || (SessionFailed(r.error) && session.errors == old(session.errors) + 1)
                            || (r.error == UnexpectedEof && session.ended)
      ensures !r.Failed? ==> session.errors == old(session.errors) && session.broken == old(session.broken)
      // it waits only when the transport has blocked
      ensures session.readBlocks + session.writeBlocks
              == old(session.readBlocks + session.writeBlocks) + (if r.Pending? then 1 else 0)
      ensures r.Ready? && put == [] && !old(eof) ==> session.unsent == 0 || session.zeroWritten
      // an ended stream stays as it is
      ensures old(eof) ==> r.Ready? && eof && put == [] && unchanged(session)
      // a read without room always ends a stream whose transport is at its end
      ensures old(!eof && AtEnd()) && room == 0 ==> r.Ready?
      ensures old(AtEnd()) ==> unchanged(session`zeroWritten) && unchanged(session`broken)
    {
      hide TlsStream.Valid, ReadsValid, WritesValid, SessionFailed, Session.Valid, Session.Inbound, Take;
      put := [];
      assert delivered + put == delivered;
      if eof {
        return Ready(()), put;
      }
      ghost var haveText := room > 0 && session.plaintext != [];
      ghost var atEnd := AtEnd();
      Losses();
      NoPlaintextYet();
      var handshake := FinishHandshake();
      if !handshake.Ready? {
        Losses();
        NoPlaintextYet();
        return handshake, put;
      }

      while !eof
        invariant Valid() && delivered == old(delivered)
        invariant cutShort && !old(cutShort) ==> room == 0
        invariant session.errors == old(session.errors) && session.broken == old(session.broken)
        invariant session.readBlocks + session.writeBlocks == old(session.readBlocks + session.writeBlocks)
        invariant eof ==> session.unsent == 0 || session.zeroWritten
        invariant haveText ==> !eof && unchanged(session)
        invariant atEnd ==> unchanged(session`zeroWritten) && unchanged(session`broken) && (eof || unchanged(session))
        decreases session.inflight, !eof
      {
        var read := ReadPlaintext(room);
        if read.Ok? && |read.value| > 0 {
          put := read.value;
          return Ready(()), put;
        }
        if read.Err? && read.error != WouldBlock {
          return Failed(read.error), put;
        }
        var driven := DriveTlsReadable(room);
        if !driven.Ready? {
          Losses();
          return driven, put;
        }
      }
      Losses();
      return Ready(()), put;
    }

    method PollWrite(buf: seq<byte>) returns (r: Outcome<nat>)
      requires Valid()
      modifies `eof, `cutShort, `writeFailed, `acknowledged, session
      ensures Valid() && cutShort == old(cutShort) && (old(eof) ==> eof)
      ensures session.Inbound() == old(session.Inbound())
      // waiting, for the handshake or to write: the session has taken nothing of the caller's buffer
      ensures r.Waits? ==> session.sent == old(session.sent) && (session.unsent > 0 || session.handshaking)
      ensures r.Waits? ==> session.readBlocks + session.writeBlocks > old(session.readBlocks + session.writeBlocks)
      ensures session.readBlocks + session.writeBlocks >= old(session.readBlocks + session.writeBlocks)
      // nothing is offered during the handshake
      ensures r.Done? || r.Spins? || r.Retries? ==> !session.handshaking || eof
      // success: it has taken exactly the first bytes, as many as reported
      ensures r.Done? ==> r.value <= |buf| && session.sent == old(session.sent) + buf[..r.value]
                          && acknowledged == old(acknowledged) + buf[..r.value]
      ensures r == Done(0) ==> buf == [] || old(eof)
      ensures old(eof) ==> r == Done(0) && unchanged(session)
      // all ciphertext has been written out then, unless the transport has blocked or accepted nothing
      ensures r.Done? && !old(eof) ==>
                || session.unsent == 0 || session.zeroWritten
                || session.readBlocks + session.writeBlocks > old(session.readBlocks + session.writeBlocks)
      // a session with room takes bytes at once, even if the transport blocks
      ensures session.reliable && old(!eof && !session.handshaking && session.free > 0) && buf != [] ==>
                r.Done? && r.value >= Min(|buf|, old(session.free))
      ensures !r.Done? ==> acknowledged == old(acknowledged)
      // an error: some of them at most
      ensures r.Fails? ==> old(session.sent) <= session.sent <= old(session.sent) + buf
      ensures writeFailed <==> old(writeFailed) || r.Fails?
      ensures r.Fails? ==> SessionFailed(r.error)
      ensures session.errors == old(session.errors) + (if r.Fails? then 1 else 0)
      // never returning: the session is full, with nothing to be written out
      ensures r.Spins? ==> session.sent == old(session.sent)
                           && session.free == 0 && session.unsent == 0 && session.handshaking
      // not returning yet: the transport has accepted zero bytes, or the writer has refused
      ensures r.Retries? ==> session.sent == old(session.sent) && (session.zeroWritten || !session.reliable)
      // with ciphertext to be written, a transport that accepts nothing ends the stream
      ensures old(!session.handshaking && session.unsent > 0) && session.acceptsNothing && !old(eof)
              ==> eof && session.zeroWritten
    {
      hide ReadsValid, Session.Valid, Session.Inbound, Take;
      if eof {
        Unextended(session.sent, buf);
        Unextended(acknowledged, buf);
        return Done(0);
      }
      var handshake := FinishHandshake();
      if !handshake.Ready? {
        writeFailed := writeFailed || handshake.Failed?;
        return if handshake.Pending? then Waits else Fails(handshake.error);
      }
      var flushed := FlushTls();
      if flushed.Failed? {
        writeFailed := true;
        return Fails(flushed.error);
      }
      if buf == [] {
        Unextended(session.sent, buf);
        Unextended(acknowledged, buf);
        return Done(0);
      }

      r := WriteToSession(buf);
    }

    /** Offers `buf` to the session until it takes some of it, flushing in between, for as long as one looks. */
    method WriteToSession(buf: seq<byte>) returns (r: Outcome<nat>)
      requires Valid() && buf != []
      modifies `eof, `writeFailed, `acknowledged
      modifies session`sent, session`unsent, session`free, session`zeroWritten,
               session`writeBlocks, session`errors
      ensures Valid()
      ensures r.Waits? ==> session.sent == old(session.sent) && session.unsent > 0
      ensures r.Done? ==> 0 < r.value <= |buf| && session.sent == old(session.sent) + buf[..r.value]
                          && acknowledged == old(acknowledged) + buf[..r.value]
      ensures !r.Done? ==> acknowledged == old(acknowledged)
      ensures r.Fails? ==> old(session.sent) <= session.sent <= old(session.sent) + buf
      ensures writeFailed <==> old(writeFailed) || r.Fails?
      ensures r.Fails? ==> r.error == OtherIo && !session.reliable
      ensures session.errors == old(session.errors) + (if r.Fails? then 1 else 0)
      ensures r.Waits? ==> session.writeBlocks > old(session.writeBlocks)
      ensures r.Done? ==> session.unsent == 0 || session.zeroWritten || session.writeBlocks > old(session.writeBlocks)
      ensures r.Spins? || r.Retries? || r.Fails? ==> session.writeBlocks == old(session.writeBlocks)
      ensures session.writeBlocks >= old(session.writeBlocks)
      ensures r.Spins? ==> session.sent == old(session.sent)
                           && session.free == 0 && session.unsent == 0 && session.handshaking
      ensures r.Retries? ==> session.sent == old(session.sent) && (session.zeroWritten || !session.reliable)
      // a session with room takes bytes at once, as many as it has room for
      ensures session.reliable && old(session.free) > 0 ==> r == Done(Min(|buf|, old(session.free)))
      ensures eof <==> old(eof) || session.zeroWritten
      ensures old(session.zeroWritten) ==> session.zeroWritten
    {
      hide *;
      Losses();
      var rounds: nat :| true;
      while true
        invariant Valid()
        invariant session.sent == old(session.sent)
        invariant acknowledged == old(acknowledged) && writeFailed == old(writeFailed)
        invariant session.errors == old(session.errors) && session.writeBlocks == old(session.writeBlocks)
        invariant session.reliable && old(session.free) > 0 ==> session.free == old(session.free)
        invariant eof <==> old(eof) || session.zeroWritten
        invariant old(session.zeroWritten) ==> session.zeroWritten
        decreases rounds, if session.free == 0 then 1 else 0
      {
        var full := session.free == 0;
        r := WriteRound(buf);
        if !r.Retries? {
          return r;
        }
        if !full || session.free == 0 {
          if rounds == 0 {
            return Retries;
          }
          rounds := rounds - 1;
        }
      }
    }

    /** One round of this; `Retries` says to go round again. */
    method WriteRound(buf: seq<byte>) returns (r: Outcome<nat>)
      requires Valid() && buf != []
      modifies `eof, `writeFailed, `acknowledged
      modifies session`sent, session`unsent, session`free, session`zeroWritten,
               session`writeBlocks, session`errors
      ensures Valid()
      ensures r.Waits? || r.Spins? || r.Retries? ==> session.sent == old(session.sent)
      ensures r.Waits? ==> session.unsent > 0
      ensures r.Done? ==> 0 < r.value <= |buf| && session.sent == old(session.sent) + buf[..r.value]
                          && acknowledged == old(acknowledged) + buf[..r.value]
      ensures !r.Done? ==> acknowledged == old(acknowledged)
      ensures r.Fails? ==> old(session.sent) <= session.sent <= old(session.sent) + buf
      ensures writeFailed <==> old(writeFailed) || r.Fails?
      ensures r.Fails? ==> r.error == OtherIo && !session.reliable
      ensures session.errors == old(session.errors) + (if r.Fails? then 1 else 0)
      ensures r.Waits? ==> session.writeBlocks == old(session.writeBlocks) + 1
      ensures r.Done? ==> session.unsent == 0 || session.zeroWritten
                          || session.writeBlocks == old(session.writeBlocks) + 1
      ensures r.Spins? || r.Retries? || r.Fails? ==> session.writeBlocks == old(session.writeBlocks)
      ensures session.writeBlocks >= old(session.writeBlocks)
      ensures r.Spins? ==> session.free == 0 && session.unsent == 0 && session.handshaking
      ensures r.Retries? ==> || (old(session.free) == 0 && session.free > 0)
                             || session.zeroWritten || !session.reliable
      ensures session.reliable && old(session.free) > 0 ==> r == Done(Min(|buf|, old(session.free)))
      ensures eof <==> old(eof) || session.zeroWritten
      ensures old(session.zeroWritten) ==> session.zeroWritten
    {
      hide TlsStream.Valid, ReadsValid, WritesValid, Session.Valid;
      Losses();
      var written := Offer(buf);
      if written.Err? && written.error != WouldBlock {
        NoteFailure(old(acknowledged));
        return Fails(written.error);
      }
      var flushed := FlushTls();
      if flushed.Failed? {
        NoteFailure(old(acknowledged));
        return Fails(flushed.error);
      }
      if written.Ok? && written.value > 0 {
        return Done(written.value);
      }
      if flushed.Pending? {
        return Waits;
      }
      return if written.Ok? && session.free == 0 && session.unsent == 0 then Spins else Retries;
    }

    /** Offers `buf` to the session once, and records what it takes as acknowledged. */
    method Offer(buf: seq<byte>) returns (r: Io<nat>)
      requires Valid() && buf != []
      modifies `acknowledged, session`sent, session`unsent, session`free,
               session`errors
      ensures Valid()
      ensures r.Ok? ==> r.value == Min(|buf|, old(session.free)) && session.sent == old(session.sent) + buf[..r.value]
                        && acknowledged == old(acknowledged) + buf[..r.value]
      ensures r == Ok(0) ==> unchanged(session) && unchanged(`acknowledged)
      ensures r.Err? ==> session.sent == old(session.sent) && unchanged(`acknowledged) && !session.reliable
      ensures r.Err? ==> r.error == WouldBlock || r.error == OtherIo
      ensures session.errors == old(session.errors) + (if r.Err? && r.error != WouldBlock then 1 else 0)
    {
      r := session.Write(buf);
      if r.Ok? && r.value > 0 {
        acknowledged := acknowledged + buf[..r.value];
      } else {
        Unextended(session.sent, buf);
        Unextended(acknowledged, buf);
      }
    }

    /** Records that a write returned an error, and that only `reported` has ever been acknowledged. */
    ghost method NoteFailure(reported: seq<byte>)
      requires Valid()
      modifies `writeFailed, `acknowledged
      ensures Valid() && writeFailed && acknowledged == reported
    {
      writeFailed, acknowledged := true, reported;
    }
  }

  /** A session with a byte to be read, over a transport at its end: a read without room ends the stream, and
      the byte is lost. */
  method EmptyReadExample() returns (stream: TlsStream)
    ensures fresh(stream) && fresh(stream.session) && stream.Valid()
    ensures stream.eof && stream.delivered == [] && stream.arriving == [7]
    ensures stream.cutShort && !stream.session.zeroWritten && !stream.session.broken
  {
    var session := new Session.Established([7], 0, 1, false);
    stream := new TlsStream(session);
    var r, put := stream.PollRead(0);
    assert put == [];
  }

  /** A session with a byte to be read and one to be written, over a transport that accepts nothing: a write
      ends the stream, and the byte is lost. */
  method ZeroWriteExample() returns (stream: TlsStream)
    ensures fresh(stream) && fresh(stream.session) && stream.Valid()
    ensures stream.eof && stream.delivered == [] && stream.arriving == [7]
    ensures !stream.cutShort && stream.session.zeroWritten
  {
    var session := new Session.Established([7], 1, 1, true);
    stream := new TlsStream(session);
    var r := stream.PollWrite([]);
  }

  lemma {:induction false} Unextended<T>(s: seq<T>, more: seq<T>)
    ensures s + more[..0] == s
  {
  }
}
