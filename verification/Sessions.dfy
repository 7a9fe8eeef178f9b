/**
 A TLS session as its users see it: queues of plaintext, ciphertext on its way in and out, and no
 cryptography.  The method contracts leave open how much each call moves; the bodies choose freely
 among what the contracts allow.
 */
module Sessions {
  import opened Bytes

  class Session {
    var plaintext: seq<byte>    // decrypted, not yet read
    var undecrypted: seq<byte>  // inside ciphertext that has been read but not processed
    var future: seq<byte>       // inside ciphertext that is still to be read
    var inflight: nat           // bytes of ciphertext still to be read
    var hungUp: bool            // the transport ends behind the ciphertext in flight
    var ended: bool             // the end of the transport has been seen
    var closed: bool            // the peer's close_notify has been processed
    var broken: bool            // processing has failed
    var handshaking: bool
    var sent: seq<byte>         // plaintext accepted from the writer so far
    var unsent: nat             // ciphertext waiting to be written to the transport
    var free: nat               // how much more the writer can accept
    var zeroWritten: bool       // the transport has accepted zero bytes of pending ciphertext
    const reliable: bool        // neither the transport nor the writer raises errors of its own
    const acceptsNothing: bool  // the transport accepts zero bytes whenever it is written to
    const prompt: bool          // ciphertext in flight is read at once, is sound, and does not end the stream
    ghost var readBlocks: nat   // how often a read of ciphertext would have blocked
    ghost var writeBlocks: nat  // how often a write of ciphertext would have blocked
    ghost var errors: nat       // how often an operation has failed, other than for blocking

    ghost predicate Valid()
      reads this
    {
      && (closed ==> undecrypted == [] && future == [])
      && (inflight == 0 ==> future == [])
      && (handshaking ==> plaintext == [])
      && (free == 0 && !handshaking ==> unsent > 0)
    }

    /** All plaintext the reader will ever see from here on. */
    ghost function Inbound(): seq<byte>
      reads `plaintext, `undecrypted, `future
    {
      plaintext + undecrypted + future
    }

    /** A session before its handshake. */
    constructor (future: seq<byte>, inflight: nat, hungUp: bool, free: nat, reliable: bool)
      requires inflight == 0 ==> future == []
      ensures Valid() && Inbound() == future && sent == []
      ensures undecrypted == [] && handshaking && !closed && !ended && !broken && !zeroWritten
      ensures this.inflight == inflight && this.hungUp == hungUp && unsent == 0 && this.free == free
      ensures this.reliable == reliable && !acceptsNothing
    {
      plaintext, undecrypted, this.future := [], [], future;
      this.inflight, this.hungUp, ended, closed, broken := inflight, hungUp, false, false, false;
      handshaking := true;
      sent, unsent, this.free, zeroWritten := [], 0, free, false;
      this.reliable, acceptsNothing, prompt := reliable, false, false;
      readBlocks, writeBlocks, errors := 0, 0, 0;
    }

    /** A session behind its handshake that has read all there is to read, over a transport at its end. */
    constructor Established(plaintext: seq<byte>, unsent: nat, free: nat, acceptsNothing: bool)
      requires free == 0 ==> unsent > 0
      ensures Valid() && Inbound() == plaintext == this.plaintext && sent == []
      ensures undecrypted == [] && inflight == 0 && hungUp && !handshaking
      ensures !closed && !ended && !broken && !zeroWritten
      ensures this.unsent == unsent && this.free == free
      ensures reliable && this.acceptsNothing == acceptsNothing
    {
      this.plaintext, undecrypted, future := plaintext, [], [];
      inflight, hungUp, ended, closed, broken := 0, true, false, false, false;
      handshaking := false;
      sent, this.unsent, this.free, zeroWritten := [], unsent, free, false;
      reliable, this.acceptsNothing, prompt := true, acceptsNothing, false;
      readBlocks, writeBlocks, errors := 0, 0, 0;
    }

    /** A session behind its handshake with ciphertext to be read that carries no plaintext, such as a ticket. */
    constructor Ticketed(inflight: nat)
      requires inflight > 0
      ensures Valid() && Inbound() == [] == plaintext && sent == []
      ensures undecrypted == [] && !hungUp && !handshaking && !closed && !ended && !broken
      ensures this.inflight == inflight && reliable && prompt
    {
      plaintext, undecrypted, future := [], [], [];
      this.inflight, hungUp, ended, closed, broken := inflight, false, false, false, false;
      handshaking := false;
      sent, unsent, free, zeroWritten := [], 0, 1, false;
      reliable, acceptsNothing, prompt := true, false, true;
      readBlocks, writeBlocks, errors := 0, 0, 0;
    }

    /** Reads ciphertext from the transport; `Ok(0)` says that there will be no more of it. */
    method ReadTls() returns (r: Io<nat>)
      requires Valid()
      modifies `undecrypted, `future, `inflight, `ended, `readBlocks, `errors
      ensures Valid()
      ensures readBlocks == old(readBlocks) + (if r == Err(WouldBlock) then 1 else 0)
      ensures errors == old(errors) + (if r.Err? && r.error != WouldBlock then 1 else 0)
      ensures Inbound() == old(Inbound())
      ensures r == Ok(0) <==> closed || (old(inflight) == 0 && hungUp)
      ensures r.Ok? ==> r.value <= old(inflight) && inflight == old(inflight) - r.value
      ensures r.Err? || r == Ok(0) ==> unchanged(`undecrypted) && unchanged(`future) && unchanged(`inflight)
      ensures r == Ok(0) ==> future == [] && (closed || ended)
      ensures r.Err? ==> r.error == WouldBlock || (!reliable && r.error == OtherIo)
      ensures old(ended) ==> ended
      ensures ended ==> old(ended) || r == Ok(0)
      ensures prompt && !closed && old(inflight) > 0 ==> r == Ok(old(inflight))
    {
      if closed {
        return Ok(0);
      }
      if inflight == 0 {
        if hungUp {
          ended := true;
          return Ok(0);
        }
        readBlocks := readBlocks + 1;
        return Err(WouldBlock);
      }
      if !prompt {
        if * {
          readBlocks := readBlocks + 1;
          return Err(WouldBlock);
        }
        if !reliable {
          if * {
            errors := errors + 1;
            return Err(OtherIo);
          }
        }
      }
      var n: nat :| 0 < n <= inflight && (prompt ==> n == inflight);
      var k: nat :| k <= |future| && (n == inflight ==> k == |future|);
      inflight := inflight - n;
      undecrypted, future := undecrypted + future[..k], future[k..];
      return Ok(n);
    }

    /** Decrypts what has been read, which may finish the handshake, end the stream, or produce ciphertext to be
        sent.  When it fails, what precedes the bad record has been decrypted;
        it then fails for good. */
    method ProcessNewPackets() returns (r: Io<()>)
      requires Valid()
      modifies `plaintext, `undecrypted, `closed, `broken, `handshaking, `unsent, `free, `errors
      ensures Valid()
      ensures broken <==> r.Err?
      ensures old(broken) ==> r.Err?
      ensures errors == old(errors) + (if r.Err? then 1 else 0)
      ensures Inbound() == old(Inbound())
      ensures r.Ok? ==> plaintext == old(plaintext + undecrypted) && undecrypted == []
      ensures r.Err? ==> r.error == InvalidData
      ensures r.Err? ==> unchanged(`closed) && old(plaintext) <= plaintext
      ensures old(closed) ==> closed
      ensures prompt && !old(broken) ==> r.Ok? && unchanged(`closed)
      ensures handshaking ==> old(handshaking)
      ensures handshaking == old(handshaking) ==> unchanged(`free)
      ensures unsent >= old(unsent)
    {
      var k: nat :| true;
      unsent := unsent + k;
      var failed: bool :| if broken then failed else prompt ==> !failed;
      if failed {
        var n: nat :| n <= |undecrypted|;
        Decrypt(n);
        broken, errors := true, errors + 1;
        return Err(InvalidData);
      }
      Decrypt(|undecrypted|);
      if future == [] && !prompt {
        if * {
          closed := true;
        }
      }
      return Ok(());
    }

    /** Makes plaintext of the first `n` bytes that have been read, which takes a finished handshake. */
    method Decrypt(n: nat)
      requires Valid() && n <= |undecrypted|
      modifies `plaintext, `undecrypted, `handshaking, `free
      ensures Valid() && Inbound() == old(Inbound())
      ensures plaintext == old(plaintext + undecrypted[..n]) && undecrypted == old(undecrypted[n..])
      ensures handshaking ==> old(handshaking)
      ensures handshaking == old(handshaking) ==> unchanged(`free)
    {
      var finished: bool :| n > 0 ==> finished;
      if handshaking && finished {
        handshaking := false;
        var room: nat :| room > 0;
        free := room;
      }
      Associative(plaintext, undecrypted[..n], undecrypted[n..]);
      assert undecrypted[..n] + undecrypted[n..] == undecrypted;
      plaintext, undecrypted := plaintext + undecrypted[..n], undecrypted[n..];
    }

    /** Takes as much decrypted plaintext as there is room for; with none left, says how the stream stands. */
    method Read(room: nat) returns (r: Io<seq<byte>>)
      requires Valid()
      modifies `plaintext
      ensures Valid()
      ensures r.Ok? ==> r.value == Take(old(plaintext), room) && old(plaintext) == r.value + plaintext
      ensures r.Ok? && r.value == [] ==> room == 0 || (closed && plaintext == [])
      ensures r.Err? ==> room > 0 && !closed && plaintext == old(plaintext) == []
      ensures r.Err? ==> r.error == (if ended then UnexpectedEof else WouldBlock)
    {
      if room == 0 {
        return Ok([]);
      }
      if plaintext == [] {
        if closed {
          return Ok([]);
        }
        return Err(if ended then UnexpectedEof else WouldBlock);
      }
      var n := Min(room, |plaintext|);
      r := Ok(plaintext[..n]);
      plaintext := plaintext[n..];
    }

    /** Offers plaintext to be sent; the writer accepts as much as it has room for. */
    method Write(data: seq<byte>) returns (r: Io<nat>)
      requires Valid()
      modifies `sent, `unsent, `free, `errors
      ensures Valid()
      ensures errors == old(errors) + (if r.Err? && r.error != WouldBlock then 1 else 0)
      ensures r.Ok? ==> r.value == Min(|data|, old(free)) && sent == old(sent) + data[..r.value]
      ensures r.Ok? ==> free + r.value <= old(free)
      ensures r.Err? || r == Ok(0) ==> unchanged(`sent) && unchanged(`unsent) && unchanged(`free)
      ensures r.Err? ==> !reliable && r.error in {WouldBlock, OtherIo}
    {
      if !reliable {
        if * {
          return Err(WouldBlock);
        }
        if * {
          errors := errors + 1;
          return Err(OtherIo);
        }
      }
      var n := Min(|data|, free);
      if n == 0 {
        assert sent + data[..0] == sent;
        return Ok(0);
      }
      var overhead: nat :| overhead <= free - n;
      var k: nat :| k > 0;
      sent, unsent, free := sent + data[..n], unsent + k, free - n - overhead;
      return Ok(n);
    }

    /** Writes pending ciphertext to the transport, which may make room for the writer.  The adapter of the
        Vision stream turns a transport that accepts zero bytes into an error, that of the plain stream
        passes the zero on. */
    method WriteTls(zeroIsError: bool) returns (r: Io<nat>)
      requires Valid()
      modifies `unsent, `free, `zeroWritten, `writeBlocks, `errors
      ensures Valid()
      ensures writeBlocks == old(writeBlocks) + (if r == Err(WouldBlock) then 1 else 0)
      ensures errors == old(errors) + (if r.Err? && r.error != WouldBlock then 1 else 0)
      ensures r.Ok? ==> r.value <= old(unsent) && unsent == old(unsent) - r.value && free >= old(free)
      ensures r.Err? || r == Ok(0) ==> unchanged(`unsent) && unchanged(`free)
      ensures r.Err? ==> old(unsent) > 0
      ensures r.Err? ==> || r.error == WouldBlock
                         || (zeroIsError && r.error == WriteZero)
                         || (!reliable && r.error == OtherIo)
      ensures r == Ok(0) && old(unsent) > 0 ==> !zeroIsError
      ensures old(unsent) > 0 && acceptsNothing ==> r == (if zeroIsError then Err(WriteZero) else Ok(0))
      ensures zeroWritten <==> old(zeroWritten) || (old(unsent) > 0 && (r == Ok(0) || r == Err(WriteZero)))
    {
      if unsent == 0 {
        return Ok(0);
      }
      var zero: bool :| acceptsNothing ==> zero;
      if zero {
        zeroWritten := true;
        if zeroIsError {
          errors := errors + 1;
          return Err(WriteZero);
        }
        return Ok(0);
      }
      if * {
        writeBlocks := writeBlocks + 1;
        return Err(WouldBlock);
      }
      if !reliable {
        if * {
          errors := errors + 1;
          return Err(OtherIo);
        }
      }
      var n: nat :| 0 < n <= unsent;
      var room: nat :| room >= free && room > 0;
      unsent, free := unsent - n, room;
      return Ok(n);
    }
  }
}
