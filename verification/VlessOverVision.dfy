/** The two layers together: VLESS over Vision streams. */
module VlessOverVision {
  import opened Bytes
  import opened Sessions
  import opened VisionReading
  import opened VisionWriting
  import opened VisionSniffing
  import opened VisionProspects
  import opened VisionStreams
  import opened Streams
  import opened Vless
  import opened VlessStreams

  /** What a VLESS server can make of the part `got` of a client's bytes, the request and then `payload`. */
  predicate ServerSees(got: seq<byte>, req: VlessRequest, payload: seq<byte>) {
    var n := |EncodeRequest(req)|;
    if |got| < n then ParseRequest(got) == Truncated
    else ParseRequest(got) == Accepted(req, got[n..]) && got[n..] <= payload
  }

  /** What a VLESS client can make of the part `got` of a server's bytes, the response and then `payload`. */
  predicate ClientSees(got: seq<byte>, payload: seq<byte>) {
    if |got| < 2 then StripResponse(got) == None
    else StripResponse(got) == Some(got[2..]) && got[2..] <= payload
  }

  lemma {:induction false} PartOfRequest(got: seq<byte>, req: VlessRequest, payload: seq<byte>)
    requires WellTyped(req.target) && Representable(req.target)
    requires got <= EncodeRequest(req) + payload
    ensures ServerSees(got, req, payload)
  {
    hide EncodeRequest, ParseRequest, WellTyped, Representable;
    var e := EncodeRequest(req);
    if |got| < |e| {
      assert got == e[..|got|];
      RequestPrefixTruncated(req, |got|);
    } else {
      assert got == e + got[|e|..];
      assert got[|e|..] <= payload by {
        assert got[|e|..] == payload[..|got| - |e|];
      }
      RequestRoundTrip(req, got[|e|..]);
    }
  }

  lemma {:induction false} PartOfResponse(got: seq<byte>, payload: seq<byte>)
    requires got <= [0, 0] + payload
    ensures ClientSees(got, payload)
  {
    if |got| >= 2 {
      assert got == [0, 0] + got[2..];
      assert got[2..] == payload[..|got| - 2];
      ResponseRoundTrip(got[2..]);
    }
  }

  /** For any writes that make up a request and a payload, any draws, arrivals and rooms: at every point of
      the run the server has either too little to decide, or the client's request and a part of the payload
      with no header, id or padding byte in it; and finally all of the payload. */
  lemma {:induction false} RequestOverVision(s: WriteState, ws: seq<Write>, run: Run, req: VlessRequest,
                                             payload: seq<byte>)
    requires Happens(run) && Paired(s, First(run)) && Fits(ws)
    requires Arrived(run) <= EmitAll(s, ws)
    requires Written(ws) == EncodeRequest(req) + payload
    requires WellTyped(req.target) && Representable(req.target)
    ensures ServerSees(Delivered(run), req, payload)
    ensures Arrived(run) == EmitAll(s, ws) && Starved(Now(run).state, Now(run).buf)
            ==> ParseRequest(Delivered(run)) == Accepted(req, payload)
  {
    hide EncodeRequest, ParseRequest, WellTyped, Representable, EmitAll, Happens, Starved;
    EndToEnd(s, ws, run);
    if Arrived(run) == EmitAll(s, ws) && Starved(Now(run).state, Now(run).buf) {
      EndToEndComplete(s, ws, run);
    }
    PartOfRequest(Delivered(run), req, payload);
    RequestRoundTrip(req, payload);
  }

  lemma {:induction false} ResponseOverVision(s: WriteState, ws: seq<Write>, run: Run, payload: seq<byte>)
    requires Happens(run) && Paired(s, First(run)) && Fits(ws)
    requires Arrived(run) <= EmitAll(s, ws)
    requires Written(ws) == [0, 0] + payload
    ensures ClientSees(Delivered(run), payload)
    ensures Arrived(run) == EmitAll(s, ws) && Starved(Now(run).state, Now(run).buf)
            ==> StripResponse(Delivered(run)) == Some(payload)
  {
    hide EmitAll, Happens, Starved;
    EndToEnd(s, ws, run);
    if Arrived(run) == EmitAll(s, ws) && Starved(Now(run).state, Now(run).buf) {
      EndToEndComplete(s, ws, run);
    }
    PartOfResponse(Delivered(run), payload);
    ResponseRoundTrip(payload);
  }

  // ---------------------------------------------------------------------------
  // The code that reads, run on Vision streams
  // ---------------------------------------------------------------------------

  /** All of the wire has arrived, and all that can be delivered of it has been. */
  ghost predicate AllRead(from: VisionTlsStream, to: VisionTlsStream)
    reads from, from.session, to
  {
    to.wire == from.session.sent && from.writeBuf == [] && Resume(to.reading, to.readBuf).out == []
  }

  /** A server that has come to `r` when accepting a request, consuming `got`, and has read `payload` since. */
  ghost predicate Serving(server: VisionTlsStream, r: Result<VlessRequest>, got: seq<byte>, answer: seq<byte>,
                          payload: seq<byte>)
    reads server
  {
    server.delivered == got + payload && AcceptOutcome(got, r, answer) && (payload != [] ==> r.Success?)
  }

  /** Accepts a request on a fresh Vision stream, and then reads from it, each time with the given room. */
  method Serve(server: VisionTlsStream, rooms: seq<nat>)
    returns (r: Result<VlessRequest>, payload: seq<byte>, ghost got: seq<byte>, ghost answer: seq<byte>)
    requires server.Valid() && server.delivered == []
    modifies server, server.session
    ensures server.Valid() && Serving(server, r, got, answer, payload)
    ensures Written(server.log) == Written(old(server.log)) + answer
    ensures old(server.Remaining()) == got + payload + server.Remaining()
  {
    hide VisionTlsStream.Valid, AcceptOutcome, Written, VisionTlsStream.Remaining;
    var stream := Vision(server);
    ghost var before := stream.Incoming();
    r, got, answer := Accept(stream);
    payload := [];
    assert got + [] == got && [] + got == got;
    if !r.Success? {
      return;
    }
    for i := 0 to |rooms|
      invariant stream.Valid() && stream.Delivered() == got + payload
      invariant before == got + payload + stream.Incoming()
      invariant stream.Outgoing() == Written(old(server.log)) + answer
    {
      ghost var found;
      var polled, put;
      polled, put, found := stream.PollRead(rooms[i]);
      Associative(got, payload, put);
      Associative(got + payload, put, stream.Incoming());
      payload := payload + put;
    }
  }

  /** A server that accepts and reads over Vision what a client sends, at any time: it accepts nothing but the
      client's request, rejects nothing, and has read a part of the payload; finally all of it. */
  lemma {:induction false} ServerDelivers(client: VisionTlsStream, server: VisionTlsStream, req: VlessRequest,
                                          up: seq<byte>, r: Result<VlessRequest>, got: seq<byte>, answer: seq<byte>,
                                          payload: seq<byte>)
    requires Connected(client, server) && Serving(server, r, got, answer, payload)
    requires WellTyped(req.target) && Representable(req.target)
    requires Written(client.log) <= EncodeRequest(req) + up
    ensures r.Success? ==> r.value == req && got == EncodeRequest(req) && payload <= up
    ensures r.Failure? ==> r.error.IoFailure?
    ensures AllRead(client, server) && Written(client.log) == EncodeRequest(req) + up ==>
              && (r.Success? ==> payload == up)
              && (r.Waiting? ==> got == EncodeRequest(req) && up == [])
  {
    hide EncodeRequest, ParseRequest, WellTyped, Representable, Connected, Written, Resume;
    StreamsEndToEnd(client, server);
    PrefixThrough(got, payload, Written(client.log), EncodeRequest(req) + up);
    PartOfRequest(got, req, up);
    var n := |EncodeRequest(req)|;
    if |got| >= n {
      assert got == EncodeRequest(req) + got[n..];
      assert got[n..] == [] ==> got == EncodeRequest(req) && payload <= up;
    }
  }

  /** The same for the client, whose stream strips the response. */
  lemma {:induction false} ClientDelivers(stream: VlessStream, server: VisionTlsStream, down: seq<byte>)
    requires stream.Valid() && stream.inner.Vision? && stream.start == []
    requires Connected(server, stream.inner.vision)
    requires Written(server.log) <= [0, 0] + down
    ensures stream.lost == [] && stream.delivered <= down
    ensures AllRead(server, stream.inner.vision) && Written(server.log) == [0, 0] + down
            ==> stream.isHandshakeDone && stream.delivered + stream.buf == down
  {
    hide Connected, Written, Resume, Decode, StripResponse;
    var client := stream.inner.vision;
    StreamsEndToEnd(server, client);
    PartOfResponse(client.delivered, down);
    assert client.delivered[0..] == client.delivered && stream.buf + [] == stream.buf;
  }

  /** A client and a server that knows the client's id; TLS carries to each a prefix of what the session of the
      other has accepted. */
  ghost predicate Duplex(client: VisionTlsStream, server: VisionTlsStream)
    reads client, client.session, server, server.session
  {
    && client.Valid() && server.Valid()
    && !client.isServer && server.isServer && client.ids != [] && client.ids[0] in server.ids
    && server.wire <= client.session.sent && client.wire <= server.session.sent
  }

  /** Two Vision streams carrying a VLESS session, at any time: the client has written its request and `up`,
      or a part of it, the server its answer and `down`.  Each side has read what the other has sent and
      nothing else; and all of it, once the wire has arrived and been read. */
  lemma {:induction false} SessionOverVision(
      stream: VlessStream, server: VisionTlsStream, req: VlessRequest, up: seq<byte>, down: seq<byte>,
      r: Result<VlessRequest>, got: seq<byte>, answer: seq<byte>, payload: seq<byte>)
    requires stream.Valid() && stream.inner.Vision? && stream.start == []
    requires Duplex(stream.inner.vision, server)
    requires Serving(server, r, got, answer, payload)
    requires WellTyped(req.target) && Representable(req.target)
    requires stream.inner.Outgoing() <= EncodeRequest(req) + up
    requires Written(server.log) == answer + down && (down != [] ==> r.Success?)
    ensures r.Success? ==> r.value == req && payload <= up
    ensures r.Failure? ==> r.error.IoFailure?
    ensures stream.lost == [] && stream.delivered <= down
    ensures AllRead(stream.inner.vision, server) && stream.inner.Outgoing() == EncodeRequest(req) + up && r.Success?
            ==> payload == up
    ensures AllRead(server, stream.inner.vision) && r.Success?
            ==> stream.isHandshakeDone && stream.delivered + stream.buf == down
  {
    hide EncodeRequest, ParseRequest, WellTyped, Representable, Written, Resume, Decode, StripResponse,
      VlessStream.Valid, VisionTlsStream.Valid;
    ServerDelivers(stream.inner.vision, server, req, up, r, got, answer, payload);
    assert Written(server.log) <= [0, 0] + down;
    ClientDelivers(stream, server, down);
  }

  lemma {:induction false} PrefixThrough(got: seq<byte>, payload: seq<byte>, written: seq<byte>, all: seq<byte>)
    requires got + payload <= written <= all
    ensures got <= all && payload <= all[|got|..]
  {
  }

  // ---------------------------------------------------------------------------
  // A response that is lost
  // ---------------------------------------------------------------------------

  /** A frame with a whole response and one byte of payload, and behind it an invalid command. */
  const SPOILED_WIRE: seq<byte> := [0, 0, 3, 0, 0] + [0, 0, 7] + [9, 0, 0, 0, 0]

  /** An invalid command right behind a frame without padding. */
  lemma {:induction false} BadCommandBehind(header: seq<byte>, content: seq<byte>, bad: seq<byte>)
    requires |header| == 5 && header[0] == 0
    requires GetU16(header[1], header[2]) == |content| && GetU16(header[3], header[4]) == 0
    requires |bad| >= 5 && ParseCommand(bad[0]).None?
    ensures DecodeFrames(header + content + bad) == Decoded(content, true)
  {
    hide GetU16;
    var w := header + content + bad;
    assert w[5..] == content + bad;
    assert (content + bad)[..|content|] == content && (content + bad)[|content| + 0..] == bad;
    assert DecodeNext(ContinuePadding, bad) == Decoded([], true);
    assert DecodeBody(ContinuePadding, |content|, 0, content + bad) == Decoded(content, true);
  }

  lemma {:induction false} SpoiledWire(ids: seq<Uuid>)
    ensures Resume(ReadStart(ids, false), SPOILED_WIRE) == Decoded([0, 0, 7], true)
  {
    hide DecodeFrames, DecodeBody, DecodeNext;
    BadCommandBehind([0, 0, 3, 0, 0], [0, 0, 7], [9, 0, 0, 0, 0]);
  }

  /** Before the call, the prospects of a stream that has received that wire already say what is to be lost. */
  lemma {:induction false} SpoiledProspects(ids: seq<Uuid>, growth: nat)
    requires growth > 0
    ensures HandshakeFate(Prospects(ReadStart(ids, false), [], SPOILED_WIRE), [], growth) == Lost
  {
    hide Resume;
    var s := ReadStart(ids, false);
    SpoiledWire(ids);
    StarvedDeliversNothing(s, []);
    assert [] + Take(SPOILED_WIRE, CHUNK) == SPOILED_WIRE && SPOILED_WIRE[Min(CHUNK, |SPOILED_WIRE|)..] == [];
    var ds := Prospects(s, [], SPOILED_WIRE);
    assert Prospects(s, SPOILED_WIRE, []) == [Decoded([0, 0, 7], true)];
    assert ds[1..] == Prospects(s, SPOILED_WIRE, []) by { ProspectsNow(s, [], SPOILED_WIRE); }
    assert ds[1..] == [Decoded([0, 0, 7], true)] + [];
    FateOfOneRead(Decoded([0, 0, 7], true), [], growth);
    assert Awake(ds) == Awake(ds[1..]);
  }

  /** A client reads behind it all: the response and the payload byte are lost to the failing read. */
  method LostResponseExample(id: Uuid, room: nat) returns (stream: VlessStream, r: Poll<()>)
    ensures fresh(stream) && stream.inner.Vision? && stream.Valid()
    ensures r.Failed? && !stream.isHandshakeDone && stream.delivered == []
    ensures stream.inner.Delivered() == stream.buf + stream.lost && stream.lost != []
  {
    hide Prospects, HandshakeFate, Resume, StripResponse, Payload, Finding, VisionTlsStream.Valid,
      VisionTlsStream.ReadsValid, VisionTlsStream.WritesValid, VisionTlsStream.Remaining, Session.Valid;
    var session := new Session.Established(SPOILED_WIRE, 0, 1, false);
    var vision := new VisionTlsStream(session, [id], false, DEFAULT_PADDING);
    stream := new VlessStream(Vision(vision));
    SpoiledProspects([id], stream.growth);
    var put;
    r, put := stream.PollRead(room);
  }
}
