/**
 What a Vision writer puts on the wire, and what its sniffing of the TLS handshake remembers.

 `Emitted` and `AfterWrite` describe one framed write, `EmitAll` and `AfterAll` a run of them.
 The random padding length drawn for a write is part of the write.
 */
module VisionWriting {
  import opened Bytes
  import opened VisionReading

  /** The configured ranges from which padding lengths are drawn. */
  datatype PaddingConfig = PaddingConfig(
    paddingLo: u16, paddingHi: u16,
    longThreshold: u16, longBase: u16,
    longLo: u16, longHi: u16)

  const DEFAULT_PADDING := PaddingConfig(0, 256, 900, 500, 0, 500)

  const MAX_TLS_SNIFFING_LEN := 128

  /** The fields of the Vision state that writing uses, with the sniffed handshake bytes. */
  datatype WriteState = WriteState(
    ids: seq<Uuid>,
    isServer: bool,
    padding: PaddingConfig,
    hasSentId: bool,
    isSafeTlsVersion: bool,
    hasSeenTlsAppData: bool,
    writeDirectCopy: bool,
    canStartDirectCopy: bool,
    hello: seq<byte>)

  function WriteStart(ids: seq<Uuid>, isServer: bool, padding: PaddingConfig): WriteState {
    WriteState(ids, isServer, padding, false, false, false, false, false, [])
  }

  /** One write: the caller's bytes and the number drawn for their padding. */
  datatype Write = Write(content: seq<byte>, draw: u16)

  /** A client has an id to send; a server needs none. */
  predicate HasId(s: WriteState) {
    s.isServer || s.ids != []
  }

  /** The range the draw for a write of `n` bytes comes from. */
  predicate DrawInRange(p: PaddingConfig, n: nat, draw: u16) {
    if n <= p.longThreshold then p.longLo <= draw <= p.longHi else p.paddingLo <= draw <= p.paddingHi
  }

  /** Both ranges have something to draw from. */
  predicate CanDraw(p: PaddingConfig) {
    p.paddingLo <= p.paddingHi && p.longLo <= p.longHi
  }

  function PaddingLen(p: PaddingConfig, n: nat, draw: u16): u16 {
    if n <= p.longThreshold then Max(0, U16(draw + p.longBase) - U16(n)) else draw
  }

  /** `command(1) | content_len(2) | padding_len(2)`; a longer content has its length truncated. */
  function FrameHeader(command: Command, n: nat, padding: u16): (h: seq<byte>)
    ensures |h| == 5
  {
    [CommandByte(command)] + PutU16(U16(n)) + PutU16(padding)
  }

  lemma {:induction false} HeaderFields(command: Command, n: nat, padding: u16)
    ensures var h := FrameHeader(command, n, padding);
            ParseCommand(h[0]) == Some(command) && GetU16(h[1], h[2]) == U16(n) && GetU16(h[3], h[4]) == padding
  {
    U16RoundTrip(U16(n));
    U16RoundTrip(padding);
  }

  function Frame(command: Command, content: seq<byte>, padding: u16): seq<byte> {
    FrameHeader(command, |content|, padding) + (content + Fill(padding, 0))
  }

  // ---------------------------------------------------------------------------
  // One write
  // ---------------------------------------------------------------------------

  predicate SendsId(s: WriteState) {
    !s.isServer && !s.hasSentId
  }

  predicate IsAppData(content: seq<byte>) {
    |content| >= 3 && content[0] == 0x17 && content[1] == 0x03 && content[2] == 0x03
  }

  predicate IsHandshake(content: seq<byte>) {
    |content| >= 6 && content[0] == 0x16 && content[1] == 0x03 && content[2] == 0x01
  }

  /** The write that announces raw mode. */
  predicate StartsDirectCopy(s: WriteState, content: seq<byte>) {
    !s.writeDirectCopy && s.canStartDirectCopy && IsAppData(content)
  }

  function WriteCommand(s: WriteState, content: seq<byte>): Command {
    if StartsDirectCopy(s, content) then StartDirectCopy else ContinuePadding
  }

  function Emitted(s: WriteState, w: Write): seq<byte>
    requires HasId(s)
  {
    if s.writeDirectCopy then w.content
    else
      (if SendsId(s) then s.ids[0] else [])
      + Frame(WriteCommand(s, w.content), w.content, PaddingLen(s.padding, |w.content|, w.draw))
  }

  /** The sniffed hello covers its session id and the cipher suite behind it. */
  predicate HelloComplete(hello: seq<byte>) {
    |hello| >= 44 && |hello| >= 47 + SessionIdLen(hello)
  }

  function SessionIdLen(hello: seq<byte>): nat
    requires |hello| >= 44
  {
    hello[43]
  }

  /** The cipher suite named by a complete hello. */
  function CipherSuite(hello: seq<byte>): u16
    requires HelloComplete(hello)
  {
    GetU16(hello[44 + SessionIdLen(hello)], hello[45 + SessionIdLen(hello)])
  }

  const TLS_AES_128_CCM_8_SHA256 := 0x1305

  /** The hello bytes once a framed write has been seen, before a complete one is dropped. */
  function HelloExtended(hello: seq<byte>, content: seq<byte>): seq<byte> {
    if hello == [] then (if IsHandshake(content) then content else [])
    else hello + Take(content, Max(0, MAX_TLS_SNIFFING_LEN - |hello|))
  }

  function Sniffed(s: WriteState, content: seq<byte>): (s': WriteState)
    ensures s'.ids == s.ids && s'.isServer == s.isServer && s'.padding == s.padding
  {
    var hello := HelloExtended(s.hello, content);
    if s.hello == [] then
      if hello == [] then s
      else s.(isSafeTlsVersion := true, hello := hello,
              canStartDirectCopy := s.canStartDirectCopy || content[5] == 1)
    else if HelloComplete(hello) then
      s.(hello := [], canStartDirectCopy := CipherSuite(hello) != TLS_AES_128_CCM_8_SHA256)
    else s.(hello := hello)
  }

  function AfterWrite(s: WriteState, w: Write): (s': WriteState)
    ensures s'.ids == s.ids && s'.isServer == s.isServer && s'.padding == s.padding
    ensures s.writeDirectCopy ==> s' == s
    ensures !s.writeDirectCopy ==> !SendsId(s') && s'.writeDirectCopy == StartsDirectCopy(s, w.content)
  {
    if s.writeDirectCopy then s
    else
      var starts := StartsDirectCopy(s, w.content);
      Sniffed(s.(hasSentId := s.hasSentId || !s.isServer,
                 hasSeenTlsAppData := s.hasSeenTlsAppData || starts,
                 writeDirectCopy := starts), w.content)
  }

  // ---------------------------------------------------------------------------
  // Runs of writes
  // ---------------------------------------------------------------------------

  function AfterAll(s: WriteState, ws: seq<Write>): (s': WriteState)
    ensures s'.ids == s.ids && s'.isServer == s.isServer && s'.padding == s.padding
    ensures s.writeDirectCopy ==> s' == s
    decreases |ws|
  {
    if ws == [] then s else AfterAll(AfterWrite(s, ws[0]), ws[1..])
  }

  function EmitAll(s: WriteState, ws: seq<Write>): seq<byte>
    requires HasId(s)
    decreases |ws|
  {
    if ws == [] then [] else Emitted(s, ws[0]) + EmitAll(AfterWrite(s, ws[0]), ws[1..])
  }

  /** The bytes the callers wrote. */
  function Written(ws: seq<Write>): seq<byte> {
    if ws == [] then [] else ws[0].content + Written(ws[1..])
  }

  /** Writes whose length fits the 16-bit length field. */
  predicate Fits(ws: seq<Write>) {
    forall i | 0 <= i < |ws| :: |ws[i].content| < 0x1_0000
  }

  lemma {:induction false} AfterAppend(s: WriteState, ws: seq<Write>, vs: seq<Write>)
    ensures AfterAll(s, ws + vs) == AfterAll(AfterAll(s, ws), vs)
    decreases |ws|
  {
    if ws == [] {
      assert ws + vs == vs;
    } else {
      AfterAppend(AfterWrite(s, ws[0]), ws[1..], vs);
      assert (ws + vs)[1..] == ws[1..] + vs;
    }
  }

  lemma {:induction false} EmitAppend(s: WriteState, ws: seq<Write>, vs: seq<Write>)
    requires HasId(s)
    ensures EmitAll(s, ws + vs) == EmitAll(s, ws) + EmitAll(AfterAll(s, ws), vs)
    decreases |ws|
  {
    hide AfterWrite, Emitted;
    if ws == [] {
      assert ws + vs == vs;
    } else {
      var s', rest := AfterWrite(s, ws[0]), ws[1..];
      EmitAppend(s', rest, vs);
      assert (ws + vs)[1..] == rest + vs;
      Associative(Emitted(s, ws[0]), EmitAll(s', rest), EmitAll(AfterAll(s', rest), vs));
    }
  }

  lemma {:induction false} WrittenAppend(ws: seq<Write>, vs: seq<Write>)
    ensures Written(ws + vs) == Written(ws) + Written(vs)
  {
    if ws == [] {
      assert ws + vs == vs;
    } else {
      WrittenAppend(ws[1..], vs);
      assert (ws + vs)[1..] == ws[1..] + vs;
      Associative(ws[0].content, Written(ws[1..]), Written(vs));
    }
  }

  lemma {:induction false} RunSnoc(s: WriteState, ws: seq<Write>, w: Write)
    requires HasId(s)
    ensures AfterAll(s, ws + [w]) == AfterWrite(AfterAll(s, ws), w)
    ensures EmitAll(s, ws + [w]) == EmitAll(s, ws) + Emitted(AfterAll(s, ws), w)
    ensures Written(ws + [w]) == Written(ws) + w.content
  {
    AfterAppend(s, ws, [w]);
    EmitAppend(s, ws, [w]);
    WrittenAppend(ws, [w]);
    var s' := AfterAll(s, ws);
    assert AfterAll(s', [w]) == AfterAll(AfterWrite(s', w), []);
    assert EmitAll(s', [w]) == Emitted(s', w) + EmitAll(AfterWrite(s', w), []) == Emitted(s', w);
    assert Written([w]) == w.content + Written([]) == w.content;
  }

  // ---------------------------------------------------------------------------
  // The grammar of the wire
  // ---------------------------------------------------------------------------

  /** The number of writes before the one that announces raw mode. */
  function ContinueWrites(s: WriteState, ws: seq<Write>): (n: nat)
    ensures n <= |ws|
    decreases |ws|
  {
    if ws == [] || StartsDirectCopy(s, ws[0].content) then 0 else 1 + ContinueWrites(AfterWrite(s, ws[0]), ws[1..])
  }

  /** Frames for `ws`, all with the same command. */
  function Frames(p: PaddingConfig, command: Command, ws: seq<Write>): seq<byte> {
    if ws == [] then []
    else Frame(command, ws[0].content, PaddingLen(p, |ws[0].content|, ws[0].draw)) + Frames(p, command, ws[1..])
  }

  /** Every run's wire is [id] Frame(ContinuePadding)* [Frame(StartDirectCopy) raw*]: the id at most
      once, before the first frame, at most one `StartDirectCopy`, and never an `EndPadding`. */
  lemma {:induction false} WireGrammar(s: WriteState, ws: seq<Write>)
    requires HasId(s) && !s.writeDirectCopy
    ensures var n := ContinueWrites(s, ws);
            && (AfterAll(s, ws).writeDirectCopy <==> n < |ws|)
            && EmitAll(s, ws)
               == (if SendsId(s) && ws != [] then s.ids[0] else [])
                + (Frames(s.padding, ContinuePadding, ws[..n])
                   + (if n < |ws| then Frames(s.padding, StartDirectCopy, [ws[n]]) + Written(ws[n + 1..]) else []))
  {
    hide EmitAll, AfterAll, AfterWrite, Emitted, EmittedKinds, Frames, Written, StartsDirectCopy;
    if ws == [] {
      NothingEmitted(s);
      FramesNone(s.padding);
    } else if SendsId(s) {
      var sent := s.(hasSentId := true);
      IdFirst(s, ws);
      SentIdOnly(s, ws);
      FrameGrammar(sent, ws);
    } else {
      FrameGrammar(s, ws);
    }
  }

  lemma {:induction false} NothingEmitted(s: WriteState)
    requires HasId(s)
    ensures EmitAll(s, []) == [] && AfterAll(s, []) == s
  {
  }

  lemma {:induction false} FramesNone(p: PaddingConfig)
    ensures Frames(p, ContinuePadding, []) == []
  {
  }

  /** Having sent the id makes no difference to the commands and to the state after a write. */
  lemma {:induction false} SentIdOnly(s: WriteState, ws: seq<Write>)
    requires SendsId(s) && !s.writeDirectCopy && ws != []
    ensures var sent := s.(hasSentId := true);
            AfterAll(s, ws) == AfterAll(sent, ws) && ContinueWrites(s, ws) == ContinueWrites(sent, ws)
  {
    var sent := s.(hasSentId := true);
    assert AfterWrite(s, ws[0]) == AfterWrite(sent, ws[0]);
    assert StartsDirectCopy(s, ws[0].content) == StartsDirectCopy(sent, ws[0].content);
  }

  lemma {:induction false} FrameGrammar(s: WriteState, ws: seq<Write>)
    requires HasId(s) && !s.writeDirectCopy && !SendsId(s)
    ensures var n := ContinueWrites(s, ws);
            && (AfterAll(s, ws).writeDirectCopy <==> n < |ws|)
            && EmitAll(s, ws)
               == Frames(s.padding, ContinuePadding, ws[..n])
                + (if n < |ws| then Frames(s.padding, StartDirectCopy, [ws[n]]) + Written(ws[n + 1..]) else [])
    decreases |ws|
  {
    hide AfterWrite, Emitted, Frame, StartsDirectCopy, WriteCommand, PaddingLen;
    if ws != [] {
      var s', rest, n := AfterWrite(s, ws[0]), ws[1..], ContinueWrites(s, ws);
      EmittedFrame(s, ws[0]);
      if StartsDirectCopy(s, ws[0].content) {
        RawRun(s', rest);
        assert n == 0 && ws[..0] == [] && ws[0 + 1..] == rest;
        CommandOf(s, ws[0].content);
        FramesOne(s.padding, StartDirectCopy, ws[0]);
      } else {
        FrameGrammar(s', rest);
        assert n == 1 + ContinueWrites(s', rest);
        assert rest[..n - 1] == ws[..n][1..];
        assert n < |ws| ==> rest[n - 1 + 1..] == ws[n + 1..] && rest[n - 1] == ws[n];
        assert ws[..n][0] == ws[0];
        assert WriteCommand(s, ws[0].content) == ContinuePadding by { CommandOf(s, ws[0].content); }
        Associative(Emitted(s, ws[0]), Frames(s.padding, ContinuePadding, rest[..n - 1]),
                    if n < |ws| then Frames(s.padding, StartDirectCopy, [ws[n]]) + Written(ws[n + 1..]) else []);
      }
    }
  }

  lemma {:induction false} CommandOf(s: WriteState, content: seq<byte>)
    ensures WriteCommand(s, content) == if StartsDirectCopy(s, content) then StartDirectCopy else ContinuePadding
  {
  }

  lemma {:induction false} EmittedFrame(s: WriteState, w: Write)
    requires HasId(s) && !s.writeDirectCopy && !SendsId(s)
    ensures Emitted(s, w) == Frame(WriteCommand(s, w.content), w.content, PaddingLen(s.padding, |w.content|, w.draw))
  {
  }

  lemma {:induction false} EmittedKindsFrame(s: WriteState, w: Write)
    requires !SendsId(s)
    ensures s.writeDirectCopy ==> EmittedKinds(s, w) == Fill(|w.content|, RawByte)
    ensures !s.writeDirectCopy ==>
              EmittedKinds(s, w) == Fill(5, HeaderByte) + Fill(|w.content|, ContentByte)
                                    + Fill(PaddingLen(s.padding, |w.content|, w.draw), PaddingByte)
  {
  }

  lemma {:induction false} FramesOne(p: PaddingConfig, command: Command, w: Write)
    ensures Frames(p, command, [w]) == Frame(command, w.content, PaddingLen(p, |w.content|, w.draw))
  {
    assert Frames(p, command, [w][1..]) == [];
  }

  /** A client's first write puts the id in front of what it would emit without one. */
  lemma {:induction false} IdFirst(s: WriteState, ws: seq<Write>)
    requires HasId(s) && SendsId(s) && !s.writeDirectCopy && ws != []
    ensures EmitAll(s, ws) == s.ids[0] + EmitAll(s.(hasSentId := true), ws)
    ensures EmitKinds(s, ws) == Fill(16, IdByte) + EmitKinds(s.(hasSentId := true), ws)
  {
    hide AfterWrite, Emitted, EmittedKinds;
    var sent, s' := s.(hasSentId := true), AfterWrite(s, ws[0]);
    IdFirstWrite(s, ws[0]);
    Associative(s.ids[0], Emitted(sent, ws[0]), EmitAll(s', ws[1..]));
    Associative(Fill(16, IdByte), EmittedKinds(sent, ws[0]), EmitKinds(s', ws[1..]));
  }

  lemma {:induction false} IdFirstWrite(s: WriteState, w: Write)
    requires HasId(s) && SendsId(s) && !s.writeDirectCopy
    ensures var sent := s.(hasSentId := true);
            && AfterWrite(sent, w) == AfterWrite(s, w)
            && Emitted(s, w) == s.ids[0] + Emitted(sent, w)
            && EmittedKinds(s, w) == Fill(16, IdByte) + EmittedKinds(sent, w)
  {
    var sent := s.(hasSentId := true);
    var frame := Frame(WriteCommand(s, w.content), w.content, PaddingLen(s.padding, |w.content|, w.draw));
    assert Emitted(sent, w) == [] + frame == frame;
  }

  lemma {:induction false} RawRun(s: WriteState, ws: seq<Write>)
    requires HasId(s) && s.writeDirectCopy
    ensures EmitAll(s, ws) == Written(ws)
    decreases |ws|
  {
    if ws != [] {
      RawRun(s, ws[1..]);
    }
  }

  // ---------------------------------------------------------------------------
  // Reading back what was written
  // ---------------------------------------------------------------------------

  /** What the writer means each byte of a write to be. */
  function EmittedKinds(s: WriteState, w: Write): seq<Kind> {
    if s.writeDirectCopy then Fill(|w.content|, RawByte)
    else
      (if SendsId(s) then Fill(16, IdByte) else [])
      + (Fill(5, HeaderByte) + Fill(|w.content|, ContentByte)
         + Fill(PaddingLen(s.padding, |w.content|, w.draw), PaddingByte))
  }

  function EmitKinds(s: WriteState, ws: seq<Write>): seq<Kind>
    decreases |ws|
  {
    if ws == [] then [] else EmittedKinds(s, ws[0]) + EmitKinds(AfterWrite(s, ws[0]), ws[1..])
  }

  lemma {:induction false} FrameReading(command: Command, content: seq<byte>, padding: u16, rest: seq<byte>)
    requires |content| < 0x1_0000
    ensures FrameLabels(Frame(command, content, padding) + rest)
         == Then(Fill(5, HeaderByte) + Fill(|content|, ContentByte) + Fill(padding, PaddingByte),
                 NextLabels(command, rest))
  {
    hide FrameHeader, BodyLabels, NextLabels, Fill;
    var header, body := FrameHeader(command, |content|, padding), content + Fill(padding, 0);
    Associative(header, body, rest);
    HeaderFields(command, |content|, padding);
    HeaderReading(header, command, |content|, padding, body + rest);
    FillLength(padding, 0 as byte);
    assert |body| == |content| + padding;
    BodyReading(command, |content|, padding, body, rest);
    var next := NextLabels(command, rest).kinds;
    Associative(Fill(5, HeaderByte), Fill(|content|, ContentByte) + Fill(padding, PaddingByte), next);
    Associative(Fill(5, HeaderByte), Fill(|content|, ContentByte), Fill(padding, PaddingByte));
  }

  lemma {:induction false} FillLength<T>(n: nat, x: T)
    ensures |Fill(n, x)| == n
  {
  }

  lemma {:induction false} HeaderReading(header: seq<byte>, command: Command, content: u16, padding: u16, w: seq<byte>)
    requires |header| == 5 && ParseCommand(header[0]) == Some(command)
    requires GetU16(header[1], header[2]) == content && GetU16(header[3], header[4]) == padding
    ensures FrameLabels(header + w) == Then(Fill(5, HeaderByte), BodyLabels(command, content, padding, w))
  {
    assert (header + w)[5..] == w;
  }

  lemma {:induction false} BodyReading(command: Command, content: nat, padding: nat, body: seq<byte>, rest: seq<byte>)
    requires |body| == content + padding
    ensures BodyLabels(command, content, padding, body + rest)
         == Then(Fill(content, ContentByte) + Fill(padding, PaddingByte), NextLabels(command, rest))
  {
    assert (body + rest)[content + padding..] == rest;
  }

  /** The reader that talks to a fresh writer: the opposite role, and a server knows the client's id. */
  predicate Paired(s: WriteState, r: ReadState) {
    && HasId(s)
    && !s.hasSentId && !s.writeDirectCopy
    && r == ReadStart(r.ids, !s.isServer)
    && (!s.isServer ==> s.ids[0] in r.ids)
  }

  lemma {:induction false} FramesReading(s: WriteState, ws: seq<Write>)
    requires HasId(s) && Fits(ws) && !SendsId(s)
    ensures NextLabels(if s.writeDirectCopy then StartDirectCopy else ContinuePadding, EmitAll(s, ws))
         == Labelled(EmitKinds(s, ws), false)
    decreases |ws|
  {
    hide AfterWrite, Emitted, Frame, PaddingLen, EmittedKinds, StartsDirectCopy;
    if ws != [] {
      var s' := AfterWrite(s, ws[0]);
      EmittedKindsFrame(s, ws[0]);
      FramesReading(s', ws[1..]);
      var content, rest := ws[0].content, EmitAll(s', ws[1..]);
      if s.writeDirectCopy {
        RawRun(s, ws);
        RawRun(s', ws[1..]);
        assert Fill(|content|, RawByte) + Fill(|rest|, RawByte) == Fill(|content + rest|, RawByte);
      } else {
        EmittedFrame(s, ws[0]);
        FrameReading(WriteCommand(s, content), content, PaddingLen(s.padding, |content|, ws[0].draw), rest);
      }
    }
  }

  /** Reader and writer agree on the meaning of every byte of the wire: in particular the reader
      takes bytes as raw from exactly the offset at which the writer's raw bytes begin. */
  lemma {:induction false} SameReading(s: WriteState, ws: seq<Write>, r: ReadState)
    requires Paired(s, r) && Fits(ws)
    ensures Labels(r, EmitAll(s, ws)) == Labelled(EmitKinds(s, ws), false)
  {
    hide AfterWrite, Emitted, EmittedKinds;
    if s.isServer {
      FramesReading(s, ws);
    } else if ws != [] {
      var sent := s.(hasSentId := true);
      IdFirst(s, ws);
      FramesReading(sent, ws);
      var id: seq<byte>, rest := s.ids[0], EmitAll(sent, ws);
      assert (id + rest)[..16] == id && (id + rest)[16..] == rest;
    }
  }

  lemma {:induction false} SelectEmitted(s: WriteState, ws: seq<Write>)
    requires HasId(s) && Fits(ws)
    ensures |EmitKinds(s, ws)| == |EmitAll(s, ws)|
    ensures Select(EmitAll(s, ws), EmitKinds(s, ws)) == Written(ws)
    decreases |ws|
  {
    if ws != [] {
      var s' := AfterWrite(s, ws[0]);
      SelectEmitted(s', ws[1..]);
      SelectEmittedOne(s, ws[0]);
      SelectAppend(Emitted(s, ws[0]), EmittedKinds(s, ws[0]), EmitAll(s', ws[1..]), EmitKinds(s', ws[1..]));
    }
  }

  lemma {:induction false} SelectEmittedOne(s: WriteState, w: Write)
    requires HasId(s) && |w.content| < 0x1_0000
    ensures |EmittedKinds(s, w)| == |Emitted(s, w)|
    ensures Select(Emitted(s, w), EmittedKinds(s, w)) == w.content
  {
    if s.writeDirectCopy {
      SelectFill(w.content, RawByte);
    } else {
      var padding := PaddingLen(s.padding, |w.content|, w.draw);
      var command := WriteCommand(s, w.content);
      var frame := Frame(command, w.content, padding);
      SelectFrame(command, w.content, padding);
      if SendsId(s) {
        SelectAppend(s.ids[0], Fill(16, IdByte), frame,
                     Fill(5, HeaderByte) + Fill(|w.content|, ContentByte) + Fill(padding, PaddingByte));
        SelectFill(s.ids[0], IdByte);
      } else {
        assert [] + frame == frame;
        assert EmittedKinds(s, w) == Fill(5, HeaderByte) + Fill(|w.content|, ContentByte) + Fill(padding, PaddingByte);
      }
    }
  }

  lemma {:induction false} SelectFrame(command: Command, content: seq<byte>, padding: u16)
    requires |content| < 0x1_0000
    ensures var ks := Fill(5, HeaderByte) + Fill(|content|, ContentByte) + Fill(padding, PaddingByte);
            var frame := Frame(command, content, padding);
            |ks| == |frame| && Select(frame, ks) == content
  {
    var header, body := FrameHeader(command, |content|, padding), content + Fill(padding, 0);
    var bodyKinds := Fill(|content|, ContentByte) + Fill(|body| - |content|, PaddingByte);
    SelectFill(header, HeaderByte);
    SelectFrameBody(body, |content|);
    SelectAppend(header, Fill(5, HeaderByte), body, bodyKinds);
    assert Fill(5, HeaderByte) + bodyKinds
        == Fill(5, HeaderByte) + Fill(|content|, ContentByte) + Fill(padding, PaddingByte);
  }

  /** Decoding what a run of writes emitted gives back what was written, for all padding draws. */
  lemma {:induction false} OneShotRoundTrip(s: WriteState, ws: seq<Write>, r: ReadState)
    requires Paired(s, r) && Fits(ws)
    ensures Decode(r.ids, r.isServer, EmitAll(s, ws)) == Decoded(Written(ws), false)
  {
    SameReading(s, ws, r);
    SelectEmitted(s, ws);
    LabelsDecode(r, EmitAll(s, ws));
  }

  /** End to end: whatever the writes, the padding draws, the arrivals and the rooms, what a reader has
      delivered is a prefix of what was written, and no call fails. */
  lemma {:induction false} EndToEnd(s: WriteState, ws: seq<Write>, run: Run)
    requires Happens(run) && Paired(s, First(run)) && Fits(ws)
    requires Arrived(run) <= EmitAll(s, ws)
    ensures Delivered(run) <= Written(ws)
    ensures !HasFailed(run)
  {
    hide EmitAll, Written, Happens, Arrived, Delivered, First, Starved, Resume;
    var r, wire := First(run), EmitAll(s, ws);
    OneShotRoundTrip(s, ws, r);
    IncrementalRefinesOneShot(run, r.ids, r.isServer, []);
    StartMeaning(r.ids, r.isServer, wire);
    StartMeaning(r.ids, r.isServer, Arrived(run));
    ResumeMonotone(r, Arrived(run), wire[|Arrived(run)|..]);
    assert Arrived(run) + wire[|Arrived(run)|..] == wire;
    if HasFailed(run) {
      FailureMeansBad(run, wire);
    }
  }

  /** Once the whole wire has arrived and the reader is starved, it has delivered all that was written. */
  lemma {:induction false} EndToEndComplete(s: WriteState, ws: seq<Write>, run: Run)
    requires Happens(run) && Paired(s, First(run)) && Fits(ws)
    requires Arrived(run) == EmitAll(s, ws) && Starved(Now(run).state, Now(run).buf)
    ensures Delivered(run) == Written(ws)
  {
    hide EmitAll, Written, Happens, Arrived, Delivered, First, Starved;
    OneShotRoundTrip(s, ws, First(run));
    IncrementalRefinesOneShot(run, First(run).ids, First(run).isServer, []);
  }

  lemma {:induction false} StartMeaning(ids: seq<Uuid>, isServer: bool, w: seq<byte>)
    ensures Resume(ReadStart(ids, isServer), w) == Decode(ids, isServer, w)
  {
  }
}
