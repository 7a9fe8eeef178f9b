/**
 The Vision wire and the TLS records its writer looks for, byte by byte: what the definitions of the other
 modules come to on literal bytes.
 */
module VisionBytes {
  import opened Bytes
  import opened VisionReading
  import opened VisionWriting
  import opened VisionSniffing

  // ---------------------------------------------------------------------------
  // Reading
  // ---------------------------------------------------------------------------

  /** The five bytes of a frame header: the command, and two lengths with their high bytes first. */
  function HeaderBytes(c: byte, content: nat, padding: nat): (header: seq<byte>)
    requires content < 0x1_0000 && padding < 0x1_0000
    ensures |header| == 5
  {
    [c, content / 256, content % 256, padding / 256, padding % 256]
  }

  /** A frame delivers its content and drops its padding.  Behind command 0 come further frames; behind 1 and 2
      everything is raw; any other command is invalid. */
  lemma {:induction false} FrameBytes(c: byte, content: seq<byte>, padding: seq<byte>, rest: seq<byte>)
    requires |content| < 0x1_0000 && |padding| < 0x1_0000
    ensures DecodeFrames(HeaderBytes(c, |content|, |padding|) + (content + padding + rest))
         == if c == 0 then Prepend(content, DecodeFrames(rest))
            else if c == 1 || c == 2 then Decoded(content + rest, false)
            else Decoded([], true)
  {
    hide DecodeFrames, DecodeBody;
    var body := content + padding + rest;
    HeaderBehind(c, |content|, |padding|, body);
    BodyBytes(content, padding, rest);
  }

  lemma {:induction false} HeaderBehind(c: byte, content: nat, padding: nat, body: seq<byte>)
    requires content < 0x1_0000 && padding < 0x1_0000
    ensures DecodeFrames(HeaderBytes(c, content, padding) + body)
         == match ParseCommand(c)
            case None => Decoded([], true)
            case Some(command) => DecodeBody(command, content, padding, body)
  {
    hide DecodeBody;
    var w := HeaderBytes(c, content, padding) + body;
    assert w[5..] == body;
    assert GetU16(w[1], w[2]) == content && GetU16(w[3], w[4]) == padding;
  }

  lemma {:induction false} BodyBytes(content: seq<byte>, padding: seq<byte>, rest: seq<byte>)
    ensures DecodeBody(ContinuePadding, |content|, |padding|, content + padding + rest)
         == Prepend(content, DecodeFrames(rest))
    ensures DecodeBody(EndPadding, |content|, |padding|, content + padding + rest) == Decoded(content + rest, false)
    ensures DecodeBody(StartDirectCopy, |content|, |padding|, content + padding + rest)
         == Decoded(content + rest, false)
  {
    hide DecodeFrames;
    var w := content + padding + rest;
    assert w[..|content|] == content && w[|content| + |padding|..] == rest;
  }

  /** A frame that has not arrived completely delivers what there is of its content, and an incomplete header
      nothing. */
  lemma {:induction false} PartOfFrameBytes(c: byte, content: nat, padding: nat, part: seq<byte>)
    requires c <= 2 && content < 0x1_0000 && padding < 0x1_0000 && |part| < content + padding
    ensures DecodeFrames(HeaderBytes(c, content, padding) + part) == Decoded(part[..Min(|part|, content)], false)
    ensures forall n | 0 <= n < 5 :: DecodeFrames(HeaderBytes(c, content, padding)[..n]) == Decoded([], false)
  {
    HeaderBehind(c, content, padding, part);
  }

  /** A client's reader expects frames at once.  A server's expects sixteen bytes: those of a known user are
      dropped, and those of an unknown one are the first of what is passed through. */
  lemma {:induction false} IdBytes(ids: seq<Uuid>, id: Uuid, w: seq<byte>)
    ensures Resume(ReadStart(ids, false), w) == DecodeFrames(w)
    ensures Resume(ReadStart(ids, true), id + w) == if id in ids then DecodeFrames(w) else Decoded(id + w, false)
    ensures |w| < 16 ==> Resume(ReadStart(ids, true), w) == Decoded([], false)
  {
    hide DecodeFrames;
    assert (id + w)[..16] == id && (id + w)[16..] == w;
  }

  // ---------------------------------------------------------------------------
  // Writing
  // ---------------------------------------------------------------------------

  /** A framed write, byte by byte: the id of a client that has not sent it, the header, the content, and zeros.  The
      command is 2 for a write that begins with 17 03 03 when raw mode may start, and 0 for any other. */
  lemma {:induction false} EmittedBytes(s: WriteState, w: Write, padding: u16)
    requires HasId(s) && |w.content| < 0x1_0000
    requires padding == if |w.content| > s.padding.longThreshold then w.draw
                        else Max(0, (w.draw + s.padding.longBase) % 0x1_0000 - |w.content|)
    ensures s.writeDirectCopy ==> Emitted(s, w) == w.content
    ensures !s.writeDirectCopy ==>
              var c: byte := if s.canStartDirectCopy && [0x17, 3, 3] <= w.content then 2 else 0;
              Emitted(s, w) == (if !s.isServer && !s.hasSentId then s.ids[0] else [])
                             + (HeaderBytes(c, |w.content|, padding) + (w.content + seq(padding, _ => 0)))
  {
    RecordTypes(w.content);
    assert PaddingLen(s.padding, |w.content|, w.draw) == padding;
    assert FrameHeader(WriteCommand(s, w.content), |w.content|, padding)
        == HeaderBytes(CommandByte(WriteCommand(s, w.content)), |w.content|, padding);
  }

  lemma {:induction false} RecordTypes(content: seq<byte>)
    ensures IsAppData(content) <==> [0x17, 3, 3] <= content
    ensures IsHandshake(content) <==> |content| >= 6 && [0x16, 3, 1] <= content
  {
    if [0x17, 3, 3] <= content {
      assert content[..3] == [0x17, 3, 3];
      assert content[0] == content[..3][0] && content[1] == content[..3][1] && content[2] == content[..3][2];
    }
    if |content| >= 6 && [0x16, 3, 1] <= content {
      assert content[..3] == [0x16, 3, 1];
      assert content[0] == content[..3][0] && content[1] == content[..3][1] && content[2] == content[..3][2];
    }
  }

  /** A write begins raw mode exactly if it begins with 17 03 03 and raw mode may start. */
  lemma {:induction false} DirectCopyBytes(s: WriteState, w: Write)
    ensures AfterWrite(s, w).writeDirectCopy
        <==> s.writeDirectCopy || (s.canStartDirectCopy && [0x17, 3, 3] <= w.content)
  {
    RecordTypes(w.content);
  }

  // ---------------------------------------------------------------------------
  // Sniffing
  // ---------------------------------------------------------------------------

  /** With nothing kept, a write of at least six bytes that begins with 16 03 01 is kept, and allows raw mode if it
      is a ClientHello, whose type is 1; any other write changes nothing. */
  lemma {:induction false} FirstHelloBytes(s: WriteState, content: seq<byte>)
    requires s.hello == []
    ensures Sniffed(s, content)
         == if |content| >= 6 && [0x16, 3, 1] <= content
            then s.(isSafeTlsVersion := true, hello := content,
                    canStartDirectCopy := s.canStartDirectCopy || content[5] == 1)
            else s
  {
    RecordTypes(content);
  }

  /** A kept hello is topped up to 128 bytes.  Its 44th byte is the length of a session id; once two bytes behind
      that and a third one are there, the two decide: raw mode may start unless they are 13 05. */
  lemma {:induction false} NextHelloBytes(s: WriteState, content: seq<byte>)
    requires s.hello != []
    ensures var hello := if |s.hello| >= 128 then s.hello else s.hello + content[..Min(128 - |s.hello|, |content|)];
            Sniffed(s, content)
            == (if |hello| >= 44 && |hello| >= 47 + (hello[43] as int)
                then s.(hello := [],
                        canStartDirectCopy := !(hello[44 + hello[43]] == 0x13 && hello[45 + hello[43]] == 5))
                else s.(hello := hello))
  {
    assert s.hello + content[..0] == s.hello;
  }

  /** Behind a first write of at most 128 bytes, a sniffer that has 44 bytes can be resolved exactly if the session
      id has at most 81 bytes. */
  lemma {:induction false} LongestSessionId(s: WriteState, first: seq<byte>, vs: seq<Write>)
    requires HoldsFirst(s, first) && StaysFramed(s, vs) && !AfterAll(s, vs).writeDirectCopy
    requires |first| <= 128 && |Kept(first, vs)| >= 44
    ensures (exists ws, k :: StaysFramed(s, vs + ws) && ResolvedAt(s, first, vs + ws, k))
        <==> (first + Written(vs))[43] <= 81
  {
    hide AfterAll, HoldsFirst, StaysFramed, ResolvedAt;
    ResolvableIff(s, first, vs);
    assert Kept(first, vs)[43] == (first + Written(vs))[43];
  }

  /** From a fresh stream, raw mode is entered only behind a write that begins a handshake, by one that begins
      with application data. */
  lemma {:induction false} HandshakeBeforeDirectCopy(ids: seq<Uuid>, isServer: bool, padding: PaddingConfig,
                                                     ws: seq<Write>)
    requires isServer || ids != []
    ensures var s' := AfterAll(WriteStart(ids, isServer, padding), ws);
            && (s'.isSafeTlsVersion || s'.hello != [] || s'.canStartDirectCopy ==>
                  exists i :: 0 <= i < |ws| && [0x16, 3, 1] <= ws[i].content)
            && (s'.writeDirectCopy <==> s'.hasSeenTlsAppData)
            && (s'.writeDirectCopy ==>
                  exists i, j :: 0 <= i < j < |ws| && [0x16, 3, 1] <= ws[i].content && [0x17, 3, 3] <= ws[j].content)
    decreases |ws|
  {
    hide AfterWrite, EmitAll, Emitted;
    var s := WriteStart(ids, isServer, padding);
    if ws != [] {
      var n := |ws| - 1;
      var vs, w := ws[..n], ws[n];
      assert ws == vs + [w];
      HandshakeBeforeDirectCopy(ids, isServer, padding, vs);
      RunSnoc(s, vs, w);
      FlagsOfWrite(AfterAll(s, vs), w);
      assert forall i | 0 <= i < n :: ws[i] == vs[i];
    }
  }

  lemma {:induction false} FlagsOfWrite(s: WriteState, w: Write)
    ensures var s' := AfterWrite(s, w);
            && (s.writeDirectCopy ==> s' == s)
            && (s'.isSafeTlsVersion || s'.hello != [] || s'.canStartDirectCopy ==>
                  s.isSafeTlsVersion || s.hello != [] || s.canStartDirectCopy || [0x16, 3, 1] <= w.content)
            && (s'.writeDirectCopy ==> s.writeDirectCopy || (s.canStartDirectCopy && [0x17, 3, 3] <= w.content))
            && (!s.writeDirectCopy ==> s'.hasSeenTlsAppData == (s.hasSeenTlsAppData || s'.writeDirectCopy))
  {
    RecordTypes(w.content);
  }

  // ---------------------------------------------------------------------------
  // The default padding
  // ---------------------------------------------------------------------------

  /** With the default padding, a framed write of up to 900 bytes takes from 500 bytes, or its own length, to 1000
      behind its header, and a longer one up to 256 more than its length; all of these lengths are drawn. */
  lemma {:induction false} DefaultPaddingBytes(s: WriteState, w: Write)
    requires HasId(s) && !s.writeDirectCopy && !SendsId(s) && s.padding == DEFAULT_PADDING
    ensures DrawInRange(s.padding, |w.content|, w.draw) ==>
              |Emitted(s, w)| == 5 + if |w.content| <= 900 then Max(|w.content|, 500 + w.draw) else |w.content| + w.draw
    ensures DrawInRange(s.padding, |w.content|, w.draw) <==> w.draw <= if |w.content| <= 900 then 500 else 256
  {
    if DrawInRange(s.padding, |w.content|, w.draw) {
      FrameSize(s, w);
    }
  }
}
