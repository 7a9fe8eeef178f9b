/**
 The meaning of a Vision wire for its reader.

 `Labels` says what each wire byte is for (id, header, content, padding or raw);
 `Decode` is the one-shot decoder; `Resume` is what a reader suspended in the middle of
 the wire still has to deliver.  `History` is the relation between a reader that has
 consumed part of a wire and that wire; `Unframes` specifies one call of the resumable
 decoder, and a `Run` is any interleaving of arrivals and calls.
 */
module VisionReading {
  import opened Bytes

  datatype Command = ContinuePadding | EndPadding | StartDirectCopy

  function CommandByte(c: Command): byte {
    match c
    case ContinuePadding => 0
    case EndPadding => 1
    case StartDirectCopy => 2
  }

  function ParseCommand(b: byte): Option<Command> {
    match b
    case 0 => Some(ContinuePadding)
    case 1 => Some(EndPadding)
    case 2 => Some(StartDirectCopy)
    case _ => None
  }

  datatype Stage = Id | Header | Content | Padding

  /** The fields of the Vision state that reading uses. */
  datatype ReadState = ReadState(
    ids: seq<Uuid>,
    isServer: bool,
    stage: Stage,
    remainingContentLen: nat,
    remainingPaddingLen: nat,
    command: Command,
    readDirectCopy: bool)

  function ReadStart(ids: seq<Uuid>, isServer: bool): ReadState {
    ReadState(ids, isServer, Id, 0, 0, ContinuePadding, false)
  }

  // ---------------------------------------------------------------------------
  // The one-shot decoder
  // ---------------------------------------------------------------------------

  /** Bytes delivered, and whether decoding ran into an invalid command byte. */
  datatype Decoded = Decoded(out: seq<byte>, bad: bool)

  function Prepend(s: seq<byte>, d: Decoded): Decoded {
    Decoded(s + d.out, d.bad)
  }

  function Decode(ids: seq<Uuid>, isServer: bool, w: seq<byte>): Decoded {
    if !isServer then DecodeFrames(w)
    else if |w| < 16 then Decoded([], false)
    else if w[..16] in ids then DecodeFrames(w[16..])
    else Decoded(w, false)
  }

  function DecodeFrames(w: seq<byte>): Decoded
    decreases |w|, 0
  {
    if |w| < 5 then Decoded([], false)
    else match ParseCommand(w[0])
      case None => Decoded([], true)
      case Some(command) => DecodeBody(command, GetU16(w[1], w[2]), GetU16(w[3], w[4]), w[5..])
  }

  /** The rest of a frame with `content` and `padding` bytes left, and what follows it. */
  function DecodeBody(command: Command, content: nat, padding: nat, w: seq<byte>): Decoded
    decreases |w|, 2
  {
    if |w| < content + padding then Decoded(Take(w, content), false)
    else Prepend(w[..content], DecodeNext(command, w[content + padding..]))
  }

  /** What follows a complete frame: more frames, or raw bytes. */
  function DecodeNext(command: Command, w: seq<byte>): Decoded
    decreases |w|, 1
  {
    if command == ContinuePadding then DecodeFrames(w) else Decoded(w, false)
  }

  /** What a reader in state `s` delivers from `w`. */
  function Resume(s: ReadState, w: seq<byte>): Decoded {
    if s.readDirectCopy then Decoded(w, false)
    else match s.stage
      case Id => Decode(s.ids, s.isServer, w)
      case Header => DecodeFrames(w)
      case Content => DecodeBody(s.command, s.remainingContentLen, s.remainingPaddingLen, w)
      case Padding => DecodeBody(s.command, 0, s.remainingPaddingLen, w)
  }

  // ---------------------------------------------------------------------------
  // What each wire byte is for
  // ---------------------------------------------------------------------------

  /** `Unread` marks bytes no decision can be taken about yet, or after an invalid command. */
  datatype Kind = IdByte | HeaderByte | ContentByte | PaddingByte | RawByte | Unread

  datatype Labelled = Labelled(kinds: seq<Kind>, bad: bool)

  function Then(ks: seq<Kind>, l: Labelled): Labelled {
    Labelled(ks + l.kinds, l.bad)
  }

  function IdLabels(ids: seq<Uuid>, isServer: bool, w: seq<byte>): (l: Labelled)
    ensures |l.kinds| == |w|
  {
    if !isServer then FrameLabels(w)
    else if |w| < 16 then Labelled(Fill(|w|, Unread), false)
    else if w[..16] in ids then Then(Fill(16, IdByte), FrameLabels(w[16..]))
    else Labelled(Fill(|w|, RawByte), false)
  }

  function FrameLabels(w: seq<byte>): (l: Labelled)
    ensures |l.kinds| == |w|
    decreases |w|, 0
  {
    if |w| < 5 then Labelled(Fill(|w|, Unread), false)
    else match ParseCommand(w[0])
      case None => Labelled(Fill(|w|, Unread), true)
      case Some(command) =>
        Then(Fill(5, HeaderByte), BodyLabels(command, GetU16(w[1], w[2]), GetU16(w[3], w[4]), w[5..]))
  }

  function BodyLabels(command: Command, content: nat, padding: nat, w: seq<byte>): (l: Labelled)
    ensures |l.kinds| == |w|
    decreases |w|, 2
  {
    if |w| < content + padding then
      var n := Min(|w|, content);
      Labelled(Fill(n, ContentByte) + Fill(|w| - n, PaddingByte), false)
    else
      Then(Fill(content, ContentByte) + Fill(padding, PaddingByte), NextLabels(command, w[content + padding..]))
  }

  function NextLabels(command: Command, w: seq<byte>): (l: Labelled)
    ensures |l.kinds| == |w|
    decreases |w|, 1
  {
    if command == ContinuePadding then FrameLabels(w) else Labelled(Fill(|w|, RawByte), false)
  }

  function Labels(s: ReadState, w: seq<byte>): (l: Labelled)
    ensures |l.kinds| == |w|
  {
    if s.readDirectCopy then Labelled(Fill(|w|, RawByte), false)
    else match s.stage
      case Id => IdLabels(s.ids, s.isServer, w)
      case Header => FrameLabels(w)
      case Content => BodyLabels(s.command, s.remainingContentLen, s.remainingPaddingLen, w)
      case Padding => BodyLabels(s.command, 0, s.remainingPaddingLen, w)
  }

  predicate Delivers(k: Kind) {
    k == ContentByte || k == RawByte
  }

  /** The bytes of `w` whose label says they are for the caller. */
  function Select(w: seq<byte>, ks: seq<Kind>): seq<byte>
    requires |w| == |ks|
  {
    if w == [] then [] else Pick(w[0], ks[0]) + Select(w[1..], ks[1..])
  }

  function Pick(b: byte, k: Kind): seq<byte> {
    if Delivers(k) then [b] else []
  }

  lemma {:induction false} SelectAppend(v: seq<byte>, ks: seq<Kind>, w: seq<byte>, ls: seq<Kind>)
    requires |v| == |ks| && |w| == |ls|
    ensures Select(v + w, ks + ls) == Select(v, ks) + Select(w, ls)
  {
    if v == [] {
      assert v + w == w && ks + ls == ls;
    } else {
      var head, tail := Pick(v[0], ks[0]), Select(v[1..], ks[1..]);
      calc {
        Select(v + w, ks + ls);
        { assert (v + w)[1..] == v[1..] + w && (ks + ls)[1..] == ks[1..] + ls; }
        head + Select(v[1..] + w, ks[1..] + ls);
        { SelectAppend(v[1..], ks[1..], w, ls); }
        head + (tail + Select(w, ls));
        (head + tail) + Select(w, ls);
      }
    }
  }

  lemma {:induction false} SelectFill(w: seq<byte>, k: Kind)
    ensures Select(w, Fill(|w|, k)) == if Delivers(k) then w else []
  {
    if w != [] {
      SelectFill(w[1..], k);
      assert Fill(|w|, k)[1..] == Fill(|w| - 1, k);
    }
  }

  lemma {:induction false} SelectSplit(w: seq<byte>, n: nat, ks: seq<Kind>, ls: seq<Kind>)
    requires |ks| == n <= |w| && |w| == n + |ls|
    ensures Select(w, ks + ls) == Select(w[..n], ks) + Select(w[n..], ls)
  {
    SelectAppend(w[..n], ks, w[n..], ls);
    assert w[..n] + w[n..] == w;
  }

  /** Labelling and decoding are the same reading of the wire. */
  lemma {:induction false} LabelsDecode(s: ReadState, w: seq<byte>)
    ensures Resume(s, w) == Decoded(Select(w, Labels(s, w).kinds), Labels(s, w).bad)
  {
    SelectFill(w, RawByte);
    if s.readDirectCopy {
    } else {
      match s.stage
      case Id =>
        if s.isServer {
          SelectFill(w, Unread);
          if |w| >= 16 {
            FrameLabelsDecode(w[16..]);
            SelectFill(w[..16], IdByte);
            SelectSplit(w, 16, Fill(16, IdByte), FrameLabels(w[16..]).kinds);
          }
        } else {
          FrameLabelsDecode(w);
        }
      case Header => FrameLabelsDecode(w);
      case Content => BodyLabelsDecode(s.command, s.remainingContentLen, s.remainingPaddingLen, w);
      case Padding => BodyLabelsDecode(s.command, 0, s.remainingPaddingLen, w);
    }
  }

  lemma {:induction false} FrameLabelsDecode(w: seq<byte>)
    ensures DecodeFrames(w) == Decoded(Select(w, FrameLabels(w).kinds), FrameLabels(w).bad)
    decreases |w|, 0
  {
    SelectFill(w, Unread);
    if |w| >= 5 && ParseCommand(w[0]).Some? {
      var command, content, padding := ParseCommand(w[0]).value, GetU16(w[1], w[2]), GetU16(w[3], w[4]);
      BodyLabelsDecode(command, content, padding, w[5..]);
      SelectFill(w[..5], HeaderByte);
      SelectSplit(w, 5, Fill(5, HeaderByte), BodyLabels(command, content, padding, w[5..]).kinds);
    }
  }

  lemma {:induction false} BodyLabelsDecode(command: Command, content: nat, padding: nat, w: seq<byte>)
    ensures DecodeBody(command, content, padding, w)
         == Decoded(Select(w, BodyLabels(command, content, padding, w).kinds),
                    BodyLabels(command, content, padding, w).bad)
    decreases |w|, 2
  {
    hide Select, FrameLabels, DecodeFrames, NextLabels, DecodeNext;
    var n := Min(|w|, content);
    if |w| < content + padding {
      SelectFrameBody(w, n);
    } else {
      var m := content + padding;
      var rest := w[m..];
      NextLabelsDecode(command, rest);
      SelectFrameBody(w[..m], n);
      SelectSplit(w, m, Fill(content, ContentByte) + Fill(padding, PaddingByte), NextLabels(command, rest).kinds);
      assert w[..m][..n] == w[..n];
    }
  }

  lemma {:induction false} SelectFrameBody(w: seq<byte>, n: nat)
    requires n <= |w|
    ensures Select(w, Fill(n, ContentByte) + Fill(|w| - n, PaddingByte)) == w[..n]
  {
    SelectSplit(w, n, Fill(n, ContentByte), Fill(|w| - n, PaddingByte));
    SelectFill(w[..n], ContentByte);
    SelectFill(w[n..], PaddingByte);
  }

  lemma {:induction false} NextLabelsDecode(command: Command, w: seq<byte>)
    ensures DecodeNext(command, w) == Decoded(Select(w, NextLabels(command, w).kinds), NextLabels(command, w).bad)
    decreases |w|, 1
  {
    if command == ContinuePadding {
      FrameLabelsDecode(w);
    } else {
      SelectFill(w, RawByte);
    }
  }

  // ---------------------------------------------------------------------------
  // More wire never changes what was delivered
  // ---------------------------------------------------------------------------

  lemma {:induction false} ResumeMonotone(s: ReadState, w: seq<byte>, x: seq<byte>)
    ensures Resume(s, w).out <= Resume(s, w + x).out
    ensures Resume(s, w).bad ==> Resume(s, w + x).bad
  {
    if !s.readDirectCopy {
      match s.stage
      case Id =>
        if s.isServer {
          if |w| >= 16 {
            assert (w + x)[..16] == w[..16] && (w + x)[16..] == w[16..] + x;
            FramesMonotone(w[16..], x);
          }
        } else {
          FramesMonotone(w, x);
        }
      case Header => FramesMonotone(w, x);
      case Content => BodyMonotone(s.command, s.remainingContentLen, s.remainingPaddingLen, w, x);
      case Padding => BodyMonotone(s.command, 0, s.remainingPaddingLen, w, x);
    }
  }

  lemma {:induction false} FramesMonotone(w: seq<byte>, x: seq<byte>)
    ensures DecodeFrames(w).out <= DecodeFrames(w + x).out
    ensures DecodeFrames(w).bad ==> DecodeFrames(w + x).bad
    decreases |w|, 0
  {
    if |w| >= 5 && ParseCommand(w[0]).Some? {
      assert (w + x)[5..] == w[5..] + x;
      BodyMonotone(ParseCommand(w[0]).value, GetU16(w[1], w[2]), GetU16(w[3], w[4]), w[5..], x);
    }
  }

  lemma {:induction false} BodyMonotone(command: Command, content: nat, padding: nat, w: seq<byte>, x: seq<byte>)
    ensures DecodeBody(command, content, padding, w).out <= DecodeBody(command, content, padding, w + x).out
    ensures DecodeBody(command, content, padding, w).bad ==> DecodeBody(command, content, padding, w + x).bad
    decreases |w|, 1
  {
    var n := Min(|w|, content);
    assert (w + x)[..n] == w[..n];
    if |w| >= content + padding {
      assert (w + x)[content + padding..] == w[content + padding..] + x;
      FramesMonotone(w[content + padding..], x);
    }
  }

  // ---------------------------------------------------------------------------
  // Consuming part of a wire
  // ---------------------------------------------------------------------------

  /** Consuming the bytes labelled `ks` from the front of `b` takes the reader from `s` to
      `s'`, whatever arrives behind `b` later. */
  ghost predicate Advances(s: ReadState, b: seq<byte>, ks: seq<Kind>, s': ReadState, b': seq<byte>) {
    && Unread !in ks
    && |ks| <= |b|
    && b' == b[|ks|..]
    && s'.ids == s.ids && s'.isServer == s.isServer
    // raw mode is never left, and raw bytes are consumed in raw mode only
    && (s.readDirectCopy || RawByte in ks ==> s'.readDirectCopy)
    && forall future: seq<byte> :: Labels(s, b + future) == Then(ks, Labels(s', b' + future))
  }

  lemma {:induction false} AdvancesStay(s: ReadState, b: seq<byte>)
    ensures Advances(s, b, [], s, b)
  {
    forall future: seq<byte> ensures Labels(s, b + future) == Then([], Labels(s, b + future)) {
      assert [] + Labels(s, b + future).kinds == Labels(s, b + future).kinds;
    }
  }

  lemma {:induction false} AdvancesCompose(s: ReadState, b: seq<byte>, ks: seq<Kind>, s': ReadState, b': seq<byte>,
                                           ls: seq<Kind>, s'': ReadState, b'': seq<byte>)
    requires Advances(s, b, ks, s', b') && Advances(s', b', ls, s'', b'')
    ensures Advances(s, b, ks + ls, s'', b'')
  {
    hide Labels;
    forall future: seq<byte> ensures Labels(s, b + future) == Then(ks + ls, Labels(s'', b'' + future)) {
      assert Labels(s, b + future) == Then(ks, Labels(s', b' + future));
      assert Labels(s', b' + future) == Then(ls, Labels(s'', b'' + future));
      assert ks + (ls + Labels(s'', b'' + future).kinds) == (ks + ls) + Labels(s'', b'' + future).kinds;
    }
  }

  lemma {:induction false} AdvancesArrive(s: ReadState, b: seq<byte>, ks: seq<Kind>, s': ReadState, b': seq<byte>,
                                          x: seq<byte>)
    requires Advances(s, b, ks, s', b')
    ensures Advances(s, b + x, ks, s', b' + x)
  {
    hide Labels;
    forall future: seq<byte> ensures Labels(s, (b + x) + future) == Then(ks, Labels(s', (b' + x) + future)) {
      assert (b + x) + future == b + (x + future) && (b' + x) + future == b' + (x + future);
    }
    assert (b + x)[|ks|..] == b[|ks|..] + x;
  }

  /** How many bytes of `w` are gone once only `b` is left of it. */
  function Gone(w: seq<byte>, b: seq<byte>): (n: nat)
    ensures n <= |w|
  {
    if |b| <= |w| then |w| - |b| else 0
  }

  /** Starting in `s0`, the reader has been given `w`, holds `b` of it unconsumed, is in state
      `s`, and has delivered `out`: exactly the content and raw bytes among those consumed. */
  ghost predicate History(s0: ReadState, w: seq<byte>, s: ReadState, b: seq<byte>, out: seq<byte>) {
    var n := Gone(w, b);
    && Advances(s0, w, Labels(s0, w).kinds[..n], s, b)
    && out == Select(w[..n], Labels(s0, w).kinds[..n])
  }

  lemma {:induction false} HistoryFromAdvances(s0: ReadState, w: seq<byte>, ks: seq<Kind>, s: ReadState, b: seq<byte>)
    requires Advances(s0, w, ks, s, b)
    ensures |ks| == Gone(w, b) && Labels(s0, w).kinds[..|ks|] == ks
    ensures History(s0, w, s, b, Select(w[..|ks|], ks))
  {
    hide Labels, Select;
    assert w + [] == w && b + [] == b;
    assert Labels(s0, w + []) == Then(ks, Labels(s, b + []));
    assert Labels(s0, w).kinds[..|ks|] == ks;
  }

  // One lemma per branch of the decoder's loop.

  lemma {:induction false} HistoryStay(s: ReadState, b: seq<byte>)
    ensures History(s, b, s, b, [])
  {
    hide History, Advances, Labels;
    AdvancesStay(s, b);
    HistoryFromAdvances(s, b, [], s, b);
  }

  /** A branch that consumes `n` bytes of kind `k`, delivering them or not. */
  lemma {:induction false} StepHistory(s: ReadState, b: seq<byte>, n: nat, k: Kind, s': ReadState)
    requires n <= |b| && Advances(s, b, Fill(n, k), s', b[n..])
    ensures History(s, b, s', b[n..], if Delivers(k) then b[..n] else [])
  {
    hide Labels, Advances;
    assert |Fill(n, k)| == n;
    HistoryFromAdvances(s, b, Fill(n, k), s', b[n..]);
    SelectFill(b[..n], k);
  }

  /** A branch that only changes the state. */
  lemma {:induction false} StepSilent(s: ReadState, b: seq<byte>, s': ReadState)
    requires forall w: seq<byte> | b <= w :: Labels(s, w) == Labels(s', w)
    requires s'.ids == s.ids && s'.isServer == s.isServer && (s.readDirectCopy ==> s'.readDirectCopy)
    ensures History(s, b, s', b, [])
  {
    hide Labels;
    forall future: seq<byte> ensures Labels(s, b + future) == Then([], Labels(s', b + future)) {
      assert b <= b + future;
      assert [] + Labels(s', b + future).kinds == Labels(s', b + future).kinds;
    }
    HistoryFromAdvances(s, b, [], s', b);
  }

  lemma {:induction false} StepRaw(s: ReadState, b: seq<byte>, n: nat)
    requires s.readDirectCopy && n <= |b|
    ensures History(s, b, s, b[n..], b[..n])
  {
    forall future: seq<byte> ensures Labels(s, b + future) == Then(Fill(n, RawByte), Labels(s, b[n..] + future)) {
      assert Fill(n, RawByte) + Fill(|b[n..] + future|, RawByte) == Fill(|b + future|, RawByte);
    }
    StepHistory(s, b, n, RawByte, s);
  }

  lemma {:induction false} StepUnknownId(s: ReadState, b: seq<byte>)
    requires !s.readDirectCopy && s.stage == Id && s.isServer && |b| >= 16 && b[..16] !in s.ids
    ensures History(s, b, s.(readDirectCopy := true), b, [])
  {
    assert forall w: seq<byte> | b <= w :: w[..16] == b[..16];
    StepSilent(s, b, s.(readDirectCopy := true));
  }

  lemma {:induction false} StepKnownId(s: ReadState, b: seq<byte>)
    requires !s.readDirectCopy && s.stage == Id && s.isServer && |b| >= 16 && b[..16] in s.ids
    ensures History(s, b, s.(stage := Header), b[16..], [])
  {
    var s' := s.(stage := Header);
    forall future: seq<byte> ensures Labels(s, b + future) == Then(Fill(16, IdByte), Labels(s', b[16..] + future)) {
      assert (b + future)[..16] == b[..16] && (b + future)[16..] == b[16..] + future;
    }
    StepHistory(s, b, 16, IdByte, s');
  }

  lemma {:induction false} StepClientId(s: ReadState, b: seq<byte>)
    requires !s.readDirectCopy && s.stage == Id && !s.isServer
    ensures History(s, b, s.(stage := Header), b, [])
  {
    StepSilent(s, b, s.(stage := Header));
  }

  function HeaderRead(s: ReadState, b: seq<byte>, command: Command): (s': ReadState)
    requires |b| >= 5
    ensures s'.ids == s.ids && s'.isServer == s.isServer && s'.readDirectCopy == s.readDirectCopy
  {
    s.(command := command, remainingContentLen := GetU16(b[1], b[2]),
       remainingPaddingLen := GetU16(b[3], b[4]), stage := Content)
  }

  lemma {:induction false} StepHeader(s: ReadState, b: seq<byte>, command: Command)
    requires !s.readDirectCopy && s.stage == Header && |b| >= 5 && ParseCommand(b[0]) == Some(command)
    ensures History(s, b, HeaderRead(s, b, command), b[5..], [])
  {
    var s' := HeaderRead(s, b, command);
    forall future: seq<byte> ensures Labels(s, b + future) == Then(Fill(5, HeaderByte), Labels(s', b[5..] + future)) {
      assert (b + future)[5..] == b[5..] + future;
    }
    StepHistory(s, b, 5, HeaderByte, s');
  }

  lemma {:induction false} StepContent(s: ReadState, b: seq<byte>, n: nat)
    requires !s.readDirectCopy && s.stage == Content && n <= |b| && n <= s.remainingContentLen
    ensures History(s, b, s.(remainingContentLen := s.remainingContentLen - n), b[n..], b[..n])
  {
    var s' := s.(remainingContentLen := s.remainingContentLen - n);
    forall future: seq<byte> ensures Labels(s, b + future) == Then(Fill(n, ContentByte), Labels(s', b[n..] + future)) {
      assert (b + future)[n..] == b[n..] + future;
      LessContent(s.command, s.remainingContentLen, s.remainingPaddingLen, b + future, n);
    }
    StepHistory(s, b, n, ContentByte, s');
  }

  lemma {:induction false} LessContent(command: Command, content: nat, padding: nat, w: seq<byte>, n: nat)
    requires n <= |w| && n <= content
    ensures BodyLabels(command, content, padding, w)
         == Then(Fill(n, ContentByte), BodyLabels(command, content - n, padding, w[n..]))
  {
    hide NextLabels;
    var m := Min(|w|, content);
    FillMore(n, m - n, ContentByte);
    if |w| < content + padding {
      Associative(Fill(n, ContentByte), Fill(m - n, ContentByte), Fill(|w| - m, PaddingByte));
    } else {
      var next := NextLabels(command, w[content + padding..]).kinds;
      assert w[n..][(content - n) + padding..] == w[content + padding..];
      Associative(Fill(n, ContentByte), Fill(m - n, ContentByte), Fill(padding, PaddingByte));
      Associative(Fill(n, ContentByte), Fill(m - n, ContentByte) + Fill(padding, PaddingByte), next);
    }
  }

  /** A frame whose content is complete is in its padding. */
  lemma {:induction false} StepContentDone(s: ReadState, b: seq<byte>)
    requires !s.readDirectCopy && s.stage == Content && s.remainingContentLen == 0
    ensures History(s, b, s.(stage := Padding), b, [])
  {
    StepSilent(s, b, s.(stage := Padding));
  }

  lemma {:induction false} StepPadding(s: ReadState, b: seq<byte>, n: nat)
    requires !s.readDirectCopy && s.stage == Padding && n <= |b| && n <= s.remainingPaddingLen
    ensures History(s, b, s.(remainingPaddingLen := s.remainingPaddingLen - n), b[n..], [])
  {
    var s' := s.(remainingPaddingLen := s.remainingPaddingLen - n);
    forall future: seq<byte> ensures Labels(s, b + future) == Then(Fill(n, PaddingByte), Labels(s', b[n..] + future)) {
      assert (b + future)[n..] == b[n..] + future;
      LessPadding(s.command, s.remainingPaddingLen, b + future, n);
    }
    StepHistory(s, b, n, PaddingByte, s');
  }

  lemma {:induction false} LessPadding(command: Command, padding: nat, w: seq<byte>, n: nat)
    requires n <= |w| && n <= padding
    ensures BodyLabels(command, 0, padding, w)
         == Then(Fill(n, PaddingByte), BodyLabels(command, 0, padding - n, w[n..]))
  {
    if |w| >= padding {
      assert w[n..][padding - n..] == w[padding..];
    }
  }

  /** A frame whose padding is complete is over: the next byte is a header, or raw. */
  lemma {:induction false} StepPaddingDone(s: ReadState, b: seq<byte>)
    requires !s.readDirectCopy && s.stage == Padding && s.remainingPaddingLen == 0
    ensures History(s, b, s.(stage := Header, readDirectCopy := s.command != ContinuePadding), b, [])
  {
    var s' := s.(stage := Header, readDirectCopy := s.command != ContinuePadding);
    forall w: seq<byte> | b <= w ensures Labels(s, w) == Labels(s', w) {
      assert w[0..] == w;
      assert (Fill(0, ContentByte) + Fill(0, PaddingByte)) + NextLabels(s.command, w).kinds
          == NextLabels(s.command, w).kinds;
    }
    StepSilent(s, b, s');
  }

  // ---------------------------------------------------------------------------
  // Readers and their history
  // ---------------------------------------------------------------------------

  lemma {:induction false} AdvancesShape(s: ReadState, b: seq<byte>, ks: seq<Kind>, s': ReadState, b': seq<byte>)
    requires Advances(s, b, ks, s', b')
    ensures |ks| <= |b| && b' == b[|ks|..]
  {
  }

  lemma {:induction false} HistoryCompose(s0: ReadState, w: seq<byte>, s: ReadState, b: seq<byte>, out: seq<byte>,
                                          s': ReadState, b': seq<byte>, put: seq<byte>)
    requires History(s0, w, s, b, out) && History(s, b, s', b', put)
    ensures History(s0, w, s', b', out + put)
  {
    hide Labels, Select, Advances;
    var n, m := Gone(w, b), Gone(b, b');
    var ks, ls := Labels(s0, w).kinds[..n], Labels(s, b).kinds[..m];
    AdvancesCompose(s0, w, ks, s, b, ls, s', b');
    assert b == w[n..] && |ks| == n && |ls| == m by { AdvancesShape(s0, w, ks, s, b); }
    HistoryFromAdvances(s0, w, ks + ls, s', b');
    SelectAppend(w[..n], ks, b[..m], ls);
    assert w[..n + m] == w[..n] + b[..m];
  }

  lemma {:induction false} HistorySilent(s0: ReadState, w: seq<byte>, s: ReadState, b: seq<byte>, out: seq<byte>,
                                         s': ReadState, b': seq<byte>)
    requires History(s0, w, s, b, out) && History(s, b, s', b', [])
    ensures History(s0, w, s', b', out)
  {
    hide History;
    HistoryCompose(s0, w, s, b, out, s', b', []);
    assert out + [] == out;
  }

  lemma {:induction false} HistoryArrive(s0: ReadState, w: seq<byte>, s: ReadState, b: seq<byte>, out: seq<byte>,
                                         x: seq<byte>)
    requires History(s0, w, s, b, out)
    ensures History(s0, w + x, s, b + x, out)
  {
    hide Labels, Select, Advances;
    var ks := Labels(s0, w).kinds[..Gone(w, b)];
    AdvancesArrive(s0, w, ks, s, b, x);
    AdvancesShape(s0, w, ks, s, b);
    HistoryFromAdvances(s0, w + x, ks, s, b + x);
    assert (w + x)[..|ks|] == w[..|ks|];
  }

  /** What was delivered and what the reader will still deliver make up the decoding of the wire. */
  lemma {:induction false} HistoryMeaning(s0: ReadState, w: seq<byte>, s: ReadState, b: seq<byte>, out: seq<byte>,
                                          future: seq<byte>)
    requires History(s0, w, s, b, out)
    ensures Resume(s0, w + future) == Prepend(out, Resume(s, b + future))
  {
    hide Labels, Resume, Select;
    var n := Gone(w, b);
    var ks := Labels(s0, w).kinds[..n];
    var ls := Labels(s, b + future);
    assert Labels(s0, w + future) == Then(ks, ls);
    LabelsDecode(s0, w + future);
    LabelsDecode(s, b + future);
    assert (w + future)[..n] == w[..n] && (w + future)[n..] == b + future;
    SelectSplit(w + future, n, ks, ls.kinds);
  }

  /** The reader cannot go on without more input. */
  predicate Starved(s: ReadState, b: seq<byte>) {
    || b == []
    || (!s.readDirectCopy && s.stage == Id && s.isServer && |b| < 16)
    || (!s.readDirectCopy && s.stage == Header && |b| < 5)
  }

  lemma {:induction false} StarvedDeliversNothing(s: ReadState, b: seq<byte>)
    requires Starved(s, b)
    ensures Resume(s, b) == Decoded([], false)
  {
    assert DecodeFrames([]) == Decoded([], false);
  }

  /** One call of the decoder, with room for `room` bytes. */
  ghost predicate Unframes(s: ReadState, b: seq<byte>, room: nat,
                           s': ReadState, b': seq<byte>, put: seq<byte>, failed: bool) {
    // consumed bytes are accounted for and nothing still to be delivered changes
    && History(s, b, s', b', put)
    // exactly as much is delivered as there is, and as fits
    && put == Take(Resume(s, b).out, room)
    // an invalid command is reported once everything before it has been delivered
    && (failed <==> room > 0 && Resume(s, b).bad && |Resume(s, b).out| <= room)
    // nothing is held back while there is room
    && (|put| < room && !failed ==> Starved(s', b'))
  }

  lemma {:induction false} BadHeader(s: ReadState, b: seq<byte>)
    requires !s.readDirectCopy && s.stage == Header && |b| >= 5 && ParseCommand(b[0]).None?
    ensures Resume(s, b) == Decoded([], true)
  {
  }

  /** A reader with input and content to deliver from it. */
  lemma {:induction false} ContentHeld(s: ReadState, b: seq<byte>)
    requires b != [] && (s.readDirectCopy || (s.stage == Content && s.remainingContentLen > 0))
    ensures Resume(s, b).out != []
  {
  }

  /** The three ways a call ends: an invalid command, no room for the next byte, or no input. */
  lemma {:induction false} CallEnds(s0: ReadState, b0: seq<byte>, room: nat, s: ReadState, b: seq<byte>,
                                    put: seq<byte>, failed: bool)
    requires History(s0, b0, s, b, put) && |put| <= room
    requires failed ==> room > 0 && Resume(s, b) == Decoded([], true)
    requires !failed ==> Starved(s, b) || (|put| == room && (room == 0 || Resume(s, b).out != []))
    ensures Unframes(s0, b0, room, s, b, put, failed)
  {
    hide History, Resume;
    HistoryMeaning(s0, b0, s, b, put, []);
    assert b0 + [] == b0 && b + [] == b;
    if Starved(s, b) {
      StarvedDeliversNothing(s, b);
    }
  }

  // ---------------------------------------------------------------------------
  // Runs
  // ---------------------------------------------------------------------------

  datatype Reader = Reader(state: ReadState, buf: seq<byte>)

  /** A reader's life: bytes arrive behind those it holds, and calls are made, in any order. */
  datatype Run =
    | Begin(state: ReadState)
    | Arrive(before: Run, bytes: seq<byte>)
    | Call(before: Run, room: nat, put: seq<byte>, failed: bool, after: Reader)

  function First(run: Run): ReadState {
    match run
    case Begin(state) => state
    case Arrive(before, _) => First(before)
    case Call(before, _, _, _, _) => First(before)
  }

  function Now(run: Run): Reader {
    match run
    case Begin(state) => Reader(state, [])
    case Arrive(before, bytes) => Reader(Now(before).state, Now(before).buf + bytes)
    case Call(_, _, _, _, after) => after
  }

  /** Every call of the run does what a call does. */
  ghost predicate Happens(run: Run) {
    match run
    case Begin(_) => true
    case Arrive(before, _) => Happens(before)
    case Call(before, room, put, failed, after) =>
      Happens(before) && Unframes(Now(before).state, Now(before).buf, room, after.state, after.buf, put, failed)
  }

  function Arrived(run: Run): seq<byte> {
    match run
    case Begin(_) => []
    case Arrive(before, bytes) => Arrived(before) + bytes
    case Call(before, _, _, _, _) => Arrived(before)
  }

  function Delivered(run: Run): seq<byte> {
    match run
    case Begin(_) => []
    case Arrive(before, _) => Delivered(before)
    case Call(before, _, put, _, _) => Delivered(before) + put
  }

  /** Some call has failed. */
  predicate HasFailed(run: Run) {
    match run
    case Begin(_) => false
    case Arrive(before, _) => HasFailed(before)
    case Call(before, _, _, failed, _) => HasFailed(before) || failed
  }

  lemma {:induction false} RunHistory(run: Run)
    requires Happens(run)
    ensures History(First(run), Arrived(run), Now(run).state, Now(run).buf, Delivered(run))
  {
    hide History;
    match run
    case Begin(state) =>
      HistoryStay(state, []);
    case Arrive(before, bytes) =>
      RunHistory(before);
      HistoryArrive(First(before), Arrived(before), Now(before).state, Now(before).buf, Delivered(before), bytes);
    case Call(before, room, put, failed, after) =>
      RunHistory(before);
      HistoryCompose(First(before), Arrived(before), Now(before).state, Now(before).buf, Delivered(before),
                     after.state, after.buf, put);
  }

  lemma {:induction false} RunMeaning(run: Run, future: seq<byte>)
    requires Happens(run)
    ensures Resume(First(run), Arrived(run) + future)
         == Prepend(Delivered(run), Resume(Now(run).state, Now(run).buf + future))
    ensures Resume(First(run), Arrived(run)) == Prepend(Delivered(run), Resume(Now(run).state, Now(run).buf))
  {
    hide Resume, History, Happens, First, Arrived, Delivered;
    var r := Now(run);
    RunHistory(run);
    HistoryMeaning(First(run), Arrived(run), r.state, r.buf, Delivered(run), future);
    HistoryMeaning(First(run), Arrived(run), r.state, r.buf, Delivered(run), []);
    assert Arrived(run) + [] == Arrived(run) && r.buf + [] == r.buf;
  }

  /** The resumable decoder refines the one-shot decoder: for every interleaving of arrivals and
      calls, with any room, what was delivered followed by what is still to come is the decoding
      of the whole wire, including the wires of unknown users and wires with invalid commands. */
  lemma {:induction false} IncrementalRefinesOneShot(run: Run, ids: seq<Uuid>, isServer: bool, future: seq<byte>)
    requires Happens(run) && First(run) == ReadStart(ids, isServer)
    ensures Decode(ids, isServer, Arrived(run) + future)
         == Prepend(Delivered(run), Resume(Now(run).state, Now(run).buf + future))
    ensures Delivered(run) <= Decode(ids, isServer, Arrived(run)).out
    ensures Starved(Now(run).state, Now(run).buf) ==> Delivered(run) == Decode(ids, isServer, Arrived(run)).out
  {
    hide Decode, DecodeFrames, DecodeBody, Happens, First, Arrived, Delivered, Starved;
    RunMeaning(run, future);
    if Starved(Now(run).state, Now(run).buf) {
      StarvedDeliversNothing(Now(run).state, Now(run).buf);
    }
  }

  /** A server passes every byte of an unknown user's wire on unchanged, from the first one, and a client's
      wire too short for an id yields nothing yet. */
  lemma {:induction false} UnknownUserPassesThrough(run: Run, ids: seq<Uuid>)
    requires Happens(run) && First(run) == ReadStart(ids, true)
    ensures |Arrived(run)| < 16 ==> Delivered(run) == []
    ensures |Arrived(run)| >= 16 && Arrived(run)[..16] !in ids ==> Delivered(run) <= Arrived(run)
    ensures |Arrived(run)| >= 16 && Arrived(run)[..16] !in ids && Starved(Now(run).state, Now(run).buf)
            ==> Delivered(run) == Arrived(run)
  {
    hide Happens, Starved, Resume;
    IncrementalRefinesOneShot(run, ids, true, []);
  }

  /** A call of a run fails only on a wire with an invalid command. */
  lemma {:induction false} FailureMeansBad(run: Run, wire: seq<byte>)
    requires Happens(run) && HasFailed(run)
    requires Arrived(run) <= wire
    ensures Resume(First(run), wire).bad
  {
    hide Resume, History;
    if run.Call? && run.failed {
      var before := run.before;
      RunMeaning(before, []);
      ResumeMonotone(First(run), Arrived(run), wire[|Arrived(run)|..]);
      assert Arrived(run) + wire[|Arrived(run)|..] == wire;
    } else {
      FailureMeansBad(run.before, wire);
    }
  }

  // ---------------------------------------------------------------------------
  // Conservation
  // ---------------------------------------------------------------------------

  function CountOf(ks: seq<Kind>, k: Kind): nat {
    if ks == [] then 0 else (if ks[0] == k then 1 else 0) + CountOf(ks[1..], k)
  }

  lemma {:induction false} CountAppend(ks: seq<Kind>, ls: seq<Kind>, k: Kind)
    ensures CountOf(ks + ls, k) == CountOf(ks, k) + CountOf(ls, k)
  {
    if ks == [] {
      assert ks + ls == ls;
    } else {
      CountAppend(ks[1..], ls, k);
      assert (ks + ls)[1..] == ks[1..] + ls;
    }
  }

  lemma {:induction false} CountFill(n: nat, x: Kind, k: Kind)
    ensures CountOf(Fill(n, x), k) == if x == k then n else 0
  {
    if n > 0 {
      CountFill(n - 1, x, k);
      assert Fill(n, x)[1..] == Fill(n - 1, x);
    }
  }

  lemma {:induction false} CountAbsent(ks: seq<Kind>, k: Kind)
    requires k !in ks
    ensures CountOf(ks, k) == 0
  {
    if ks != [] {
      CountAbsent(ks[1..], k);
    }
  }

  /** Every byte has one label, and those delivered are the content and the raw ones. */
  lemma {:induction false} CountPartition(w: seq<byte>, ks: seq<Kind>)
    requires |w| == |ks|
    ensures |ks| == CountOf(ks, IdByte) + CountOf(ks, HeaderByte) + CountOf(ks, ContentByte)
                  + CountOf(ks, PaddingByte) + CountOf(ks, RawByte) + CountOf(ks, Unread)
    ensures |Select(w, ks)| == CountOf(ks, ContentByte) + CountOf(ks, RawByte)
  {
    if ks != [] {
      CountPartition(w[1..], ks[1..]);
    }
  }

  /** The number of frame headers a reader in state `s` finds in `w`. */
  function FrameCount(s: ReadState, w: seq<byte>): nat {
    if s.readDirectCopy then 0
    else match s.stage
      case Id =>
        if !s.isServer then FramesIn(w)
        else if |w| >= 16 && w[..16] in s.ids then FramesIn(w[16..])
        else 0
      case Header => FramesIn(w)
      case Content => FramesAfter(s.command, s.remainingContentLen + s.remainingPaddingLen, w)
      case Padding => FramesAfter(s.command, s.remainingPaddingLen, w)
  }

  function FramesIn(w: seq<byte>): nat
    decreases |w|, 0
  {
    if |w| < 5 || ParseCommand(w[0]).None? then 0
    else 1 + FramesAfter(ParseCommand(w[0]).value, GetU16(w[1], w[2]) + GetU16(w[3], w[4]), w[5..])
  }

  function FramesAfter(command: Command, n: nat, w: seq<byte>): nat
    decreases |w|, 1
  {
    if |w| < n || command != ContinuePadding then 0 else FramesIn(w[n..])
  }

  lemma {:induction false} HeadersInFrames(w: seq<byte>, k: Kind)
    requires k == HeaderByte || k == IdByte
    ensures CountOf(FrameLabels(w).kinds, k) == if k == HeaderByte then 5 * FramesIn(w) else 0
    decreases |w|, 0
  {
    CountFill(|w|, Unread, k);
    if |w| >= 5 && ParseCommand(w[0]).Some? {
      var command, content, padding := ParseCommand(w[0]).value, GetU16(w[1], w[2]), GetU16(w[3], w[4]);
      HeadersInBody(command, content, padding, w[5..], k);
      CountFill(5, HeaderByte, k);
      CountAppend(Fill(5, HeaderByte), BodyLabels(command, content, padding, w[5..]).kinds, k);
    }
  }

  lemma {:induction false} HeadersInBody(command: Command, content: nat, padding: nat, w: seq<byte>, k: Kind)
    requires k == HeaderByte || k == IdByte
    ensures CountOf(BodyLabels(command, content, padding, w).kinds, k)
         == if k == HeaderByte then 5 * FramesAfter(command, content + padding, w) else 0
    decreases |w|, 1
  {
    var n := Min(|w|, content);
    var m := Min(|w| - n, padding);
    CountFill(n, ContentByte, k);
    CountFill(m, PaddingByte, k);
    CountAppend(Fill(n, ContentByte), Fill(m, PaddingByte), k);
    if |w| >= content + padding {
      var rest := w[content + padding..];
      CountAppend(Fill(n, ContentByte) + Fill(m, PaddingByte), NextLabels(command, rest).kinds, k);
      if command == ContinuePadding {
        HeadersInFrames(rest, k);
      } else {
        CountFill(|rest|, RawByte, k);
      }
    }
  }

  predicate IdAhead(s: ReadState, w: seq<byte>) {
    !s.readDirectCopy && s.stage == Id && s.isServer && |w| >= 16 && w[..16] in s.ids
  }

  lemma {:induction false} LabelsCount(s: ReadState, w: seq<byte>, k: Kind)
    requires k == HeaderByte || k == IdByte
    ensures CountOf(Labels(s, w).kinds, k)
         == if k == HeaderByte then 5 * FrameCount(s, w) else if IdAhead(s, w) then 16 else 0
  {
    CountFill(|w|, RawByte, k);
    if !s.readDirectCopy {
      match s.stage
      case Id =>
        CountFill(|w|, Unread, k);
        if IdAhead(s, w) {
          CountFill(16, IdByte, k);
          HeadersInFrames(w[16..], k);
          CountAppend(Fill(16, IdByte), FrameLabels(w[16..]).kinds, k);
        } else if !s.isServer {
          HeadersInFrames(w, k);
        }
      case Header => HeadersInFrames(w, k);
      case Content => HeadersInBody(s.command, s.remainingContentLen, s.remainingPaddingLen, w, k);
      case Padding => HeadersInBody(s.command, 0, s.remainingPaddingLen, w, k);
    }
  }

  /** Over any run every consumed byte is accounted for: an id of 0 or 16 bytes, five bytes for each
      frame opened, the bytes delivered, and the dropped padding. */
  lemma {:induction false} WireConservation(run: Run)
    requires Happens(run)
    ensures var (s, w, r) := (First(run), Arrived(run), Now(run));
            var ks := Labels(s, w).kinds[..Gone(w, r.buf)];
            && |r.buf| <= |w| && r.buf == w[Gone(w, r.buf)..]
            && Delivered(run) == Select(w[..|ks|], ks)
            && CountOf(ks, IdByte) == (if IdAhead(s, w) && !IdAhead(r.state, r.buf) then 16 else 0)
            && FrameCount(r.state, r.buf) <= FrameCount(s, w)
            && |w| - |r.buf| == CountOf(ks, IdByte)
                              + 5 * (FrameCount(s, w) - FrameCount(r.state, r.buf))
                              + |Delivered(run)|
                              + CountOf(ks, PaddingByte)
  {
    RunHistory(run);
    HistoryConserves(First(run), Arrived(run), Now(run).state, Now(run).buf, Delivered(run));
  }

  lemma {:induction false} HistoryConserves(s0: ReadState, w: seq<byte>, s: ReadState, b: seq<byte>, out: seq<byte>)
    requires History(s0, w, s, b, out)
    ensures var ks := Labels(s0, w).kinds[..Gone(w, b)];
            && |b| <= |w| && b == w[Gone(w, b)..]
            && out == Select(w[..|ks|], ks)
            && CountOf(ks, IdByte) == (if IdAhead(s0, w) && !IdAhead(s, b) then 16 else 0)
            && FrameCount(s, b) <= FrameCount(s0, w)
            && |w| - |b| == CountOf(ks, IdByte) + 5 * (FrameCount(s0, w) - FrameCount(s, b)) + |out|
                          + CountOf(ks, PaddingByte)
  {
    hide Labels, Select, FrameCount, IdAhead;
    var ks, ls := Labels(s0, w).kinds[..Gone(w, b)], Labels(s, b).kinds;
    assert w + [] == w && b + [] == b;
    assert Labels(s0, w + []) == Then(ks, Labels(s, b + []));
    forall k | k == HeaderByte || k == IdByte
      ensures CountOf(Labels(s0, w).kinds, k) == CountOf(ks, k) + CountOf(ls, k)
    {
      CountAppend(ks, ls, k);
    }
    LabelsCount(s0, w, HeaderByte);
    LabelsCount(s0, w, IdByte);
    LabelsCount(s, b, HeaderByte);
    LabelsCount(s, b, IdByte);
    CountPartition(w[..|ks|], ks);
    CountAbsent(ks, Unread);
  }
}
