/**
 What the writer's sniffing of the TLS handshake amounts to over a run of writes, and how long
 the frames of a run are.
 */
module VisionSniffing {
  import opened Bytes
  import opened VisionReading
  import opened VisionWriting

  // ---------------------------------------------------------------------------
  // The sniffed hello
  // ---------------------------------------------------------------------------

  /** How much of a handshake is kept: 128 bytes, or the whole first write if that is longer. */
  function SniffLimit(first: seq<byte>): nat {
    Max(MAX_TLS_SNIFFING_LEN, |first|)
  }

  /** `hello` is what is kept of the consecutive writes `ws[i..j]`, the first of which starts a handshake. */
  predicate HoldsPrefix(hello: seq<byte>, ws: seq<Write>, i: nat, j: nat) {
    && i < j <= |ws|
    && IsHandshake(ws[i].content)
    && hello == Take(Written(ws[i..j]), SniffLimit(ws[i].content))
  }

  /** At all times the sniffed hello is empty, or the exact prefix of consecutive writes that began with
      a handshake record; unless raw mode has been entered, these are the latest writes. */
  lemma {:induction false} SnifferHoldsPrefix(s: WriteState, ws: seq<Write>)
    requires HasId(s) && s.hello == []
    ensures var s' := AfterAll(s, ws);
            s'.hello == [] ||
            exists i: nat, j: nat :: HoldsPrefix(s'.hello, ws, i, j) && (s'.writeDirectCopy || j == |ws|)
    decreases |ws|
  {
    hide AfterWrite, Emitted, EmitAll, HelloComplete, HelloExtended, CipherSuite, Take;
    if ws != [] {
      var n := |ws| - 1;
      var vs, w := ws[..n], ws[n];
      assert ws == vs + [w];
      SnifferHoldsPrefix(s, vs);
      RunSnoc(s, vs, w);
      var s0, s' := AfterAll(s, vs), AfterAll(s, ws);
      if s'.hello == [] {
      } else if s0.hello == [] {
        SniffStarts(s0, w);
        HoldsOne(ws, n);
        assert HoldsPrefix(s'.hello, ws, n, n + 1);
      } else {
        var i: nat, j: nat :| HoldsPrefix(s0.hello, vs, i, j) && (s0.writeDirectCopy || j == |vs|);
        if s0.writeDirectCopy {
          assert vs[i..j] == ws[i..j];
          assert HoldsPrefix(s'.hello, ws, i, j);
        } else {
          SniffContinues(s0, w);
          HoldsMore(s0.hello, vs, i, w);
          assert HoldsPrefix(s'.hello, ws, i, n + 1);
        }
      }
    }
  }

  lemma {:induction false} HoldsOne(ws: seq<Write>, n: nat)
    requires n < |ws| && IsHandshake(ws[n].content)
    ensures HoldsPrefix(ws[n].content, ws, n, n + 1)
  {
    assert ws[n..n + 1] == [ws[n]];
    assert Written([ws[n]]) == ws[n].content + Written([]) == ws[n].content;
  }

  lemma {:induction false} HoldsMore(hello: seq<byte>, vs: seq<Write>, i: nat, w: Write)
    requires HoldsPrefix(hello, vs, i, |vs|)
    ensures HoldsPrefix(hello + Take(w.content, Max(0, MAX_TLS_SNIFFING_LEN - |hello|)), vs + [w], i, |vs| + 1)
  {
    var ws := vs + [w];
    assert ws[i..|ws|] == vs[i..] + [w] && vs[i..|vs|] == vs[i..];
    WrittenAppend(vs[i..], [w]);
    assert Written([w]) == w.content + Written([]) == w.content;
    KeepExtends(Written(vs[i..]), w.content, |vs[i].content|);
  }

  lemma {:induction false} SniffStarts(s: WriteState, w: Write)
    requires s.hello == [] && AfterWrite(s, w).hello != []
    ensures IsHandshake(w.content) && AfterWrite(s, w).hello == w.content
  {
  }

  lemma {:induction false} SniffContinues(s: WriteState, w: Write)
    requires !s.writeDirectCopy && s.hello != []
    ensures var hello := HelloExtended(s.hello, w.content);
            && hello == s.hello + Take(w.content, Max(0, MAX_TLS_SNIFFING_LEN - |s.hello|))
            && AfterWrite(s, w).hello == (if HelloComplete(hello) then [] else hello)
            && (HelloComplete(hello) ==>
                  AfterWrite(s, w).canStartDirectCopy == (CipherSuite(hello) != TLS_AES_128_CCM_8_SHA256))
            && (!HelloComplete(hello) ==> AfterWrite(s, w).canStartDirectCopy == s.canStartDirectCopy)
  {
  }

  /** Topping a kept prefix up to 128 bytes keeps the prefix of the longer text. */
  lemma {:induction false} KeepExtends(text: seq<byte>, more: seq<byte>, first: nat)
    requires first <= |text|
    ensures var limit := Max(MAX_TLS_SNIFFING_LEN, first);
            var kept := Take(text, limit);
            kept + Take(more, Max(0, MAX_TLS_SNIFFING_LEN - |kept|)) == Take(text + more, limit)
  {
  }

  // ---------------------------------------------------------------------------
  // When the sniffer decides
  // ---------------------------------------------------------------------------

  /** A hello held since its first write. */
  predicate HoldsFirst(s: WriteState, first: seq<byte>) {
    HasId(s) && !s.writeDirectCopy && s.hello == first && IsHandshake(first)
  }

  /** What the sniffer has kept after the handshake write `first` and the writes `ws`. */
  function Kept(first: seq<byte>, ws: seq<Write>): seq<byte> {
    Take(first + Written(ws), SniffLimit(first))
  }

  predicate StaysFramed(s: WriteState, ws: seq<Write>) {
    forall k | 0 <= k < |ws| :: !AfterAll(s, ws[..k]).writeDirectCopy
  }

  /** Until what is kept covers the cipher suite, the sniffer only accumulates. */
  lemma {:induction false} SnifferWaits(s: WriteState, first: seq<byte>, ws: seq<Write>)
    requires HoldsFirst(s, first) && StaysFramed(s, ws)
    requires forall k | 0 < k <= |ws| :: !HelloComplete(Kept(first, ws[..k]))
    ensures AfterAll(s, ws).hello == Kept(first, ws)
    ensures AfterAll(s, ws).canStartDirectCopy == s.canStartDirectCopy
    decreases |ws|
  {
    if ws == [] {
      assert Kept(first, []) == first;
    } else {
      var n := |ws| - 1;
      var vs, w := ws[..n], ws[n];
      assert ws == vs + [w] && ws[..n + 1] == ws;
      assert forall k | 0 <= k <= n :: ws[..k] == vs[..k];
      SnifferWaits(s, first, vs);
      SnifferStep(s, first, vs, w);
      assert !HelloComplete(Kept(first, ws[..n + 1]));
    }
  }

  lemma {:induction false} SnifferStep(s: WriteState, first: seq<byte>, vs: seq<Write>, w: Write)
    requires HasId(s) && IsHandshake(first)
    requires AfterAll(s, vs).hello == Kept(first, vs) && !AfterAll(s, vs).writeDirectCopy
    ensures var s', kept := AfterAll(s, vs + [w]), Kept(first, vs + [w]);
            && s'.hello == (if HelloComplete(kept) then [] else kept)
            && s'.canStartDirectCopy == (if HelloComplete(kept) then CipherSuite(kept) != TLS_AES_128_CCM_8_SHA256
                                         else AfterAll(s, vs).canStartDirectCopy)
  {
    hide AfterAll, AfterWrite, EmitAll, Emitted, HelloComplete, CipherSuite, IsHandshake, Take;
    RunSnoc(s, vs, w);
    assert Kept(first, vs) != [] by { KeptNonempty(first, vs); }
    SniffContinues(AfterAll(s, vs), w);
    KeepExtends(first + Written(vs), w.content, |first|);
    Associative(first, Written(vs), w.content);
  }

  lemma {:induction false} KeptNonempty(first: seq<byte>, ws: seq<Write>)
    requires IsHandshake(first)
    ensures Kept(first, ws) != []
  {
  }

  lemma {:induction false} KeptSessionId(first: seq<byte>, ws: seq<Write>)
    requires |first| >= 44
    ensures 44 <= |Kept(first, ws)| <= SniffLimit(first)
    ensures SessionIdLen(Kept(first, ws)) == SessionIdLen(first)
  {
  }

  /** Keeping more never uncovers a cipher suite that was covered. */
  lemma {:induction false} KeptGrows(first: seq<byte>, ws: seq<Write>, k: nat)
    requires k <= |ws| && HelloComplete(Kept(first, ws[..k]))
    ensures HelloComplete(Kept(first, ws))
  {
    WrittenAppend(ws[..k], ws[k..]);
    assert ws[..k] + ws[k..] == ws;
    Associative(first, Written(ws[..k]), Written(ws[k..]));
    assert Kept(first, ws[..k]) <= Kept(first, ws);
  }

  /** The sniffer is resolved during a run of framed writes exactly if what it may keep of them covers
      the session id and the cipher suite, and then by the first write with which it does. */
  lemma {:induction false} SnifferResolution(s: WriteState, first: seq<byte>, ws: seq<Write>)
    requires HoldsFirst(s, first) && StaysFramed(s, ws) && ws != []
    ensures HelloComplete(Kept(first, ws)) <==> exists k :: ResolvedAt(s, first, ws, k)
    ensures !HelloComplete(Kept(first, ws)) ==> forall k | 0 <= k <= |ws| :: AfterAll(s, ws[..k]).hello != []
  {
    if HelloComplete(Kept(first, ws)) {
      var k := FirstComplete(first, ws);
      var vs, w := ws[..k - 1], ws[k - 1];
      assert ws[..k] == vs + [w];
      assert forall i | 0 <= i <= k - 1 :: vs[..i] == ws[..i];
      SnifferWaits(s, first, vs);
      SnifferStep(s, first, vs, w);
      assert ResolvedAt(s, first, ws, k);
    } else {
      forall k | 0 <= k <= |ws| ensures !HelloComplete(Kept(first, ws[..k])) {
        if HelloComplete(Kept(first, ws[..k])) {
          KeptGrows(first, ws, k);
        }
      }
      forall k | 0 <= k <= |ws| ensures AfterAll(s, ws[..k]).hello != [] {
        assert forall i | 0 <= i <= k :: ws[..k][..i] == ws[..i];
        SnifferWaits(s, first, ws[..k]);
      }
    }
  }

  /** The `k`-th write is the first that covers the cipher suite; it drops the hello and decides by it. */
  ghost predicate ResolvedAt(s: WriteState, first: seq<byte>, ws: seq<Write>, k: nat) {
    && 0 < k <= |ws|
    && HelloComplete(Kept(first, ws[..k]))
    && (forall i | 0 < i < k :: !HelloComplete(Kept(first, ws[..i])))
    && AfterAll(s, ws[..k]).hello == []
    && AfterAll(s, ws[..k]).canStartDirectCopy == (CipherSuite(Kept(first, ws[..k])) != TLS_AES_128_CCM_8_SHA256)
  }

  lemma {:induction false} FirstComplete(first: seq<byte>, ws: seq<Write>) returns (k: nat)
    requires ws != [] && HelloComplete(Kept(first, ws))
    ensures 0 < k <= |ws| && HelloComplete(Kept(first, ws[..k]))
    ensures forall i | 0 < i < k :: !HelloComplete(Kept(first, ws[..i]))
    decreases |ws|
  {
    k := 1;
    assert ws[..|ws|] == ws;
    while !HelloComplete(Kept(first, ws[..k]))
      invariant 0 < k <= |ws|
      invariant forall i | 0 < i < k :: !HelloComplete(Kept(first, ws[..i]))
      decreases |ws| - k
    {
      k := k + 1;
    }
  }

  /** With a session id of at most 32 bytes, a total of 79 bytes is enough. */
  lemma {:induction false} ShortSessionIdResolves(s: WriteState, first: seq<byte>, ws: seq<Write>)
    requires HoldsFirst(s, first) && StaysFramed(s, ws) && ws != []
    requires var text := first + Written(ws); |text| >= 79 && text[43] <= 32
    ensures exists k :: ResolvedAt(s, first, ws, k)
  {
    SnifferResolution(s, first, ws);
    assert Kept(first, ws)[43] == (first + Written(ws))[43];
  }

  /** What is kept of a hello says how long its session id is, as soon as it covers 44 bytes. */
  lemma {:induction false} KeptSameId(first: seq<byte>, vs: seq<Write>, ws: seq<Write>)
    requires |Kept(first, vs)| >= 44
    ensures 44 <= |Kept(first, vs + ws)| <= SniffLimit(first)
    ensures SessionIdLen(Kept(first, vs + ws)) == SessionIdLen(Kept(first, vs))
  {
    WrittenAppend(vs, ws);
    Associative(first, Written(vs), Written(ws));
  }

  /** Once the writes `vs` behind the first have brought a hello to 44 bytes, some continuation resolves it if
      and only if its session id leaves room for the cipher suite within what is kept: an id longer than
      81 bytes behind a first write of at most 128 bytes leaves the sniffer undecided for good. */
  lemma {:induction false} ResolvableIff(s: WriteState, first: seq<byte>, vs: seq<Write>)
    requires HoldsFirst(s, first) && StaysFramed(s, vs) && !AfterAll(s, vs).writeDirectCopy
    requires |Kept(first, vs)| >= 44
    ensures (exists ws, k :: StaysFramed(s, vs + ws) && ResolvedAt(s, first, vs + ws, k))
        <==> 47 + SessionIdLen(Kept(first, vs)) <= SniffLimit(first)
  {
    hide AfterAll, Kept, HoldsFirst;
    forall ws, k | StaysFramed(s, vs + ws) && ResolvedAt(s, first, vs + ws, k)
      ensures 47 + SessionIdLen(Kept(first, vs)) <= SniffLimit(first)
    {
      KeptGrows(first, vs + ws, k);
      KeptSameId(first, vs, ws);
    }
    if 47 + SessionIdLen(Kept(first, vs)) <= SniffLimit(first) {
      var w := Write(Fill(SniffLimit(first), 0), 0);
      KeptSameId(first, vs, [w]);
      assert |Kept(first, vs + [w])| == SniffLimit(first) by { KeptFull(first, vs, w); }
      forall k | 0 <= k < |vs + [w]| ensures !AfterAll(s, (vs + [w])[..k]).writeDirectCopy {
        assert k < |vs| ==> (vs + [w])[..k] == vs[..k];
        assert k == |vs| ==> (vs + [w])[..k] == vs;
      }
      assert StaysFramed(s, vs + [w]);
      SnifferResolution(s, first, vs + [w]);
    }
  }

  lemma {:induction false} KeptFull(first: seq<byte>, vs: seq<Write>, w: Write)
    requires |w.content| >= SniffLimit(first)
    ensures |Kept(first, vs + [w])| == SniffLimit(first)
  {
    WrittenAppend(vs, [w]);
    assert Written([w]) == w.content + Written([]) == w.content;
  }

  /** A first write of 44 bytes that announces a session id of 82 bytes: no run of framed writes behind it
      ever resolves the sniffer or changes its decision. */
  lemma {:induction false} LongSessionIdExample(s: WriteState, ws: seq<Write>)
    requires HoldsFirst(s, LONG_ID_HELLO) && StaysFramed(s, ws) && ws != []
    ensures forall k | 0 <= k <= |ws| :: AfterAll(s, ws[..k]).hello != []
    ensures AfterAll(s, ws).canStartDirectCopy == s.canStartDirectCopy
  {
    forall k | 0 <= k <= |ws| ensures !HelloComplete(Kept(LONG_ID_HELLO, ws[..k])) {
      KeptSessionId(LONG_ID_HELLO, ws[..k]);
    }
    assert ws[..|ws|] == ws;
    SnifferResolution(s, LONG_ID_HELLO, ws);
    SnifferWaits(s, LONG_ID_HELLO, ws);
  }

  const LONG_ID_HELLO: seq<byte> := [0x16, 0x03, 0x01, 0, 0, 1] + Fill(37, 0) + [82]

  // ---------------------------------------------------------------------------
  // Frame sizes
  // ---------------------------------------------------------------------------

  /** A short write is padded up to the drawn length, provided the 16-bit sum does not wrap. */
  lemma {:induction false} ShortFrameSize(p: PaddingConfig, n: nat, draw: u16)
    requires n <= p.longThreshold
    ensures n + PaddingLen(p, n, draw) == Max(n, draw + p.longBase) <==> draw + p.longBase < 0x1_0000
  {
  }

  /** A base of 65535 and a draw of 1 wrap to 0: the write is not padded at all. */
  lemma {:induction false} WrappingDrawExample()
    ensures PaddingLen(PaddingConfig(0, 0, 900, 0xFFFF, 0, 1), 100, 1) == 0
  {
  }

  /** All draws of a run come from the configured ranges. */
  predicate DrawsInRange(p: PaddingConfig, ws: seq<Write>) {
    forall i | 0 <= i < |ws| :: DrawInRange(p, |ws[i].content|, ws[i].draw)
  }

  /** The sum of a draw and the base stays within 16 bits. */
  predicate NoWrap(p: PaddingConfig) {
    p.longHi + p.longBase < 0x1_0000
  }

  /** The least a frame takes. */
  function LeastFrame(p: PaddingConfig): nat {
    5 + Min(p.longBase + p.longLo, p.longThreshold + 1 + p.paddingLo)
  }

  /** The most a frame adds to its content. */
  function MostOverhead(p: PaddingConfig): nat {
    5 + Max(p.longBase + p.longHi, p.paddingHi)
  }

  lemma {:induction false} FrameSize(s: WriteState, w: Write)
    requires HasId(s) && !s.writeDirectCopy && NoWrap(s.padding) && DrawInRange(s.padding, |w.content|, w.draw)
    ensures var id := if SendsId(s) then 16 else 0;
            && id + LeastFrame(s.padding) <= |Emitted(s, w)|
            && |Emitted(s, w)| <= id + MostOverhead(s.padding) + |w.content|
            && (|w.content| <= s.padding.longThreshold ==>
                  |Emitted(s, w)| == id + 5 + Max(|w.content|, w.draw + s.padding.longBase))
            && (|w.content| > s.padding.longThreshold ==> |Emitted(s, w)| == id + 5 + |w.content| + w.draw)
  {
    if |w.content| <= s.padding.longThreshold {
      ShortFrameSize(s.padding, |w.content|, w.draw);
    }
  }

  /** The least and the most that a write of `n` bytes may emit, over all draws. */
  function LeastEmitted(s: WriteState, n: nat): nat {
    if s.writeDirectCopy then n
    else EmittedAround(s, n, s.padding.longLo, s.padding.paddingLo)
  }

  function MostEmitted(s: WriteState, n: nat): nat {
    if s.writeDirectCopy then n
    else EmittedAround(s, n, s.padding.longHi, s.padding.paddingHi)
  }

  function EmittedAround(s: WriteState, n: nat, short: u16, long: u16): nat {
    (if SendsId(s) then 16 else 0)
    + 5 + if n <= s.padding.longThreshold then Max(n, short + s.padding.longBase) else n + long
  }

  /** Every write emits between the least and the most for its length, and some write of that length either. */
  lemma {:induction false} EmittedRange(s: WriteState, w: Write)
    requires HasId(s)
    ensures NoWrap(s.padding) || s.writeDirectCopy ==>
              && (DrawInRange(s.padding, |w.content|, w.draw) ==>
                    LeastEmitted(s, |w.content|) <= |Emitted(s, w)| <= MostEmitted(s, |w.content|))
              && (CanDraw(s.padding) ==>
                    && (exists draw: u16 :: DrawInRange(s.padding, |w.content|, draw)
                                            && |Emitted(s, w.(draw := draw))| == LeastEmitted(s, |w.content|))
                    && (exists draw: u16 :: DrawInRange(s.padding, |w.content|, draw)
                                            && |Emitted(s, w.(draw := draw))| == MostEmitted(s, |w.content|)))
  {
    var p, n := s.padding, |w.content|;
    var lo, hi := if n <= p.longThreshold then p.longLo else p.paddingLo,
                  if n <= p.longThreshold then p.longHi else p.paddingHi;
    forall draw: u16 | (NoWrap(p) && DrawInRange(p, n, draw)) || s.writeDirectCopy
      ensures LeastEmitted(s, n) <= |Emitted(s, w.(draw := draw))| <= MostEmitted(s, n)
      ensures draw == lo ==> |Emitted(s, w.(draw := draw))| == LeastEmitted(s, n)
      ensures draw == hi ==> |Emitted(s, w.(draw := draw))| == MostEmitted(s, n)
    {
      if !s.writeDirectCopy {
        FrameSize(s, w.(draw := draw));
      }
    }
    assert w.(draw := w.draw) == w;
    if CanDraw(p) {
      assert DrawInRange(p, n, lo) && DrawInRange(p, n, hi);
    }
  }

  /** Bounds on the wire of any run: what is written plus at most the id and the overhead of each frame,
      and at least the least frame for each write before raw mode. */
  lemma {:induction false} WireSize(s: WriteState, ws: seq<Write>)
    requires HasId(s) && NoWrap(s.padding) && DrawsInRange(s.padding, ws)
    ensures |Written(ws)| <= |EmitAll(s, ws)|
    ensures |EmitAll(s, ws)| <= |Written(ws)| + (if SendsId(s) then 16 else 0) + |ws| * MostOverhead(s.padding)
    ensures !s.writeDirectCopy ==> ContinueWrites(s, ws) * LeastFrame(s.padding) <= |EmitAll(s, ws)|
  {
    WireAtMost(s, ws);
    if !s.writeDirectCopy {
      WireAtLeast(s, ws);
    }
  }

  lemma {:induction false} WireAtMost(s: WriteState, ws: seq<Write>)
    requires HasId(s) && NoWrap(s.padding) && DrawsInRange(s.padding, ws)
    ensures |Written(ws)| <= |EmitAll(s, ws)|
    ensures |EmitAll(s, ws)| <= |Written(ws)| + (if SendsId(s) then 16 else 0) + |ws| * MostOverhead(s.padding)
    decreases |ws|
  {
    hide Emitted, MostOverhead, AfterWrite, DrawInRange;
    if ws != [] {
      var s', rest, most := AfterWrite(s, ws[0]), ws[1..], MostOverhead(s.padding);
      assert DrawInRange(s.padding, |ws[0].content|, ws[0].draw);
      assert DrawsInRange(s.padding, rest);
      WireAtMost(s', rest);
      OneMore(|rest|, most);
      assert |ws| * most == |rest| * most + most;
      EmittedAtMost(s, ws[0]);
    }
  }

  lemma {:induction false} EmittedAtMost(s: WriteState, w: Write)
    requires HasId(s) && NoWrap(s.padding) && DrawInRange(s.padding, |w.content|, w.draw)
    ensures |w.content| <= |Emitted(s, w)|
    ensures |Emitted(s, w)| <= |w.content| + MostOverhead(s.padding)
                               + (if SendsId(s) && !s.writeDirectCopy then 16 else 0)
  {
    if !s.writeDirectCopy {
      FrameSize(s, w);
    }
  }

  lemma {:induction false} WireAtLeast(s: WriteState, ws: seq<Write>)
    requires HasId(s) && !s.writeDirectCopy && NoWrap(s.padding) && DrawsInRange(s.padding, ws)
    ensures ContinueWrites(s, ws) * LeastFrame(s.padding) <= |EmitAll(s, ws)|
    decreases |ws|
  {
    hide Emitted, LeastFrame, StartsDirectCopy, DrawInRange, AfterWrite;
    if ws != [] && !StartsDirectCopy(s, ws[0].content) {
      var s', rest := AfterWrite(s, ws[0]), ws[1..];
      assert DrawInRange(s.padding, |ws[0].content|, ws[0].draw);
      WireAtLeast(s', rest);
      FrameSize(s, ws[0]);
      OneMore(ContinueWrites(s', rest), LeastFrame(s.padding));
    } else {
      assert ContinueWrites(s, ws) == 0;
    }
  }

  lemma {:induction false} OneMore(n: nat, x: nat)
    ensures (n + 1) * x == n * x + x && n * x >= 0
  {
  }

  /** With the default padding, a framed write of at most 900 bytes takes 500 to 1000 bytes behind its
      header, and a longer one at most 256 bytes more than its content. */
  lemma {:induction false} DefaultFrameSize(s: WriteState, w: Write)
    requires HasId(s) && !s.writeDirectCopy && !SendsId(s)
    requires s.padding == DEFAULT_PADDING && DrawInRange(s.padding, |w.content|, w.draw)
    ensures |w.content| <= 900 ==> 500 <= |Emitted(s, w)| - 5 <= 1000
    ensures |w.content| > 900 ==> |w.content| <= |Emitted(s, w)| - 5 <= |w.content| + 256
  {
    FrameSize(s, w);
  }
}
