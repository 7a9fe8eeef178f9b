/**
 Reader and writer enter raw mode at the same place: the writer's raw bytes begin at one offset of the
 wire, and the reader is in raw mode when it is past that offset, and only from there on.
 */
module VisionSync {
  import opened Bytes
  import opened VisionReading
  import opened VisionWriting

  /** The writes that are framed: those up to and including the one that announces raw mode. */
  function FramedWrites(s: WriteState, ws: seq<Write>): (n: nat)
    ensures n <= |ws|
  {
    Min(|ws|, ContinueWrites(s, ws) + 1)
  }

  /** Where on the wire the writer's raw bytes begin. */
  function RawOffset(s: WriteState, ws: seq<Write>): nat
    requires HasId(s)
  {
    |EmitAll(s, ws[..FramedWrites(s, ws)])|
  }

  lemma {:induction false} RawKinds(s: WriteState, ws: seq<Write>)
    requires HasId(s) && s.writeDirectCopy
    ensures EmitKinds(s, ws) == Fill(|EmitAll(s, ws)|, RawByte)
    decreases |ws|
  {
    if ws != [] {
      RawKinds(s, ws[1..]);
      FillMore(|ws[0].content|, |EmitAll(s, ws[1..])|, RawByte);
    }
  }

  lemma {:induction false} FramedKinds(s: WriteState, w: Write)
    requires HasId(s) && !s.writeDirectCopy && |w.content| < 0x1_0000
    ensures |EmittedKinds(s, w)| == |Emitted(s, w)| && RawByte !in EmittedKinds(s, w)
  {
    SelectEmittedOne(s, w);
  }

  lemma {:induction false} RawOffsetUnfolds(s: WriteState, ws: seq<Write>)
    requires HasId(s) && !s.writeDirectCopy && ws != []
    ensures var s' := AfterWrite(s, ws[0]);
            RawOffset(s, ws) == |Emitted(s, ws[0])| + (if s'.writeDirectCopy then 0 else RawOffset(s', ws[1..]))
  {
    hide Emitted, StartsDirectCopy, AfterWrite;
    var s', n := AfterWrite(s, ws[0]), FramedWrites(s, ws);
    assert ws[..n][0] == ws[0] && ws[..n][1..] == ws[1..][..n - 1];
    assert EmitAll(s, ws[..n]) == Emitted(s, ws[0]) + EmitAll(s', ws[..n][1..]);
    if s'.writeDirectCopy {
      assert n == 1 && ws[..n][1..] == [];
      NothingEmitted(s');
    } else {
      assert FramedWrites(s', ws[1..]) == n - 1;
    }
  }

  /** The writer means exactly the bytes from that offset on to be raw. */
  lemma {:induction false} RawFromOffset(s: WriteState, ws: seq<Write>)
    requires HasId(s) && !s.writeDirectCopy && Fits(ws)
    ensures RawOffset(s, ws) <= |EmitAll(s, ws)| == |EmitKinds(s, ws)|
    ensures forall i | 0 <= i < |EmitKinds(s, ws)| :: EmitKinds(s, ws)[i] == RawByte <==> RawOffset(s, ws) <= i
    decreases |ws|
  {
    hide Emitted, EmittedKinds, StartsDirectCopy, AfterWrite, ContinueWrites, RawOffset;
    if ws == [] {
      NoRawOffset(s);
    } else {
      var s', rest := AfterWrite(s, ws[0]), ws[1..];
      FramedKinds(s, ws[0]);
      RawOffsetUnfolds(s, ws);
      if s'.writeDirectCopy {
        RawKinds(s', rest);
      } else {
        RawFromOffset(s', rest);
      }
    }
  }

  lemma {:induction false} NoRawOffset(s: WriteState)
    requires HasId(s)
    ensures RawOffset(s, []) == 0 && EmitAll(s, []) == [] && EmitKinds(s, []) == []
  {
  }

  /** Before raw mode is announced, all of a run is framed. */
  lemma {:induction false} NotAnnounced(s: WriteState, ws: seq<Write>)
    requires HasId(s) && !s.writeDirectCopy && !AfterAll(s, ws).writeDirectCopy
    ensures RawOffset(s, ws) == |EmitAll(s, ws)|
  {
    hide EmitAll, StartsDirectCopy;
    WireGrammar(s, ws);
    assert ws[..|ws|] == ws;
  }

  /** A reader is in raw mode only if the writer has announced it: otherwise one more, framed write could
      follow, whose header the reader would have to take as raw. */
  lemma {:induction false} RawModeAnnounced(s: WriteState, ws: seq<Write>, run: Run)
    requires Happens(run) && Paired(s, First(run)) && Fits(ws)
    requires Arrived(run) <= EmitAll(s, ws) && Now(run).state.readDirectCopy
    ensures AfterAll(s, ws).writeDirectCopy
  {
    hide EmitAll, EmitKinds, RawOffset, Happens, Arrived, Delivered, First, Now, Labels, History, StartsDirectCopy;
    if !AfterAll(s, ws).writeDirectCopy {
      var w := Write([], 0);
      var more := ws + [w];
      hide AfterWrite, Emitted;
      RunSnoc(s, ws, w);
      EmptyWriteIsFramed(AfterAll(s, ws));
      assert Fits(more);
      SameReading(s, more, First(run));
      RawFromOffset(s, more);
      NotAnnounced(s, more);
      var so, wire := Arrived(run), EmitAll(s, more);
      assert so + wire[|so|..] == wire;
      RunHistory(run);
      RawModeLabels(First(run), so, Now(run).state, Now(run).buf, Delivered(run), wire[|so|..]);
    }
  }

  lemma {:induction false} EmptyWriteIsFramed(s: WriteState)
    requires HasId(s) && !s.writeDirectCopy
    ensures !AfterWrite(s, Write([], 0)).writeDirectCopy && |Emitted(s, Write([], 0))| >= 5
  {
  }

  /** At every point of every run, a reader in raw mode has consumed all of the writer's frames, of which the
      last has announced raw mode, and one that has consumed any of the writer's raw bytes is in raw mode. */
  lemma {:induction false} DirectCopyInSync(s: WriteState, ws: seq<Write>, run: Run)
    requires Happens(run) && Paired(s, First(run)) && Fits(ws)
    requires Arrived(run) <= EmitAll(s, ws)
    ensures var consumed := Gone(Arrived(run), Now(run).buf);
            && (Now(run).state.readDirectCopy ==>
                  RawOffset(s, ws) <= consumed && AfterAll(s, ws).writeDirectCopy)
            && (RawOffset(s, ws) < consumed ==> Now(run).state.readDirectCopy)
  {
    hide EmitAll, EmitKinds, RawOffset, Happens, Arrived, Delivered, First, Now, Labels, History;
    var so, wire := Arrived(run), EmitAll(s, ws);
    var future := wire[|so|..];
    RunHistory(run);
    SameReading(s, ws, First(run));
    RawFromOffset(s, ws);
    assert so + future == wire;
    RawModeLabels(First(run), so, Now(run).state, Now(run).buf, Delivered(run), future);
    if Now(run).state.readDirectCopy {
      RawModeAnnounced(s, ws, run);
    }
  }

  /** In terms of one reader: what the labels of the wire say about its mode. */
  lemma {:induction false} RawModeLabels(s0: ReadState, w: seq<byte>, s: ReadState, b: seq<byte>, out: seq<byte>,
                                         future: seq<byte>)
    requires History(s0, w, s, b, out)
    ensures var (n, kinds) := (Gone(w, b), Labels(s0, w + future).kinds);
            && (s.readDirectCopy && n < |kinds| ==> kinds[n] == RawByte)
            && (n > 0 && kinds[n - 1] == RawByte ==> s.readDirectCopy)
  {
    hide Select;
    var n, ks := Gone(w, b), Labels(s0, w).kinds[..Gone(w, b)];
    assert Labels(s0, w + future) == Then(ks, Labels(s, b + future));
    var kinds := Labels(s0, w + future).kinds;
    assert n > 0 ==> kinds[n - 1] == ks[n - 1] && ks[n - 1] in ks;
    assert n < |kinds| ==> kinds[n] == Labels(s, b + future).kinds[0];
  }
}
