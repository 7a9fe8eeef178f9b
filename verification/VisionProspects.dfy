/**
 What a reader will find next in the plaintext that has already arrived, chunk by chunk: enough to say
 before a call what the call delivers, and whether it fails.
 */
module VisionProspects {
  import opened Bytes
  import opened VisionReading

  /** How much plaintext is taken from the session at once. */
  const CHUNK := 4096

  /** What a reader can deliver as it stands, and what after each further chunk of plaintext. */
  function Prospects(s: ReadState, b: seq<byte>, plaintext: seq<byte>): (ds: seq<Decoded>)
    ensures ds != []
    decreases |plaintext|
  {
    if plaintext == [] then [Resume(s, b)]
    else [Resume(s, b)] + Prospects(s, b + Take(plaintext, CHUNK), plaintext[Min(CHUNK, |plaintext|)..])
  }

  /** The same after `n` bytes have been delivered. */
  function Shifted(ds: seq<Decoded>, n: nat): (shifted: seq<Decoded>)
    ensures |shifted| == |ds|
  {
    seq(|ds|, i requires 0 <= i < |ds| => ds[i].(out := ds[i].out[Min(n, |ds[i].out|)..]))
  }

  /** Neither anything to deliver nor an invalid command. */
  predicate Silent(d: Decoded) {
    d == Decoded([], false)
  }

  /** The prospects from the first one on that is not silent, which is the one that the next call acts on. */
  function Awake(ds: seq<Decoded>): (awake: seq<Decoded>)
    ensures awake != [] ==> !Silent(awake[0])
  {
    if ds == [] then [] else if Silent(ds[0]) then Awake(ds[1..]) else ds
  }

  /** A call with room finds `d`: it delivers what there is and what fits, and fails at an invalid command.
      When it fails for another reason, it delivers nothing. */
  predicate Finds(d: Decoded, room: nat, put: seq<byte>, failed: bool) {
    && put == Take(d.out, room)
    && (d.bad && |d.out| <= room ==> failed)
    && (failed && put != [] ==> d.bad && |d.out| <= room)
  }

  /** What a reader finds that has taken the part of `now` behind `was` in the meantime. */
  function Finding(s: ReadState, b: seq<byte>, was: seq<byte>, now: seq<byte>): Decoded {
    Resume(s, b + now[Min(|was|, |now|)..])
  }

  /** A call with room acts on the first prospect that is not silent, if there is one. */
  predicate Follows(was: seq<Decoded>, room: nat, found: Decoded, put: seq<byte>, failed: bool, now: seq<Decoded>) {
    var ds := Awake(was);
    ds != [] ==> found == ds[0] && (failed <==> found.bad && |found.out| <= room) && now == Shifted(ds, |put|)
  }

  lemma {:induction false} FindingNow(s: ReadState, b: seq<byte>, was: seq<byte>, now: seq<byte>)
    requires was <= now
    ensures Finding(s, b, was, now) == Resume(s, b + now[|was|..])
  {
  }

  lemma {:induction false} FollowsNow(was: seq<Decoded>, room: nat, found: Decoded, put: seq<byte>, failed: bool,
                                      now: seq<Decoded>)
    requires Awake(was) != [] ==>
               found == Awake(was)[0] && (failed <==> found.bad && |found.out| <= room)
               && now == Shifted(Awake(was), |put|)
    ensures Follows(was, room, found, put, failed, now)
  {
  }

  lemma {:induction false} FollowsFromStart(start: seq<Decoded>, was: seq<Decoded>, room: nat, found: Decoded,
                                            put: seq<byte>, failed: bool, now: seq<Decoded>)
    requires Follows(was, room, found, put, failed, now)
    requires Awake(start) != [] ==> Awake(was) == Awake(start)
    ensures Follows(start, room, found, put, failed, now)
  {
  }

  lemma {:induction false} ProspectsShift(s: ReadState, b: seq<byte>, s': ReadState, b': seq<byte>, put: seq<byte>,
                                          plaintext: seq<byte>)
    requires History(s, b, s', b', put)
    ensures Prospects(s', b', plaintext) == Shifted(Prospects(s, b, plaintext), |put|)
    decreases |plaintext|
  {
    hide History, Resume;
    HistoryMeaning(s, b, s', b', put, []);
    assert b + [] == b && b' + [] == b';
    assert Resume(s, b).out[|put|..] == Resume(s', b').out;
    if plaintext != [] {
      var chunk, rest := Take(plaintext, CHUNK), plaintext[Min(CHUNK, |plaintext|)..];
      HistoryArrive(s, b, s', b', put, chunk);
      ProspectsShift(s, b + chunk, s', b' + chunk, put, rest);
      var ds, ds' := Prospects(s, b, plaintext), Prospects(s', b', plaintext);
      assert ds[1..] == Prospects(s, b + chunk, rest) && ds'[1..] == Prospects(s', b' + chunk, rest);
      assert forall i | 0 < i < |ds| :: ds[i] == ds[1..][i - 1] && ds'[i] == ds'[1..][i - 1];
    }
  }

  lemma {:induction false} ShiftedByNothing(ds: seq<Decoded>)
    ensures Shifted(ds, 0) == ds
  {
  }

  lemma {:induction false} ProspectsNow(s: ReadState, b: seq<byte>, plaintext: seq<byte>)
    ensures plaintext != [] ==>
              Prospects(s, b, plaintext)[1..]
              == Prospects(s, b + Take(plaintext, CHUNK), plaintext[Min(CHUNK, |plaintext|)..])
  {
    hide Resume;
  }

  lemma {:induction false} AwakeNow(s: ReadState, b: seq<byte>, plaintext: seq<byte>)
    ensures var ds := Prospects(s, b, plaintext);
            && ds[0] == Resume(s, b)
            && (!Silent(ds[0]) ==> Awake(ds) == ds)
            && (Silent(ds[0]) && plaintext != [] ==> Awake(ds) == Awake(ds[1..]))
            && (Silent(ds[0]) && plaintext == [] ==> Awake(ds) == [])
  {
    hide Resume;
  }

  /** A reader that has come through `w` without delivering anything finds what there was to be found. */
  lemma {:induction false} FoundNow(s0: ReadState, w: seq<byte>, s: ReadState, b: seq<byte>)
    requires History(s0, w, s, b, [])
    ensures Resume(s0, w) == Resume(s, b)
  {
    hide Resume, History;
    HistoryMeaning(s0, w, s, b, [], []);
    assert w + [] == w && b + [] == b;
  }

  lemma {:induction false} NothingDelivered(s0: ReadState, w: seq<byte>, s: ReadState, b: seq<byte>, s': ReadState,
                                            b': seq<byte>, more: seq<byte>)
    requires History(s0, w, s, b, []) && History(s, b, s', b', [])
    ensures History(s0, w + more, s', b' + more, [])
  {
    hide History;
    HistorySilent(s0, w, s, b, [], s', b');
    HistoryArrive(s0, w, s', b', [], more);
  }
}
