/**
 Well-formed UTF-8 (table 3-7 of the Unicode Standard) and lossy decoding, which replaces each maximal
 ill-formed part by U+FFFD, as the standard library's `from_utf8_lossy` does.
 */
module Utf8 {
  import opened Bytes

  predicate Continues(b: byte) {
    0x80 <= b <= 0xBF
  }

  /** The bytes that may follow a lead byte. */
  predicate SecondByte(lead: byte, b: byte) {
    if lead == 0xE0 then 0xA0 <= b <= 0xBF
    else if lead == 0xED then 0x80 <= b <= 0x9F
    else if lead == 0xF0 then 0x90 <= b <= 0xBF
    else if lead == 0xF4 then 0x80 <= b <= 0x8F
    else Continues(b)
  }

  /** How long a character starting with `lead` is; 0 if none does. */
  function LengthByLead(lead: byte): nat {
    if lead <= 0x7F then 1
    else if 0xC2 <= lead <= 0xDF then 2
    else if 0xE0 <= lead <= 0xEF then 3
    else if 0xF0 <= lead <= 0xF4 then 4
    else 0
  }

  /** The length of the longest part at the front of `s` that could begin a character. */
  function PartLen(s: seq<byte>): (n: nat)
    requires s != []
    ensures 1 <= n <= |s| && n <= 4
  {
    var len := LengthByLead(s[0]);
    if len <= 1 || |s| < 2 || !SecondByte(s[0], s[1]) then 1
    else if len == 2 || |s| < 3 || !Continues(s[2]) then 2
    else if len == 3 || |s| < 4 || !Continues(s[3]) then 3
    else 4
  }

  /** A whole character is at the front of `s`. */
  predicate StartsWithChar(s: seq<byte>) {
    s != [] && PartLen(s) == LengthByLead(s[0])
  }

  predicate Valid(s: seq<byte>) {
    s == [] || (StartsWithChar(s) && Valid(s[PartLen(s)..]))
  }

  const REPLACEMENT: seq<byte> := [0xEF, 0xBF, 0xBD]

  function Lossy(s: seq<byte>): seq<byte> {
    if s == [] then []
    else (if StartsWithChar(s) then s[..PartLen(s)] else REPLACEMENT) + Lossy(s[PartLen(s)..])
  }

  /** What comes behind a character does not matter to it. */
  lemma {:induction false} CharAlone(c: seq<byte>, rest: seq<byte>)
    requires StartsWithChar(c) && PartLen(c) == |c|
    ensures StartsWithChar(c + rest) && PartLen(c + rest) == |c|
  {
  }

  lemma {:induction false} CharAtFront(s: seq<byte>)
    requires StartsWithChar(s)
    ensures StartsWithChar(s[..PartLen(s)]) && PartLen(s[..PartLen(s)]) == PartLen(s)
  {
  }

  /** Lossy decoding always yields well-formed text. */
  lemma {:induction false} LossyIsValid(s: seq<byte>)
    ensures Valid(Lossy(s))
  {
    if s != [] {
      var n := PartLen(s);
      var c := if StartsWithChar(s) then s[..n] else REPLACEMENT;
      var rest := Lossy(s[n..]);
      LossyIsValid(s[n..]);
      if StartsWithChar(s) {
        CharAtFront(s);
      }
      CharAlone(c, rest);
      assert (c + rest)[|c|..] == rest;
    }
  }

  lemma {:induction false} LossyKeepsValid(s: seq<byte>)
    requires Valid(s)
    ensures Lossy(s) == s
  {
    if s != [] {
      LossyKeepsValid(s[PartLen(s)..]);
      assert s == s[..PartLen(s)] + s[PartLen(s)..];
    }
  }

  /** Lossy decoding changes exactly the ill-formed inputs. */
  lemma {:induction false} LossyIffValid(s: seq<byte>)
    ensures Lossy(s) == s <==> Valid(s)
  {
    LossyIsValid(s);
    if Valid(s) {
      LossyKeepsValid(s);
    }
  }

  lemma {:induction false} AsciiIsValid(s: seq<byte>)
    requires forall i | 0 <= i < |s| :: s[i] <= 0x7F
    ensures Valid(s)
  {
    if s != [] {
      AsciiIsValid(s[1..]);
    }
  }

  // ---------------------------------------------------------------------------
  // Scalar values and their encodings
  // ---------------------------------------------------------------------------

  /** The code points that are not surrogates. */
  predicate IsScalar(c: nat) {
    c < 0xD800 || 0xE000 <= c < 0x11_0000
  }

  /** The bits of a scalar value, six to a continuation byte (table 3-6 of the Unicode Standard). */
  function Encode(c: nat): (s: seq<byte>)
    requires IsScalar(c)
    ensures 1 <= |s| <= 4
  {
    if c < 0x80 then [c]
    else if c < 0x800 then [0xC0 + c / 64, 0x80 + c % 64]
    else if c < 0x1_0000 then [0xE0 + c / 4096, 0x80 + c / 64 % 64, 0x80 + c % 64]
    else [0xF0 + c / 26_2144, 0x80 + c / 4096 % 64, 0x80 + c / 64 % 64, 0x80 + c % 64]
  }

  function EncodeAll(cs: seq<nat>): seq<byte>
    requires forall i | 0 <= i < |cs| :: IsScalar(cs[i])
  {
    if cs == [] then [] else Encode(cs[0]) + EncodeAll(cs[1..])
  }

  lemma {:induction false} EncodedIsChar(c: nat)
    requires IsScalar(c)
    ensures StartsWithChar(Encode(c)) && PartLen(Encode(c)) == |Encode(c)|
  {
  }

  /** The bits that a continuation byte contributes. */
  function Low(b: byte): nat
    requires Continues(b)
  {
    b - 0x80
  }

  /** A character is the encoding of some scalar value. */
  lemma {:induction false} CharIsEncoded(s: seq<byte>) returns (c: nat)
    requires StartsWithChar(s)
    ensures IsScalar(c) && Encode(c) == s[..PartLen(s)]
  {
    var n := PartLen(s);
    if n == 1 {
      c := s[0];
    } else if n == 2 {
      c := (s[0] - 0xC0) * 64 + Low(s[1]);
      SplitLow(s[0] - 0xC0, Low(s[1]));
    } else if n == 3 {
      var high := (s[0] - 0xE0) * 64 + Low(s[1]);
      c := high * 64 + Low(s[2]);
      SplitLow(s[0] - 0xE0, Low(s[1]));
      SplitLow(high, Low(s[2]));
      assert c / 4096 == c / 64 / 64;
    } else {
      c := FourBytes(s[0], s[1], s[2], s[3]);
      assert s[..4] == [s[0], s[1], s[2], s[3]];
    }
  }

  lemma {:induction false} FourBytes(b0: byte, b1: byte, b2: byte, b3: byte) returns (c: nat)
    requires 0xF0 <= b0 <= 0xF4 && SecondByte(b0, b1) && Continues(b2) && Continues(b3)
    ensures IsScalar(c) && Encode(c) == [b0, b1, b2, b3]
  {
    var top := (b0 - 0xF0) * 64 + Low(b1);
    var high := top * 64 + Low(b2);
    c := high * 64 + Low(b3);
    SplitLow(b0 - 0xF0, Low(b1));
    SplitLow(top, Low(b2));
    SplitLow(high, Low(b3));
    assert c / 4096 == c / 64 / 64 && c / 26_2144 == c / 64 / 64 / 64;
  }

  lemma {:induction false} SplitLow(high: nat, low: nat)
    requires low < 64
    ensures (high * 64 + low) / 64 == high && (high * 64 + low) % 64 == low
  {
  }

  /** Well-formed text is exactly what encodes some scalar values. */
  lemma {:induction false} ValidIffEncoded(s: seq<byte>)
    ensures Valid(s) <==> exists cs: seq<nat> :: (forall i | 0 <= i < |cs| :: IsScalar(cs[i])) && s == EncodeAll(cs)
  {
    if Valid(s) {
      var cs := ScalarsOf(s);
    }
    forall cs: seq<nat> | (forall i | 0 <= i < |cs| :: IsScalar(cs[i])) && s == EncodeAll(cs) ensures Valid(s) {
      EncodedIsValid(cs);
    }
  }

  lemma {:induction false} EncodedIsValid(cs: seq<nat>)
    requires forall i | 0 <= i < |cs| :: IsScalar(cs[i])
    ensures Valid(EncodeAll(cs))
  {
    hide Encode, PartLen;
    if cs != [] {
      var c, rest := Encode(cs[0]), EncodeAll(cs[1..]);
      EncodedIsValid(cs[1..]);
      EncodedIsChar(cs[0]);
      CharAlone(c, rest);
      assert (c + rest)[|c|..] == rest;
    }
  }

  lemma {:induction false} ScalarsOf(s: seq<byte>) returns (cs: seq<nat>)
    requires Valid(s)
    ensures (forall i | 0 <= i < |cs| :: IsScalar(cs[i])) && s == EncodeAll(cs)
  {
    hide Encode, PartLen;
    if s == [] {
      cs := [];
    } else {
      var n := PartLen(s);
      var c := CharIsEncoded(s);
      var rest := ScalarsOf(s[n..]);
      cs := [c] + rest;
      assert cs[1..] == rest && s == s[..n] + s[n..];
    }
  }

  /** Some character begins with `p`. */
  ghost predicate BeginsChar(p: seq<byte>) {
    exists c: nat :: IsScalar(c) && p <= Encode(c)
  }

  /** What is replaced as one is the longest part that some character begins with, or else one byte. */
  lemma {:induction false} ReplacedPart(s: seq<byte>)
    requires s != [] && !StartsWithChar(s)
    ensures Lossy(s) == [0xEF, 0xBF, 0xBD] + Lossy(s[PartLen(s)..])
    ensures PartLen(s) == 1 || BeginsChar(s[..PartLen(s)])
    ensures forall k | PartLen(s) < k <= |s| :: !BeginsChar(s[..k])
  {
    hide Encode, Lossy, PartLen;
    if PartLen(s) > 1 {
      var whole := Completed(s);
      var c := CharIsEncoded(whole);
    }
    forall k | PartLen(s) < k <= |s| ensures !BeginsChar(s[..k]) {
      if BeginsChar(s[..k]) {
        var c: nat :| IsScalar(c) && s[..k] <= Encode(c);
        EncodedIsChar(c);
        PartDecidedBy(s, Encode(c), k);
      }
    }
    assert Lossy(s) == REPLACEMENT + Lossy(s[PartLen(s)..]) by { LossyPart(s); }
  }

  lemma {:induction false} LossyPart(s: seq<byte>)
    requires s != []
    ensures Lossy(s) == (if StartsWithChar(s) then s[..PartLen(s)] else [0xEF, 0xBF, 0xBD]) + Lossy(s[PartLen(s)..])
  {
  }

  lemma {:induction false} Completed(s: seq<byte>) returns (whole: seq<byte>)
    requires s != [] && PartLen(s) > 1
    ensures StartsWithChar(whole) && s[..PartLen(s)] <= whole[..PartLen(whole)]
  {
    var p, len := s[..PartLen(s)], LengthByLead(s[0]);
    whole := p + seq(len - |p|, _ => 0x80);
  }

  lemma {:induction false} PartDecidedBy(s: seq<byte>, t: seq<byte>, k: nat)
    requires s != [] && PartLen(s) < k <= |s| && s[..k] <= t
    ensures PartLen(t) == PartLen(s)
  {
    assert forall i | 0 <= i < k :: s[i] == s[..k][i] == t[i];
  }
}
