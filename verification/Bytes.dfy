/** Bytes, 16-bit words and the few sequence helpers every layer shares. */
module Bytes {

  type byte = x: int | 0 <= x < 0x100
  type u16 = x: int | 0 <= x < 0x1_0000

  /** The sixteen bytes of a user id. */
  type Uuid = s: seq<byte> | |s| == 16 witness seq(16, _ => 0)

  datatype Option<+T> = None | Some(value: T)

  /** The kinds of I/O error the code tells apart. */
  datatype IoError = WouldBlock | UnexpectedEof | InvalidData | WriteZero | BufferTooSmall | OtherIo

  /** What a blocking-style call returns. */
  datatype Io<+T> = Ok(value: T) | Err(error: IoError)

  /** What a poll function returns: `Failed(e)` is `Ready(Err(e))`. */
  datatype Poll<+T> = Pending | Ready(value: T) | Failed(error: IoError)

  /** What a call with a loop of its own comes to.  `Spins` says that the loop goes round without effect, and
      so does not end; `Retries` that it is still going round when one stops looking, and may yet end. */
  datatype Outcome<+T> = Done(value: T) | Waits | Spins | Retries | Fails(error: IoError) {

    /** What ends a part of a call, and so the call. */
    function PropagateFailure<U>(): Outcome<U>
      requires !Done?
    {
      match this
      case Waits => Waits
      case Spins => Spins
      case Retries => Retries
      case Fails(e) => Fails(e)
    }
  }

  /** The `as u16` cast of a length: it wraps. */
  function U16(n: nat): u16 {
    n % 0x1_0000
  }

  /** Big-endian encoding of a 16-bit word, most significant byte first. */
  function PutU16(x: u16): seq<byte> {
    [x / 0x100, x % 0x100]
  }

  function GetU16(hi: byte, lo: byte): u16 {
    hi * 0x100 + lo
  }

  lemma {:induction false} U16RoundTrip(x: u16)
    ensures GetU16(PutU16(x)[0], PutU16(x)[1]) == x
  {
  }

  lemma {:induction false} U16BytesRoundTrip(hi: byte, lo: byte)
    ensures PutU16(GetU16(hi, lo)) == [hi, lo]
  {
  }

  function Min(a: int, b: int): int {
    if a <= b then a else b
  }

  function Max(a: int, b: int): int {
    if a <= b then b else a
  }

  /** The first `n` elements, or everything when there are fewer. */
  function Take<T>(s: seq<T>, n: nat): seq<T> {
    s[..Min(n, |s|)]
  }

  function Fill<T>(n: nat, x: T): seq<T> {
    seq(n, _ => x)
  }

  lemma {:induction false} FillMore<T>(n: nat, m: nat, x: T)
    ensures Fill(n, x) + Fill(m, x) == Fill(n + m, x)
  {
  }

  lemma {:induction false} Associative<T>(a: seq<T>, b: seq<T>, c: seq<T>)
    ensures (a + b) + c == a + (b + c)
  {
  }
}
