/** Bytes, 16-bit words and the big-endian conversions of encoding/binary. */
module Bytes {
  type byte = b: int | 0 <= b < 0x100
  type u16 = n: int | 0 <= n < 0x1_0000

  datatype Option<+T> = None | Some(value: T) {
    function GetOr(default: T): T {
      if Some? then value else default
    }
  }
  datatype Result<+T, +E> = Ok(value: T) | Err(error: E)

  /** PutUint16 after Go's truncating conversion uint16(n); Dafny's % is Go's wrap-around for negative n too. */
  function PutU16(n: int): (b: seq<byte>)
    ensures |b| == 2
  {
    [(n / 0x100) % 0x100, n % 0x100]
  }

  function GetU16(s: seq<byte>, i: nat): u16
    requires i + 2 <= |s|
  {
    s[i] as int * 0x100 + s[i + 1] as int
  }

  /** The three bytes byte(n >> 16), byte(n >> 8), byte(n). */
  function PutU24(n: int): (b: seq<byte>)
    ensures |b| == 3
  {
    [(n / 0x1_0000) % 0x100, (n / 0x100) % 0x100, n % 0x100]
  }

  function GetU24(s: seq<byte>, i: nat): nat
    requires i + 3 <= |s|
  {
    s[i] as int * 0x1_0000 + s[i + 1] as int * 0x100 + s[i + 2] as int
  }

  lemma U16RoundTrip(n: int)
    ensures GetU16(PutU16(n), 0) == n % 0x1_0000
  {
    assert n == 0x1_0000 * (n / 0x1_0000) + 0x100 * ((n / 0x100) % 0x100) + n % 0x100;
  }

  lemma DivByParts(n: int)
    ensures n / 0x100 / 0x100 == n / 0x1_0000
  {
  }

  lemma RemainderIs(n: int, q: int, r: nat)
    requires n == 0x100_0000 * q + r && r < 0x100_0000
    ensures n % 0x100_0000 == r
  {
  }

  lemma U24RoundTrip(n: int)
    ensures GetU24(PutU24(n), 0) == n % 0x100_0000
  {
    DivByParts(n);
    var q1 := n / 0x100;
    var q2 := q1 / 0x100;
    var b2, b1, b0 := q2 % 0x100, q1 % 0x100, n % 0x100;
    assert PutU24(n) == [b2, b1, b0];
    RemainderIs(n, q2 / 0x100, 0x1_0000 * b2 + 0x100 * b1 + b0);
  }

  function Sum(xs: seq<nat>): nat {
    if xs == [] then 0 else xs[0] + Sum(xs[1..])
  }

  function Flatten(xs: seq<seq<byte>>): seq<byte> {
    if xs == [] then [] else xs[0] + Flatten(xs[1..])
  }
}
