/**
  Byte-level building blocks of the Kafka wire protocol as the broker uses
  them: big-endian fixed-width integers in two's complement (what the
  `bytes` crate's `put_i16`/`get_i16`/`put_i32`/`get_i32` write and read),
  and the unsigned varint that the protocol's compact arrays use for their
  element count.
 */
module Wire {

  type byte = x: int | 0 <= x < 0x100
  type u16 = x: int | 0 <= x < 0x1_0000
  type u32 = x: int | 0 <= x < 0x1_0000_0000
  type i16 = x: int | -0x8000 <= x < 0x8000
  type i32 = x: int | -0x8000_0000 <= x < 0x8000_0000
  /** Topic identifiers are 128-bit unsigned integers. */
  type u128 = x: int | 0 <= x < 0x1_0000_0000_0000_0000_0000_0000_0000_0000

  datatype Option<+T> = None | Some(value: T)

  /** Big-endian unsigned 16-bit encoding. */
  function U16ToBytes(u: u16): (r: seq<byte>)
    ensures |r| == 2
  {
    [u / 0x100, u % 0x100]
  }

  function BytesToU16(s: seq<byte>): (r: u16)
    requires |s| == 2
  {
    (s[0] as int) * 0x100 + s[1]
  }

  /** Big-endian unsigned 32-bit encoding: high half first. */
  function U32ToBytes(u: u32): (r: seq<byte>)
    ensures |r| == 4
  {
    U16ToBytes(u / 0x1_0000) + U16ToBytes(u % 0x1_0000)
  }

  function BytesToU32(s: seq<byte>): (r: u32)
    requires |s| == 4
  {
    BytesToU16(s[..2]) * 0x1_0000 + BytesToU16(s[2..])
  }

  /** `put_i16`: the low 16 bits of the two's complement value, big-endian. */
  function I16ToBytes(x: i16): (r: seq<byte>)
    ensures |r| == 2
  {
    U16ToBytes(x % 0x1_0000)
  }

  /** `get_i16`: two big-endian bytes read as a signed value. */
  function BytesToI16(s: seq<byte>): (r: i16)
    requires |s| == 2
  {
    var u := BytesToU16(s);
    if u < 0x8000 then u else u - 0x1_0000
  }

  /** `put_i32`: the low 32 bits of the two's complement value, big-endian. */
  function I32ToBytes(x: i32): (r: seq<byte>)
    ensures |r| == 4
  {
    U32ToBytes(x % 0x1_0000_0000)
  }

  /** `get_i32` / `i32::from_be_bytes`. */
  function BytesToI32(s: seq<byte>): (r: i32)
    requires |s| == 4
  {
    var u := BytesToU32(s);
    if u < 0x8000_0000 then u else u - 0x1_0000_0000
  }

  /** A Rust `as i32` cast of a non-negative size: keeps the low 32 bits. */
  function I32Wrap(n: nat): (r: i32)
    ensures (r - n) % 0x1_0000_0000 == 0
    ensures n < 0x8000_0000 ==> r == n
  {
    var u := n % 0x1_0000_0000;
    if u < 0x8000_0000 then u else u - 0x1_0000_0000
  }

  lemma U16RoundTrip(u: u16)
    ensures BytesToU16(U16ToBytes(u)) == u
  {
  }

  lemma BytesU16RoundTrip(s: seq<byte>)
    requires |s| == 2
    ensures U16ToBytes(BytesToU16(s)) == s
  {
    var u := BytesToU16(s);
    DivModUnique(u, 0x100, s[0], s[1]);
  }

  lemma U32RoundTrip(u: u32)
    ensures BytesToU32(U32ToBytes(u)) == u
  {
    var b := U32ToBytes(u);
    assert b[..2] == U16ToBytes(u / 0x1_0000);
    assert b[2..] == U16ToBytes(u % 0x1_0000);
    U16RoundTrip(u / 0x1_0000);
    U16RoundTrip(u % 0x1_0000);
  }

  lemma BytesU32RoundTrip(s: seq<byte>)
    requires |s| == 4
    ensures U32ToBytes(BytesToU32(s)) == s
  {
    var hi := BytesToU16(s[..2]);
    var lo := BytesToU16(s[2..]);
    DivModUnique(BytesToU32(s), 0x1_0000, hi, lo);
    BytesU16RoundTrip(s[..2]);
    BytesU16RoundTrip(s[2..]);
    calc {
      U32ToBytes(BytesToU32(s));
      U16ToBytes(hi) + U16ToBytes(lo);
      s[..2] + s[2..];
      s;
    }
  }

  /** Decoding an encoded i16 gives the value back. */
  lemma I16RoundTrip(x: i16)
    ensures BytesToI16(I16ToBytes(x)) == x
  {
    U16RoundTrip(x % 0x1_0000);
  }

  /** Every two bytes are the encoding of the i16 they decode to. */
  lemma BytesI16RoundTrip(s: seq<byte>)
    requires |s| == 2
    ensures I16ToBytes(BytesToI16(s)) == s
  {
    var u := BytesToU16(s);
    var x := BytesToI16(s);
    if u < 0x8000 {
      DivModUnique(x, 0x1_0000, 0, u);
    } else {
      DivModUnique(x, 0x1_0000, -1, u);
    }
    BytesU16RoundTrip(s);
  }

  /** Decoding an encoded i32 gives the value back. */
  lemma I32RoundTrip(x: i32)
    ensures BytesToI32(I32ToBytes(x)) == x
  {
    U32RoundTrip(x % 0x1_0000_0000);
  }

  /** Every four bytes are the encoding of the i32 they decode to. */
  lemma BytesI32RoundTrip(s: seq<byte>)
    requires |s| == 4
    ensures I32ToBytes(BytesToI32(s)) == s
  {
    var u := BytesToU32(s);
    var x := BytesToI32(s);
    if u < 0x8000_0000 {
      DivModUnique(x, 0x1_0000_0000, 0, u);
    } else {
      DivModUnique(x, 0x1_0000_0000, -1, u);
    }
    BytesU32RoundTrip(s);
  }

  /** A value below 256 is written as a zero byte and then itself. */
  lemma SmallI16Bytes(x: i16)
    requires 0 <= x < 0x100
    ensures I16ToBytes(x) == [0, x]
  {
    DivModUnique(x, 0x1_0000, 0, x);
    DivModUnique(x, 0x100, 0, x);
  }

  /** A value below 256 is written as three zero bytes and then itself. */
  lemma SmallI32Bytes(x: i32)
    requires 0 <= x < 0x100
    ensures I32ToBytes(x) == [0, 0, 0, x]
  {
    DivModUnique(x, 0x1_0000_0000, 0, x);
    DivModUnique(x, 0x1_0000, 0, x);
    DivModUnique(0, 0x100, 0, 0);
    DivModUnique(x, 0x100, 0, x);
  }

  lemma DivModUnique(x: int, d: int, q: int, r: int)
    requires 0 < d && 0 <= r < d && x == q * d + r
    ensures x / d == q && x % d == r
  {
    var q', r' := x / d, x % d;
    assert (q - q') * d == r' - r;
    if q > q' {
      MulAtLeast(q - q', d);
    } else if q < q' {
      MulAtLeast(q' - q, d);
    }
  }

  lemma MulAtLeast(a: int, d: int)
    requires 1 <= a && 0 < d
    ensures a * d >= d
  {
  }

  /**
    Unsigned varint: seven bits per byte, least significant group first,
    the high bit set on every byte but the last.
   */
  function UVarint(n: nat): (r: seq<byte>)
    ensures 1 <= |r|
    ensures r[|r| - 1] < 0x80
    ensures forall i :: 0 <= i < |r| - 1 ==> r[i] >= 0x80
    ensures n < 0x80 <==> |r| == 1
    decreases n
  {
    if n < 0x80 then [n] else [n % 0x80 + 0x80] + UVarint(n / 0x80)
  }

  /** Reads one unsigned varint; yields the value and the number of bytes used. */
  function DecodeUVarint(s: seq<byte>): (r: Option<(nat, nat)>)
    ensures r.Some? ==> 1 <= r.value.1 <= |s|
    decreases |s|
  {
    if |s| == 0 then None
    else if s[0] < 0x80 then Some((s[0], 1))
    else match DecodeUVarint(s[1..])
      case None => None
      case Some((v, k)) => Some((s[0] - 0x80 + 0x80 * v, k + 1))
  }

  /** A varint decoder reading an encoded count gets the count back and stops right after it. */
  lemma {:induction false} UVarintRoundTrip(n: nat, rest: seq<byte>)
    ensures DecodeUVarint(UVarint(n) + rest) == Some((n, |UVarint(n)|))
    decreases n
  {
    var s := UVarint(n) + rest;
    if n >= 0x80 {
      UVarintRoundTrip(n / 0x80, rest);
      assert s[1..] == UVarint(n / 0x80) + rest;
    }
  }
}
