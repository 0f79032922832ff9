/** Octets, optional values and the network-byte-order integers every RADIUS and EAP layer uses. */
module Octets {

  /** A u8. Arithmetic on octets is done on `int`; wrapping and truncation are always written out. */
  type byte = x: int | 0 <= x < 256

  type u32 = x: int | 0 <= x < 0x1_0000_0000

  datatype Option<+T> = None | Some(value: T)

  datatype Result<+T, +E> = Success(value: T) | Failure(error: E)

  lemma Associative<T>(a: seq<T>, b: seq<T>, c: seq<T>)
    ensures a + (b + c) == a + b + c
  {
  }

  lemma TailOfConcat<T>(a: seq<T>, b: seq<T>)
    requires a != []
    ensures (a + b)[0] == a[0] && (a + b)[1..] == a[1..] + b
  {
  }

  lemma Unconcat<T>(a: seq<T>, b: seq<T>)
    ensures (a + b)[..|a|] == a && (a + b)[|a|..] == b
  {
  }

  lemma TakeConcat<T>(a: seq<T>, b: seq<T>, n: nat)
    requires n <= |a| + |b|
    ensures (a + b)[..n] == if n <= |a| then a[..n] else a + b[..n - |a|]
  {
  }

  lemma {:induction false} SubsetSize<T>(a: set<T>, b: set<T>)
    requires a <= b
    ensures |a| <= |b|
  {
    if a != {} {
      var x :| x in a;
      SubsetSize(a - {x}, b - {x});
    }
  }

  const U16_RANGE: nat := 0x1_0000
  const U32_RANGE: nat := 0x1_0000_0000
  const U64_RANGE: nat := 0x1_0000_0000_0000_0000

  /** `u16::to_be_bytes` */
  function U16(n: nat): (s: seq<byte>)
    requires n < U16_RANGE
    ensures |s| == 2
  {
    [n / 256, n % 256]
  }

  /** `u16::from_be_bytes` */
  function FromU16(s: seq<byte>): nat
    requires |s| == 2
  {
    (s[0] as int) * 256 + s[1] as int
  }

  /** `u32::to_be_bytes` */
  function U32(n: nat): (s: seq<byte>)
    requires n < U32_RANGE
    ensures |s| == 4
  {
    U16(n / U16_RANGE) + U16(n % U16_RANGE)
  }

  /** `u32::from_be_bytes` */
  function FromU32(s: seq<byte>): nat
    requires |s| == 4
  {
    FromU16(s[..2]) * U16_RANGE + FromU16(s[2..])
  }

  /** `u64::to_be_bytes` */
  function U64(n: nat): (s: seq<byte>)
    requires n < U64_RANGE
    ensures |s| == 8
  {
    U32(n / U32_RANGE) + U32(n % U32_RANGE)
  }

  lemma U16RoundTrip(n: nat)
    requires n < U16_RANGE
    ensures FromU16(U16(n)) == n
  {
  }

  lemma U16Canonical(s: seq<byte>)
    requires |s| == 2
    ensures FromU16(s) < U16_RANGE && U16(FromU16(s)) == s
  {
  }

  lemma U32RoundTrip(n: nat)
    requires n < U32_RANGE
    ensures FromU32(U32(n)) == n
  {
    assert U32(n)[..2] == U16(n / U16_RANGE);
    assert U32(n)[2..] == U16(n % U16_RANGE);
  }

  lemma U64Injective(m: nat, n: nat)
    requires m < U64_RANGE && n < U64_RANGE
    requires U64(m) == U64(n)
    ensures m == n
  {
    assert U64(m)[..4] == U32(m / U32_RANGE) && U64(m)[4..] == U32(m % U32_RANGE);
    assert U64(n)[..4] == U32(n / U32_RANGE) && U64(n)[4..] == U32(n % U32_RANGE);
    U32RoundTrip(m / U32_RANGE);
    U32RoundTrip(n / U32_RANGE);
    U32RoundTrip(m % U32_RANGE);
    U32RoundTrip(n % U32_RANGE);
  }
}
