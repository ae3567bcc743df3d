/**
 Bytes, fixed-width unsigned integers and their big-endian encodings, as Rust's
 `to_be_bytes`/`from_be_bytes` produce and read them, and the usual Option datatype.
 */
module Bytes {

  newtype byte = x: int | 0 <= x < 0x100

  type bytes = seq<byte>

  const U32_LIMIT := 0x1_0000_0000
  const U64_LIMIT := 0x1_0000_0000_0000_0000

  type u32 = x: int | 0 <= x < 0x1_0000_0000
  type u64 = x: int | 0 <= x < 0x1_0000_0000_0000_0000

  datatype Option<+T> = None | Some(value: T)

  function Max(a: int, b: int): int { if a >= b then a else b }

  function Min(a: int, b: int): int { if a <= b then a else b }

  /** Byte number k of n, counted from the least significant. */
  function Digit(n: nat, k: nat): byte
    decreases k
  {
    if k == 0 then (n % 0x100) as byte else Digit(n / 0x100, k - 1)
  }

  /** The low `width` bytes of n, most significant first. */
  function BigEndian(n: nat, width: nat): (s: bytes)
    ensures |s| == width
  {
    seq(width, i requires 0 <= i < width => Digit(n, width - 1 - i))
  }

  function FromBigEndian(s: bytes): nat {
    if s == [] then 0 else FromBigEndian(s[..|s| - 1]) * 0x100 + s[|s| - 1] as nat
  }

  /** One more than the largest number `width` bytes can hold. */
  function Capacity(width: nat): nat { if width == 0 then 1 else Capacity(width - 1) * 0x100 }

  function U32Be(n: u32): (s: bytes)
    ensures |s| == 4
  {
    BigEndian(n, 4)
  }

  function FromU32Be(s: bytes): u32
    requires |s| == 4
  {
    FromBigEndianBounded(s);
    FromBigEndian(s)
  }

  function U64Be(n: u64): (s: bytes)
    ensures |s| == 8
  {
    BigEndian(n, 8)
  }

  function FromU64Be(s: bytes): u64
    requires |s| == 8
  {
    FromBigEndianBounded(s);
    FromBigEndian(s)
  }

  lemma {:induction false} FromBigEndianBounded(s: bytes)
    ensures FromBigEndian(s) < Capacity(|s|)
    decreases |s|
  {
    if s != [] {
      FromBigEndianBounded(s[..|s| - 1]);
    }
  }

  lemma BigEndianSplit(n: nat, width: nat)
    requires width > 0
    ensures BigEndian(n, width) == BigEndian(n / 0x100, width - 1) + [(n % 0x100) as byte]
  {
    forall i | 0 <= i < width - 1
      ensures BigEndian(n, width)[i] == BigEndian(n / 0x100, width - 1)[i]
    {
      assert Digit(n, width - 1 - i) == Digit(n / 0x100, width - 2 - i);
    }
    assert BigEndian(n, width)[width - 1] == Digit(n, 0);
  }

  lemma {:induction false} BigEndianRoundTrip(n: nat, width: nat)
    requires n < Capacity(width)
    ensures FromBigEndian(BigEndian(n, width)) == n
    decreases width
  {
    if width > 0 {
      BigEndianRoundTrip(n / 0x100, width - 1);
      BigEndianSplit(n, width);
    }
  }

  lemma {:induction false} BigEndianReadBack(s: bytes)
    ensures BigEndian(FromBigEndian(s), |s|) == s
    decreases |s|
  {
    if s != [] {
      BigEndianReadBack(s[..|s| - 1]);
      BigEndianSplit(FromBigEndian(s), |s|);
    }
  }

  lemma U32RoundTrip(n: u32)
    ensures FromU32Be(U32Be(n)) == n
  {
    BigEndianRoundTrip(n, 4);
  }

  lemma U32ReadBack(s: bytes)
    requires |s| == 4
    ensures U32Be(FromU32Be(s)) == s
  {
    BigEndianReadBack(s);
  }

  lemma U64RoundTrip(n: u64)
    ensures FromU64Be(U64Be(n)) == n
  {
    BigEndianRoundTrip(n, 8);
  }

  lemma U64ReadBack(s: bytes)
    requires |s| == 8
    ensures U64Be(FromU64Be(s)) == s
  {
    BigEndianReadBack(s);
  }

  /** The encodings are big-endian: the first byte weighs most. */
  lemma MostSignificantFirst(n: u32, m: u64)
    ensures var s := U32Be(n);
            n == s[0] as int * 0x100_0000 + s[1] as int * 0x1_0000 + s[2] as int * 0x100 + s[3] as int
    ensures m == FromU32Be(U64Be(m)[..4]) * U32_LIMIT + FromU32Be(U64Be(m)[4..])
  {
    U32RoundTrip(n);
    Weights(U32Be(n));
    U64RoundTrip(m);
    Concatenated(U64Be(m)[..4], U64Be(m)[4..]);
    assert U64Be(m) == U64Be(m)[..4] + U64Be(m)[4..];
  }

  lemma Weights(s: bytes)
    requires |s| == 4
    ensures FromBigEndian(s) == s[0] as int * 0x100_0000 + s[1] as int * 0x1_0000 + s[2] as int * 0x100 + s[3] as int
  {
    assert s[..3][..2] == s[..2] && s[..2][..1] == s[..1] && s[..1][..0] == [];
    assert FromBigEndian(s[..1]) == s[0] as int;
    assert FromBigEndian(s[..2]) == s[0] as int * 0x100 + s[1] as int;
    assert FromBigEndian(s[..3]) == FromBigEndian(s[..2]) * 0x100 + s[2] as int;
  }

  lemma {:induction false} Concatenated(a: bytes, b: bytes)
    ensures FromBigEndian(a + b) == FromBigEndian(a) * Capacity(|b|) + FromBigEndian(b)
    decreases |b|
  {
    if b == [] {
      assert a + b == a;
    } else {
      var init := b[..|b| - 1];
      assert (a + b)[..|a + b| - 1] == a + init;
      Concatenated(a, init);
      assert FromBigEndian(a) * Capacity(|init|) * 0x100 == FromBigEndian(a) * Capacity(|b|);
    }
  }

  /** Distinct 64-bit numbers have distinct encodings. */
  lemma U64BeInjective(a: u64, b: u64)
    ensures U64Be(a) == U64Be(b) <==> a == b
  {
    U64RoundTrip(a);
    U64RoundTrip(b);
  }
}
