/**
 Bytes, the 64-bit length word of a frame header, and its native-endian
 encoding (`u64::to_ne_bytes` / `u64::from_ne_bytes`). The platform's byte
 order is not fixed here: every operation takes it as a parameter, so the
 results hold on little- and big-endian machines alike.
 */
module ByteOrder {

  newtype byte = x: int | 0 <= x < 256

  type Bytes = seq<byte>

  /** 2^64: one more than the largest `u64`. */
  const U64_LIMIT: nat := 0x1_0000_0000_0000_0000

  type u64 = n: nat | n < U64_LIMIT

  /** A `Vec<u8>` or `&[u8]`: its length always fits in a `u64` (64-bit `usize`). */
  type Buffer = b: Bytes | |b| < U64_LIMIT

  /** Width of an encoded `u64`. */
  const WORD_LEN: nat := 8

  datatype Endian = Little | Big

  function Pow256(k: nat): (r: nat)
    ensures r >= 1
  {
    if k == 0 then 1 else 256 * Pow256(k - 1)
  }

  lemma Pow256Word()
    ensures Pow256(WORD_LEN) == U64_LIMIT
  {
    assert Pow256(2) == 0x1_0000;
    assert Pow256(4) == 0x1_0000_0000;
    assert Pow256(6) == 0x1_0000_0000_0000;
  }

  /** The `k` least significant base-256 digits of `n`, least significant first. */
  function LeBytes(n: nat, k: nat): (r: Bytes)
    ensures |r| == k
  {
    if k == 0 then [] else [(n % 256) as byte] + LeBytes(n / 256, k - 1)
  }

  /** The number whose base-256 digits, least significant first, are `b`. */
  function FromLe(b: Bytes): (n: nat)
    ensures n < Pow256(|b|)
  {
    if |b| == 0 then 0 else b[0] as nat + 256 * FromLe(b[1..])
  }

  function Reverse(b: Bytes): (r: Bytes)
    ensures |r| == |b|
    ensures forall i :: 0 <= i < |b| ==> r[i] == b[|b| - 1 - i]
  {
    seq(|b|, i requires 0 <= i < |b| => b[|b| - 1 - i])
  }

  lemma ReverseReverse(b: Bytes)
    ensures Reverse(Reverse(b)) == b
  {
  }

  /** `u64::to_ne_bytes` for a platform of byte order `e`. */
  function ToNeBytes(e: Endian, n: u64): (r: Bytes)
    ensures |r| == WORD_LEN
  {
    match e
    case Little => LeBytes(n, WORD_LEN)
    case Big => Reverse(LeBytes(n, WORD_LEN))
  }

  /**
   `u64::from_ne_bytes` for a platform of byte order `e`: every 8-byte word
   decodes to the one length whose encoding it is.
   */
  function FromNeBytes(e: Endian, b: Bytes): (n: u64)
    requires |b| == WORD_LEN
    ensures ToNeBytes(e, n) == b
  {
    Pow256Word();
    match e
    case Little =>
      LeOfFromLe(b);
      FromLe(b)
    case Big =>
      LeOfFromLe(Reverse(b));
      ReverseReverse(b);
      FromLe(Reverse(b))
  }

  lemma {:induction false} LeRoundTrip(n: nat, k: nat)
    requires n < Pow256(k)
    ensures FromLe(LeBytes(n, k)) == n
  {
    if k > 0 {
      LeRoundTrip(n / 256, k - 1);
      assert LeBytes(n, k)[1..] == LeBytes(n / 256, k - 1);
    }
  }

  lemma {:induction false} LeOfFromLe(b: Bytes)
    ensures LeBytes(FromLe(b), |b|) == b
  {
    if |b| > 0 {
      LeOfFromLe(b[1..]);
      var n := FromLe(b);
      assert n % 256 == b[0] as nat;
      assert n / 256 == FromLe(b[1..]);
      assert b == [b[0]] + b[1..];
    }
  }

  /** Decoding an encoded length gives the length back, on either byte order. */
  lemma NeRoundTrip(e: Endian, n: u64)
    ensures FromNeBytes(e, ToNeBytes(e, n)) == n
  {
    Pow256Word();
    LeRoundTrip(n, WORD_LEN);
    ReverseReverse(LeBytes(n, WORD_LEN));
  }

  /** Distinct lengths have distinct headers. */
  lemma NeInjective(e: Endian, m: u64, n: u64)
    requires ToNeBytes(e, m) == ToNeBytes(e, n)
    ensures m == n
  {
    NeRoundTrip(e, m);
    NeRoundTrip(e, n);
  }
}
