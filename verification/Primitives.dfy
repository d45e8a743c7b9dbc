/**
 Machine integers, addresses and hashes, and the fixed-width byte encodings
 that the store, the trie and the payload are built from.
 */
module Primitives {

  const TWO_32: int := 0x1_0000_0000
  const TWO_64: int := 0x1_0000_0000_0000_0000
  const TWO_128: int := 0x1_0000_0000_0000_0000_0000_0000_0000_0000
  const TWO_160: int := 0x1_0000_0000_0000_0000_0000_0000_0000_0000_0000_0000
  const TWO_256: int := 0x1_0000_0000_0000_0000_0000_0000_0000_0000_0000_0000_0000_0000_0000_0000_0000_0000

  const U64_BYTES: nat := 8
  const ADDRESS_BYTES: nat := 20
  const WORD_BYTES: nat := 32

  type Byte = x: int | 0 <= x < 256
  type Bytes = seq<Byte>

  /** A 32-byte word, as the store keeps balances, hashes and slots. */
  type Word = s: Bytes | |s| == 32 witness seq(32, _ => 0)

  type U64 = x: int | 0 <= x < TWO_64
  type U128 = x: int | 0 <= x < TWO_128
  type U256 = x: int | 0 <= x < TWO_256

  /** A transaction nonce; EIP-2681 keeps it below 2^64 - 1, so its successor is still a u64. */
  type Nonce = x: int | 0 <= x < TWO_64 - 1

  type Address = x: int | 0 <= x < TWO_160
  type Hash = U256

  datatype Option<+T> = None | Some(value: T)

  /** A mark naming a moment of a run, so that a proof unfolds only the steps it asks for. */
  predicate At(i: int) {
    true
  }

  function Min(a: int, b: int): int {
    if a <= b then a else b
  }

  function Max(a: int, b: int): int {
    if a <= b then b else a
  }

  /** `saturating_sub` on any unsigned width. */
  function SatSub(a: nat, b: nat): nat {
    if a < b then 0 else a - b
  }

  /** `saturating_add` on u64. */
  function SatAdd64(a: U64, b: U64): U64 {
    if a + b < TWO_64 then a + b else TWO_64 - 1
  }

  /** `saturating_add` on 256-bit words. */
  function SatAdd256(a: U256, b: U256): U256 {
    if a + b < TWO_256 then a + b else TWO_256 - 1
  }

  /** Two's complement addition on u64, as an optimised build performs it. */
  function WrapAdd64(a: U64, b: U64): U64 {
    if a + b < TWO_64 then a + b else a + b - TWO_64
  }

  lemma WrapIsExact(a: U64, b: U64)
    requires a + b < TWO_64
    ensures WrapAdd64(a, b) == a + b
  {
  }

  /** The remainder of `x` modulo 2^64. */
  function Wrapped(x: nat): U64 {
    if x < TWO_64 then x else Wrapped(x - TWO_64)
  }

  lemma {:induction false} WrappedIsRemainder(x: nat)
    ensures Wrapped(x) == x % TWO_64
    decreases x
  {
    if x >= TWO_64 {
      WrappedIsRemainder(x - TWO_64);
    }
  }

  /** Wrapping after every addition is wrapping the sum once. */
  lemma {:induction false} WrapIsSum(a: nat, b: U64)
    ensures WrapAdd64(Wrapped(a), b) == Wrapped(a + b)
    decreases a
  {
    if a >= TWO_64 {
      WrapIsSum(a - TWO_64, b);
    }
  }

  // ----- Big-endian words -----

  function Pow256(n: nat): nat {
    if n == 0 then 1 else 256 * Pow256(n - 1)
  }

  /** The low `n` bytes of `v`, most significant first. */
  function BeBytes(n: nat, v: nat): (s: Bytes)
    ensures |s| == n
  {
    if n == 0 then [] else BeBytes(n - 1, v / 256) + [v % 256]
  }

  function FromBe(s: Bytes): nat {
    if s == [] then 0 else 256 * FromBe(s[..|s| - 1]) + s[|s| - 1]
  }

  lemma {:induction false} BeRoundTrip(n: nat, v: nat)
    requires v < Pow256(n)
    ensures FromBe(BeBytes(n, v)) == v
  {
    if n == 0 {
    } else {
      var s := BeBytes(n, v);
      assert s[..|s| - 1] == BeBytes(n - 1, v / 256);
      BeRoundTrip(n - 1, v / 256);
    }
  }

  lemma {:induction false} FromBeBound(s: Bytes)
    ensures FromBe(s) < Pow256(|s|)
  {
    if s == [] {
    } else {
      FromBeBound(s[..|s| - 1]);
    }
  }

  lemma WordWidths()
    ensures Pow256(U64_BYTES) == TWO_64 && Pow256(ADDRESS_BYTES) == TWO_160 && Pow256(WORD_BYTES) == TWO_256
  {
    assert Pow256(8) == TWO_64;
    assert Pow256(20) == TWO_160;
    assert Pow256(32) == TWO_256;
  }

  function AddressBytes(a: Address): (s: Bytes)
    ensures |s| == 20
  {
    BeBytes(ADDRESS_BYTES, a)
  }

  function U64Bytes(v: U64): (s: Bytes)
    ensures |s| == 8
  {
    BeBytes(U64_BYTES, v)
  }

  function WordBytes(v: U256): (s: Bytes)
    ensures |s| == 32
  {
    BeBytes(WORD_BYTES, v)
  }

  function ToWord(v: U256): Word {
    WordBytes(v)
  }

  /** `Address::from_slice` on exactly 20 bytes. */
  function AddressFrom(s: Bytes): Address
    requires |s| == 20
  {
    FromBeBound(s); WordWidths();
    FromBe(s)
  }

  /** `U256::from_be_slice` on exactly 32 bytes. */
  function WordFrom(s: Bytes): U256
    requires |s| == 32
  {
    FromBeBound(s); WordWidths();
    FromBe(s)
  }

  lemma AddressRoundTrip(a: Address)
    ensures AddressFrom(AddressBytes(a)) == a
  {
    WordWidths();
    BeRoundTrip(ADDRESS_BYTES, a);
  }

  lemma WordRoundTrip(v: U256)
    ensures WordFrom(WordBytes(v)) == v
  {
    WordWidths();
    BeRoundTrip(WORD_BYTES, v);
  }

  /** The least significant byte comes last, in every width. */
  lemma LastByteIsLeast(w: U256, v: U64, a: Address)
    ensures WordBytes(w)[31] == w % 256 && U64Bytes(v)[7] == v % 256 && AddressBytes(a)[19] == a % 256
  {
    assert WORD_BYTES == 32 && U64_BYTES == 8 && ADDRESS_BYTES == 20;
  }

  lemma U64RoundTrip(v: U64)
    ensures FromBe(U64Bytes(v)) == v
  {
    WordWidths();
    BeRoundTrip(U64_BYTES, v);
  }

  // ----- Little-endian u32, the payload's length prefix -----

  function Le32(v: int): (s: Bytes)
    requires 0 <= v < TWO_32
    ensures |s| == 4
  {
    [v % 256, v / 256 % 256, v / 65536 % 256, v / 16777216]
  }

  function FromLe32(s: Bytes): (v: nat)
    requires |s| == 4
    ensures v < TWO_32
  {
    var a: int, b: int, c: int, d: int := s[0], s[1], s[2], s[3];
    a + 256 * b + 65536 * c + 16777216 * d
  }

  lemma Le32RoundTrip(v: int)
    requires 0 <= v < TWO_32
    ensures FromLe32(Le32(v)) == v
  {
    var a, b, c := v / 256, v / 65536, v / 16777216;
    assert b == a / 256;
    assert c == b / 256;
  }

  /** The least significant byte comes first. */
  lemma Le32IsLittleEndian(v: int)
    requires 0 <= v < TWO_32
    ensures var s := Le32(v);
            var a: int, b: int, c: int, d: int := s[0], s[1], s[2], s[3];
            a + 256 * b + 65_536 * c + 16_777_216 * d == v
  {
    Le32RoundTrip(v);
  }
}
