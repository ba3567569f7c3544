/** CRC-32C, bit by bit, and why it sees every single-byte change (section 12.1 of RFC 3720). */
module Crc32c {
  type Octets = seq<bv8>

  /** One bit: shift, and fold in the reversed polynomial when a one falls out. */
  function Bit(c: bv32): bv32 {
    (c >> 1) ^ (0x82F6_3B78 & (0 - (c & 1)))
  }

  function Bits(c: bv32, n: nat): bv32
    decreases n
  {
    if n == 0 then c else Bits(Bit(c), n - 1)
  }

  const BITS_PER_BYTE: nat := 8

  function Mix(c: bv32, b: bv8): bv32 {
    c ^ (b as bv32)
  }

  function Feed(c: bv32, b: bv8): bv32 {
    Bits(Mix(c, b), BITS_PER_BYTE)
  }

  /** The register after the whole input. */
  function Run(c: bv32, data: Octets): bv32
    decreases |data|
  {
    if data == [] then c else Run(Feed(c, data[0]), data[1..])
  }

  function Crc(data: Octets): bv32 {
    Run(0xFFFF_FFFF, data) ^ 0xFFFF_FFFF
  }

  method Compute(data: Octets) returns (crc: bv32)
    ensures crc == Crc(data)
  {
    hide Feed;
    crc := 0xFFFF_FFFF;
    assert data[0..] == data;
    for i := 0 to |data|
      invariant Run(crc, data[i..]) == Run(0xFFFF_FFFF, data)
    {
      assert data[i..][0] == data[i] && data[i..][1..] == data[i + 1..];
      crc := FeedByte(crc, data[i]);
    }
    assert data[|data|..] == [];
    crc := crc ^ 0xFFFF_FFFF;
  }

  method FeedByte(c: bv32, b: bv8) returns (crc: bv32)
    ensures crc == Feed(c, b)
  {
    hide Mix, Bit;
    crc := Mix(c, b);
    for bit := 0 to BITS_PER_BYTE
      invariant Bits(crc, BITS_PER_BYTE - bit) == Feed(c, b)
    {
      crc := Bit(crc);
    }
  }

  /** The polynomial has its top bit set, so the bit that falls out can be read off the result. */
  lemma BitInjective(a: bv32, b: bv32)
    requires a != b
    ensures Bit(a) != Bit(b)
  {
    assert (a & 1 == b & 1) ==> (a >> 1) != (b >> 1);
  }

  lemma {:induction false} BitsInjective(a: bv32, b: bv32, n: nat)
    requires a != b
    ensures Bits(a, n) != Bits(b, n)
    decreases n
  {
    hide Bit;
    if n > 0 {
      BitInjective(a, b);
      BitsInjective(Bit(a), Bit(b), n - 1);
    }
  }

  lemma FeedInjective(a: bv32, b: bv32, x: bv8, y: bv8)
    requires (a == b && x != y) || (a != b && x == y)
    ensures Feed(a, x) != Feed(b, y)
  {
    hide Bits, Mix;
    MixDiffers(a, b, x, y);
    BitsInjective(Mix(a, x), Mix(b, y), BITS_PER_BYTE);
  }

  lemma MixDiffers(a: bv32, b: bv32, x: bv8, y: bv8)
    requires (a == b && x != y) || (a != b && x == y)
    ensures Mix(a, x) != Mix(b, y)
  {
    hide Mix;
    MixBack(a, x);
    MixBack(b, y);
    if a == b { Widens(x, y); }
  }

  /** Mixing can be undone from either side. */
  lemma MixBack(a: bv32, x: bv8)
    ensures Mix(a, x) ^ a == x as bv32 && Mix(a, x) ^ (x as bv32) == a
  {
    XorBack(a, x as bv32);
  }

  lemma XorBack(a: bv32, x: bv32)
    ensures (a ^ x) ^ a == x && (a ^ x) ^ x == a
  {
  }

  lemma Widens(x: bv8, y: bv8)
    requires x != y
    ensures x as bv32 != y as bv32
  {
  }

  /** Different registers stay different over equal input. */
  lemma {:induction false} RunInjective(a: bv32, b: bv32, data: Octets)
    requires a != b
    ensures Run(a, data) != Run(b, data)
    decreases |data|
  {
    hide Feed;
    if data != [] {
      FeedInjective(a, b, data[0], data[0]);
      RunInjective(Feed(a, data[0]), Feed(b, data[0]), data[1..]);
    }
  }

  lemma {:induction false} RunConcat(c: bv32, p: Octets, s: Octets)
    ensures Run(c, p + s) == Run(Run(c, p), s)
    decreases |p|
  {
    hide Feed;
    if p == [] {
      assert p + s == s;
    } else {
      assert (p + s)[1..] == p[1..] + s;
      RunConcat(Feed(c, p[0]), p[1..], s);
    }
  }

  /** Inputs of any equal length that differ in exactly one byte have different checksums. */
  lemma OneByteChanges(data: Octets, i: nat, b: bv8)
    requires i < |data| && data[i] != b
    ensures Crc(data[i := b]) != Crc(data)
  {
    hide Feed;
    var p, s := data[..i], data[i + 1..];
    assert data == p + ([data[i]] + s) && data[i := b] == p + ([b] + s);
    RunConcat(0xFFFF_FFFF, p, [data[i]] + s);
    RunConcat(0xFFFF_FFFF, p, [b] + s);
    var c := Run(0xFFFF_FFFF, p);
    assert ([data[i]] + s)[1..] == s && ([b] + s)[1..] == s;
    FeedInjective(c, c, data[i], b);
    RunInjective(Feed(c, data[i]), Feed(c, b), s);
    FlipKeeps(Run(0xFFFF_FFFF, data), Run(0xFFFF_FFFF, data[i := b]));
  }

  lemma FlipKeeps(a: bv32, b: bv32)
    requires a != b
    ensures a ^ 0xFFFF_FFFF != b ^ 0xFFFF_FFFF
  {
  }
}
