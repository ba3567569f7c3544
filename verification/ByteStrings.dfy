/** Bytes and big-endian numbers. */
module ByteStrings {
  type Byte = b: int | 0 <= b < 256

  type Bytes = seq<Byte>

  const WORD: nat := 0x1_0000_0000_0000_0000

  function BigEndian(v: nat, n: nat): seq<Byte> {
    if n == 0 then [] else BigEndian(v / 256, n - 1) + [v % 256]
  }

  function FromBigEndian(s: seq<Byte>): nat {
    if s == [] then 0 else 256 * FromBigEndian(s[..|s| - 1]) + s[|s| - 1]
  }

  function Power(n: nat): nat {
    if n == 0 then 1 else 256 * Power(n - 1)
  }

  lemma {:induction false} BigEndianInverse(v: nat, n: nat)
    requires v < Power(n)
    ensures |BigEndian(v, n)| == n && FromBigEndian(BigEndian(v, n)) == v
  {
    if n > 0 {
      BigEndianInverse(v / 256, n - 1);
      var s := BigEndian(v, n);
      assert s[..|s| - 1] == BigEndian(v / 256, n - 1);
    }
  }

  lemma {:induction false} NumberLength(v: nat, n: nat)
    ensures |BigEndian(v, n)| == n
  {
    if n > 0 { NumberLength(v / 256, n - 1); }
  }

  lemma EightBytes()
    ensures Power(8) == WORD
  {
    assert Power(1) == 256 && Power(2) == 65536;
    assert Power(4) == 0x1_0000_0000;
    assert Power(6) == 0x1_0000_0000_0000;
  }

  lemma PrefixSlice(a: Bytes, b: Bytes, i: nat, j: nat)
    requires a <= b && i <= j <= |a|
    ensures a[i..j] == b[i..j]
  {
    assert a == b[..|a|];
  }
}
