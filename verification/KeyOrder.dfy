/** The order of encoded keys, its embedding into the reals, and what the encodings preserve. */
module KeyOrder {
  import opened ByteStrings

  datatype Kind = Bool | UInt64 | Int64 | String | Bytes

  datatype Key = Key(kind: Kind, data: seq<Byte>)

  function Rank(k: Kind): nat {
    match k
    case Bool => 0
    case UInt64 => 1
    case Int64 => 2
    case String => 3
    case Bytes => 4
  }

  /** Lexicographic order on unsigned bytes; a proper prefix comes first. */
  predicate LessBytes(a: seq<Byte>, b: seq<Byte>) {
    b != [] && (a == [] || a[0] < b[0] || (a[0] == b[0] && LessBytes(a[1..], b[1..])))
  }

  predicate Less(a: Key, b: Key) {
    Rank(a.kind) < Rank(b.kind) || (a.kind == b.kind && LessBytes(a.data, b.data))
  }

  // ---------------------------------------------------------------- the comparison loop

  lemma {:induction false} LessAfter(a: seq<Byte>, b: seq<Byte>, i: nat)
    requires i <= |a| && i <= |b| && a[..i] == b[..i]
    ensures LessBytes(a, b) <==> LessBytes(a[i..], b[i..])
    ensures a == b <==> a[i..] == b[i..]
  {
    if i == 0 {
      assert a[0..] == a && b[0..] == b;
    } else {
      assert a[0] == a[..i][0] && b[0] == b[..i][0];
      assert a[1..][..i - 1] == a[..i][1..] && b[1..][..i - 1] == b[..i][1..];
      LessAfter(a[1..], b[1..], i - 1);
      assert a[1..][i - 1..] == a[i..] && b[1..][i - 1..] == b[i..];
      assert a == [a[0]] + a[1..] && b == [b[0]] + b[1..];
    }
  }

  /** Negative, zero or positive as a is below, equal to or above b. */
  method CompareBytes(a: seq<Byte>, b: seq<Byte>) returns (r: int)
    ensures r < 0 <==> LessBytes(a, b)
    ensures r == 0 <==> a == b
    ensures r > 0 <==> LessBytes(b, a)
  {
    Total(a, b);
    var n := if |a| < |b| then |a| else |b|;
    for i := 0 to n
      invariant a[..i] == b[..i]
    {
      LessAfter(a, b, i);
      LessAfter(b, a, i);
      if a[i] < b[i] { return -1; }
      if a[i] > b[i] { return 1; }
      assert a[..i + 1] == a[..i] + [a[i]] && b[..i + 1] == b[..i] + [b[i]];
    }
    LessAfter(a, b, n);
    LessAfter(b, a, n);
    return if |a| < |b| then -1 else if |a| > |b| then 1 else 0;
  }

  method Compare(a: Key, b: Key) returns (r: int)
    ensures r < 0 <==> Less(a, b)
    ensures r == 0 <==> a == b
    ensures r > 0 <==> Less(b, a)
  {
    SameRank(a.kind, b.kind);
    if a.kind != b.kind { return if Rank(a.kind) < Rank(b.kind) then -1 else 1; }
    r := CompareBytes(a.data, b.data);
  }

  lemma SameRank(a: Kind, b: Kind)
    ensures Rank(a) == Rank(b) ==> a == b
  {
  }

  lemma {:induction false} Total(a: seq<Byte>, b: seq<Byte>)
    ensures LessBytes(a, b) || a == b || LessBytes(b, a)
    ensures !(LessBytes(a, b) && LessBytes(b, a)) && !LessBytes(a, a)
  {
    if a != [] && b != [] {
      assert a == [a[0]] + a[1..] && b == [b[0]] + b[1..];
      Total(a[1..], b[1..]);
    }
    if a != [] { Total(a[1..], a[1..]); }
  }

  // ---------------------------------------------------------------- into the reals

  /** A byte string as a fraction in base 257, digit b standing for b + 1. */
  function Fraction(s: seq<Byte>): real {
    if s == [] then 0.0 else (s[0] as real + 1.0 + Fraction(s[1..])) / 257.0
  }

  function Embed(k: Key): real {
    Rank(k.kind) as real + Fraction(k.data)
  }

  lemma {:induction false} FractionRange(s: seq<Byte>)
    ensures 0.0 <= Fraction(s) < 1.0
    ensures s != [] ==> Fraction(s) > 0.0
  {
    if s != [] { FractionRange(s[1..]); }
  }

  lemma {:induction false} FractionOrder(a: seq<Byte>, b: seq<Byte>)
    requires LessBytes(a, b)
    ensures Fraction(a) < Fraction(b)
  {
    FractionRange(b);
    if a != [] {
      FractionRange(a[1..]);
      FractionRange(b[1..]);
      if a[0] < b[0] {
        assert a[0] as real + 1.0 <= b[0] as real;
      } else {
        FractionOrder(a[1..], b[1..]);
      }
    }
  }

  /** The embedding keeps and reflects the order, so a tree that only compares keys behaves the same on both. */
  lemma EmbedOrder(a: Key, b: Key)
    ensures Less(a, b) <==> Embed(a) < Embed(b)
    ensures a == b <==> Embed(a) == Embed(b)
  {
    FractionRange(a.data);
    FractionRange(b.data);
    SameRank(a.kind, b.kind);
    Total(a.data, b.data);
    if Rank(a.kind) < Rank(b.kind) {
      assert Rank(a.kind) as real + 1.0 <= Rank(b.kind) as real;
    } else if Rank(b.kind) < Rank(a.kind) {
      assert Rank(b.kind) as real + 1.0 <= Rank(a.kind) as real;
    } else if LessBytes(a.data, b.data) {
      FractionOrder(a.data, b.data);
    } else if LessBytes(b.data, a.data) {
      FractionOrder(b.data, a.data);
    }
  }

  // ---------------------------------------------------------------- numbers

  const BIAS: nat := 0x8000_0000_0000_0000

  lemma {:induction false} LessThen(a: seq<Byte>, b: seq<Byte>, x: seq<Byte>, y: seq<Byte>)
    requires |a| == |b|
    ensures LessBytes(a, b) ==> LessBytes(a + x, b + y)
    ensures a == b ==> (LessBytes(a + x, b + y) <==> LessBytes(x, y))
  {
    if a == [] {
      assert a + x == x && b + y == y;
    } else {
      assert (a + x)[1..] == a[1..] + x && (b + y)[1..] == b[1..] + y;
      assert a == [a[0]] + a[1..] && b == [b[0]] + b[1..];
      LessThen(a[1..], b[1..], x, y);
    }
  }

  lemma QuotientFits(v: nat, n: nat)
    requires n > 0 && v < Power(n)
    ensures v / 256 < Power(n - 1)
  {
  }

  lemma QuotientOrder(v: nat, w: nat)
    requires v < w
    ensures v / 256 < w / 256 || (v / 256 == w / 256 && v % 256 < w % 256)
  {
  }

  lemma OneByteLess(a: Byte, b: Byte)
    requires a < b
    ensures LessBytes([a], [b])
  {
  }

  /** Big-endian bytes of equal length sort like the numbers they stand for. */
  lemma {:induction false} BigEndianOrder(v: nat, w: nat, n: nat)
    requires v < w < Power(n)
    ensures |BigEndian(v, n)| == |BigEndian(w, n)| && LessBytes(BigEndian(v, n), BigEndian(w, n))
  {
    hide LessBytes;
    if n > 0 {
      var p, q := v / 256, w / 256;
      var x: seq<Byte>, y: seq<Byte> := [v % 256], [w % 256];
      QuotientOrder(v, w);
      QuotientFits(w, n);
      NumberLength(p, n - 1);
      NumberLength(q, n - 1);
      LessThen(BigEndian(p, n - 1), BigEndian(q, n - 1), x, y);
      if p < q { BigEndianOrder(p, q, n - 1); } else { OneByteLess(v % 256, w % 256); }
    }
  }

  function MakeUInt64(v: nat): Key
    requires v < WORD
  {
    Key(UInt64, BigEndian(v, 8))
  }

  /** The sign bit is flipped, which adds 2^63 to the signed value. */
  function MakeInt64(v: int): Key
    requires -(BIAS as int) <= v < BIAS
  {
    Key(Int64, BigEndian(v + BIAS, 8))
  }

  /** Flipping the top bit of a 64-bit word is adding 2^63 modulo 2^64. */
  lemma FlipIsAdd(x: bv64)
    ensures x ^ 0x8000_0000_0000_0000 == x + 0x8000_0000_0000_0000
  {
  }

  lemma UInt64Order(v: nat, w: nat)
    requires v < WORD && w < WORD
    ensures v < w <==> Less(MakeUInt64(v), MakeUInt64(w))
    ensures FromBigEndian(MakeUInt64(v).data) == v
  {
    EightBytes();
    BigEndianInverse(v, 8);
    BigEndianInverse(w, 8);
    Total(BigEndian(v, 8), BigEndian(w, 8));
    if v < w { BigEndianOrder(v, w, 8); } else if w < v { BigEndianOrder(w, v, 8); }
  }

  /** Signed keys sort like signed numbers, and decoding gives the number back. */
  lemma Int64Order(v: int, w: int)
    requires -(BIAS as int) <= v < BIAS && -(BIAS as int) <= w < BIAS
    ensures v < w <==> Less(MakeInt64(v), MakeInt64(w))
    ensures FromBigEndian(MakeInt64(v).data) as int - BIAS == v
  {
    UInt64Order(v + BIAS, w + BIAS);
  }

  // ---------------------------------------------------------------- prefixes

  predicate HasPrefix(k: Key, p: Key) {
    k.kind == p.kind && p.data <= k.data
  }

  /** Keys with a given prefix start at the prefix itself. */
  lemma {:induction false} PrefixFirst(p: seq<Byte>, s: seq<Byte>)
    requires p <= s
    ensures p == s || LessBytes(p, s)
  {
    if p != [] && p != s {
      assert p == [p[0]] + p[1..] && s == [s[0]] + s[1..];
      PrefixFirst(p[1..], s[1..]);
    }
  }

  /** Between two keys with the prefix there are only keys with the prefix. */
  lemma {:induction false} PrefixBetween(p: seq<Byte>, s: seq<Byte>, c: seq<Byte>)
    requires p <= c && (s == c || LessBytes(s, c)) && (p == s || LessBytes(p, s))
    ensures p <= s
  {
    if p != [] {
      if s != c && p != s {
        assert p[0] == c[0];
        assert p == [p[0]] + p[1..] && s == [s[0]] + s[1..] && c == [c[0]] + c[1..];
        PrefixBetween(p[1..], s[1..], c[1..]);
      }
    }
  }

  /** Prefix matches are contiguous: a scan from the prefix meets all of them before the first key that lacks it. */
  lemma PrefixContiguous(p: Key, k: Key, m: Key)
    requires HasPrefix(m, p) && (p == k || Less(p, k)) && (k == m || Less(k, m))
    ensures HasPrefix(k, p)
  {
    SameRank(p.kind, k.kind);
    PrefixBetween(p.data, k.data, m.data);
  }

  lemma PrefixStart(p: Key, m: Key)
    requires HasPrefix(m, p)
    ensures p == m || Less(p, m)
  {
    PrefixFirst(p.data, m.data);
  }

  ghost predicate InOrder(keys: seq<Key>) {
    forall i, j :: 0 <= i < j < |keys| ==> Less(keys[i], keys[j])
  }

  /** A prefix scan: start at the first key not below the prefix and stop at the first one that lacks it. What it
      returns is exactly the keys with the prefix. */
  lemma PrefixScan(keys: seq<Key>, p: Key, from: nat, to: nat)
    requires InOrder(keys) && from <= to <= |keys|
    requires forall i :: 0 <= i < from ==> Less(keys[i], p)
    requires from < |keys| ==> p == keys[from] || Less(p, keys[from])
    requires forall i :: from <= i < to ==> HasPrefix(keys[i], p)
    requires to < |keys| ==> !HasPrefix(keys[to], p)
    ensures forall i :: 0 <= i < |keys| ==> (HasPrefix(keys[i], p) <==> from <= i < to)
  {
    forall i | 0 <= i < |keys| ensures HasPrefix(keys[i], p) <==> from <= i < to {
      if HasPrefix(keys[i], p) {
        PrefixStart(p, keys[i]);
        if i < from { Asymmetric(keys[i], p); }
        if to <= i {
          if from < to { EmbedOrder(p, keys[from]); EmbedOrder(keys[from], keys[to]); EmbedOrder(p, keys[to]); }
          if to < i { assert Less(keys[to], keys[i]); }
          PrefixContiguous(p, keys[to], keys[i]);
        }
      }
    }
  }

  lemma Asymmetric(a: Key, b: Key)
    ensures !(Less(a, b) && Less(b, a)) && !Less(a, a)
  {
    Total(a.data, b.data);
    Total(a.data, a.data);
    SameRank(a.kind, b.kind);
  }
}
