/** What CRC-32C is: the remainder of the message on division by the Castagnoli polynomial over the field of two
    elements, first and last 32 bits inverted (sections 12.1 and B.4 of RFC 3720). */
module Castagnoli {
  import opened Crc32c

  /** Coefficients over the field of two elements, the highest power first. */
  type Poly = seq<bool>

  /** The powers below 32 of the Castagnoli polynomial; the power 32 itself is understood. */
  const POWERS: set<nat> := {28, 27, 26, 25, 23, 22, 20, 19, 18, 14, 13, 11, 10, 9, 8, 6, 0}

  function Divisor(): (r: Poly)
    ensures |r| == 32
  {
    seq(32, i => (31 - i) in POWERS)
  }

  function Zeros(n: nat): (r: Poly)
    ensures |r| == n && forall i :: 0 <= i < n ==> !r[i]
  {
    seq(n, i => false)
  }

  function Add(a: Poly, b: Poly): (r: Poly)
    requires |a| == |b|
    ensures |r| == |a| && forall i :: 0 <= i < |r| ==> r[i] == (a[i] != b[i])
  {
    seq(|a|, i requires 0 <= i < |a| => a[i] != b[i])
  }

  function Inverted(a: Poly): (r: Poly)
    ensures |r| == |a| && forall i :: 0 <= i < |r| ==> r[i] == !a[i]
  {
    seq(|a|, i requires 0 <= i < |a| => !a[i])
  }

  // ---------------------------------------------------------------- division

  /** q times the whole polynomial, the power 32 included. */
  function Times(q: Poly): (r: Poly)
    ensures |r| == |q| + 32
  {
    if q == [] then Zeros(32)
    else
      var rest := [false] + Times(q[1..]);
      if q[0] then Add([true] + Divisor() + Zeros(|q| - 1), rest) else rest
  }

  /** s is a multiple of the polynomial plus a remainder of degree below 32. */
  ghost predicate Divides(s: Poly, q: Poly, r: Poly) {
    |r| == 32 && |s| == |q| + 32 && s == Add(Times(q), Zeros(|q|) + r)
  }

  /** Long division. */
  function Remainder(s: Poly): (r: Poly)
    requires |s| >= 32
    ensures |r| == 32
    decreases |s|
  {
    if |s| == 32 then s
    else if s[0] then Remainder(Add(s[1..33], Divisor()) + s[33..])
    else Remainder(s[1..])
  }

  /** One subtraction of long division. */
  function Reduced(s: Poly): (t: Poly)
    requires |s| > 32
    ensures |t| == |s| - 1
  {
    if s[0] then Add(s[1..33], Divisor()) + s[33..] else s[1..]
  }

  lemma {:induction false} ReducedTimes(q: Poly, r: Poly)
    requires q != [] && |r| == 32
    ensures Add(Times(q), Zeros(|q|) + r)[0] == q[0]
    ensures Reduced(Add(Times(q), Zeros(|q|) + r)) == Add(Times(q[1..]), Zeros(|q| - 1) + r)
  {
    hide Divisor, Times, Reduced, Add, Zeros;
    TimesFirst(q);
    assert Zeros(|q|) + r == [false] + (Zeros(|q| - 1) + r);
    ReducedAdds(Times(q), q[0], Times(q[1..]), Zeros(|q| - 1) + r);
  }

  lemma {:induction false} TimesFirst(q: Poly)
    requires q != []
    ensures var rest := Times(q[1..]);
            && Times(q)[0] == q[0]
            && Times(q)[1..] == if q[0] then Add(Divisor() + Zeros(|q| - 1), rest) else rest
  {
    hide Divisor, Add, Zeros;
    var rest, d := Times(q[1..]), Divisor() + Zeros(|q| - 1);
    if q[0] {
      assert [true] + Divisor() + Zeros(|q| - 1) == [true] + d;
      AddFirst(true, d, false, rest);
    }
  }

  lemma {:induction false} ReducedAdds(t: Poly, first: bool, rest: Poly, z: Poly)
    requires |t| == |rest| + 1 > 32 && |z| == |rest| && t[0] == first
    requires t[1..] == if first then Add(Divisor() + Zeros(|rest| - 32), rest) else rest
    ensures Add(t, [false] + z)[0] == first
    ensures Reduced(Add(t, [false] + z)) == Add(rest, z)
  {
    hide Divisor, Add, Zeros;
    var s := Add(t, [false] + z);
    var u, v := Reduced(s), Add(rest, z);
    forall i | 0 <= i < |rest| ensures u[i] == v[i] {
      assert s[i + 1] == (t[1..][i] != z[i]);
      assert (Divisor() + Zeros(|rest| - 32))[i] == if i < 32 then Divisor()[i] else false;
    }
  }

  /** Long division gives the remainder, and there is only one. */
  lemma {:induction false} DivisionIsUnique(s: Poly, q: Poly, r: Poly)
    requires Divides(s, q, r)
    ensures Remainder(s) == r
    decreases |s|
  {
    hide Divisor, Reduced;
    if q == [] {
      assert s == r;
    } else {
      ReducedTimes(q, r);
      RemainderStep(s);
      DivisionIsUnique(Reduced(s), q[1..], r);
    }
  }

  lemma {:induction false} RemainderStep(s: Poly)
    requires |s| > 32
    ensures Remainder(s) == Remainder(Reduced(s))
  {
  }

  lemma {:induction false} DivisionExists(s: Poly) returns (q: Poly)
    requires |s| >= 32
    ensures Divides(s, q, Remainder(s))
    decreases |s|
  {
    hide Divisor, Reduced, Times, Remainder, Add, Zeros;
    if |s| == 32 {
      q := [];
      NothingTimes();
      RemainderEnds(s);
      assert Zeros(0) + s == s;
    } else {
      RemainderStep(s);
      var p := DivisionExists(Reduced(s));
      q := [s[0]] + p;
      assert q[1..] == p;
      ReducedTimes(q, Remainder(s));
      SameAfter(s, Add(Times(q), Zeros(|q|) + Remainder(s)));
    }
  }

  lemma {:induction false} RemainderEnds(s: Poly)
    requires |s| == 32
    ensures Remainder(s) == s
  {
  }

  lemma {:induction false} NothingTimes()
    ensures Times([]) == Zeros(32)
  {
  }

  /** What is left after one subtraction, together with the leading coefficient, determines the polynomial. */
  lemma {:induction false} SameAfter(s: Poly, t: Poly)
    requires |s| == |t| > 32 && s[0] == t[0] && Reduced(s) == Reduced(t)
    ensures s == t
  {
    hide Divisor;
    forall i | 0 < i < |s| ensures s[i] == t[i] {
      assert Reduced(s)[i - 1] == Reduced(t)[i - 1];
      if s[0] && i < 33 {
        assert Reduced(s)[i - 1] == (s[i] != Divisor()[i - 1]);
        assert Reduced(t)[i - 1] == (t[i] != Divisor()[i - 1]);
      }
    }
  }

  // ---------------------------------------------------------------- registers and bytes as coefficients

  predicate Odd(c: bv32) {
    c & 1 == 1
  }

  function Half(c: bv32): bv32 {
    c >> 1
  }

  function Xor(a: bv32, b: bv32): bv32 {
    a ^ b
  }

  function Widened(b: bv8): bv32 {
    b as bv32
  }

  /** The lowest n bits of a register, bit 0 first: bit 0 is the coefficient of the highest power. */
  function Coefficients(c: bv32, n: nat): (r: Poly)
    ensures |r| == n
    decreases n
  {
    if n == 0 then [] else [Odd(c)] + Coefficients(Half(c), n - 1)
  }

  function Register(c: bv32): (r: Poly)
    ensures |r| == 32
  {
    Coefficients(c, 32)
  }

  /** The bits of the message in the order in which they are divided: bytes in order, lowest bit first. */
  function Message(data: Octets): Poly {
    if data == [] then [] else Coefficients(Widened(data[0]), 8) + Message(data[1..])
  }

  /** The register without its lowest n bits. */
  function Drop(c: bv32, n: nat): bv32
    decreases n
  {
    if n == 0 then c else Drop(Half(c), n - 1)
  }

  lemma {:induction false} DropMore(c: bv32, n: nat, m: nat)
    ensures Drop(c, n + m) == Drop(Drop(c, n), m)
    decreases n
  {
    hide Half;
    if n > 0 { DropMore(Half(c), n - 1, m); }
  }

  lemma {:induction false} CoefficientsSplit(c: bv32, n: nat, m: nat)
    ensures Coefficients(c, n + m) == Coefficients(c, n) + Coefficients(Drop(c, n), m)
    decreases n
  {
    hide Half, Odd;
    if n == 0 {
      assert [] + Coefficients(c, m) == Coefficients(c, m);
    } else {
      CoefficientsSplit(Half(c), n - 1, m);
      var x, y := Coefficients(Half(c), n - 1), Coefficients(Drop(c, n), m);
      assert [Odd(c)] + (x + y) == ([Odd(c)] + x) + y;
    }
  }

  lemma {:induction false} CoefficientsAdd(a: bv32, b: bv32, n: nat)
    ensures Coefficients(Xor(a, b), n) == Add(Coefficients(a, n), Coefficients(b, n))
    decreases n
  {
    hide Odd, Half, Add, Xor;
    if n == 0 {
      AddNothing();
    } else {
      CoefficientsAdd(Half(a), Half(b), n - 1);
      XorBits(a, b);
      AddFirst(Odd(a), Coefficients(Half(a), n - 1), Odd(b), Coefficients(Half(b), n - 1));
    }
  }

  lemma {:induction false} AddNothing()
    ensures Add([], []) == []
  {
  }

  lemma {:induction false} AddFirst(x: bool, a: Poly, y: bool, b: Poly)
    requires |a| == |b|
    ensures Add([x] + a, [y] + b) == [x != y] + Add(a, b)
  {
  }

  lemma {:induction false} XorBits(a: bv32, b: bv32)
    ensures Odd(Xor(a, b)) == (Odd(a) != Odd(b))
    ensures Half(Xor(a, b)) == Xor(Half(a), Half(b))
  {
    LowBit(a);
    LowBit(b);
    XorLow(a, b);
    XorHigh(a, b);
  }

  lemma {:induction false} LowBit(a: bv32)
    ensures a & 1 == 0 || a & 1 == 1
  {
  }

  lemma {:induction false} XorLow(a: bv32, b: bv32)
    ensures (a ^ b) & 1 == (a & 1) ^ (b & 1)
  {
  }

  lemma {:induction false} XorHigh(a: bv32, b: bv32)
    ensures (a ^ b) >> 1 == (a >> 1) ^ (b >> 1)
  {
  }

  lemma {:induction false} ZeroCoefficients(n: nat)
    ensures Coefficients(0, n) == Zeros(n)
    decreases n
  {
    hide Odd, Half;
    if n > 0 {
      ZeroBits();
      ZeroCoefficients(n - 1);
      assert [false] + Zeros(n - 1) == Zeros(n);
    }
  }

  lemma {:induction false} ZeroBits()
    ensures !Odd(0) && Half(0) == 0
  {
  }

  lemma {:induction false} EightHalves(c: bv32)
    ensures Half(Half(Half(Half(Half(Half(Half(Half(c)))))))) == c >> 8
  {
  }

  lemma {:induction false} DropByte(c: bv32)
    ensures Drop(c, 8) == c >> 8
  {
    hide Half;
    EightHalves(c);
    assert Drop(c, 4) == Half(Half(Half(Half(c))));
    DropMore(c, 4, 4);
    assert Drop(Drop(c, 4), 4) == Half(Half(Half(Half(Drop(c, 4)))));
  }

  lemma {:induction false} DropAll(c: bv32)
    ensures Drop(c, 32) == 0
  {
    hide Drop;
    DropMore(c, 8, 24);
    DropMore(c >> 8, 8, 16);
    DropMore((c >> 8) >> 8, 8, 8);
    DropByte(c);
    DropByte(c >> 8);
    DropByte((c >> 8) >> 8);
    DropByte(((c >> 8) >> 8) >> 8);
    AllGone(c);
  }

  lemma {:induction false} AllGone(c: bv32)
    ensures (((c >> 8) >> 8) >> 8) >> 8 == 0
  {
  }

  lemma {:induction false} ByteGone(b: bv8)
    ensures Widened(b) >> 8 == 0
  {
  }

  /** A byte has nothing beyond its eight bits. */
  lemma {:induction false} ByteEnds(b: bv8)
    ensures Register(Widened(b)) == Coefficients(Widened(b), 8) + Zeros(24)
  {
    hide Widened, Drop, Coefficients, Zeros;
    CoefficientsSplit(Widened(b), 8, 24);
    DropByte(Widened(b));
    ByteGone(b);
    ZeroCoefficients(24);
  }

  /** Shifting a register: the first coefficient falls out and a zero comes in at the end. */
  lemma {:induction false} ShiftIs(c: bv32)
    ensures Register(c)[0] == Odd(c) && Register(Half(c)) == Register(c)[1..] + [false]
  {
    hide Coefficients, Drop, Odd, Half, Zeros;
    FirstCoefficient(c);
    CoefficientsSplit(Half(c), 31, 1);
    DropAll(c);
    DropOne(c, 31);
    ZeroCoefficients(1);
    assert Zeros(1) == [false];
  }

  lemma {:induction false} FirstCoefficient(c: bv32)
    ensures Register(c) == [Odd(c)] + Coefficients(Half(c), 31)
  {
  }

  lemma {:induction false} DropOne(c: bv32, n: nat)
    ensures Drop(c, n + 1) == Drop(Half(c), n)
  {
  }

  // ---------------------------------------------------------------- one bit

  /** One step of division on a register. */
  function Stepped(r: Poly): (t: Poly)
    requires |r| == 32
    ensures |t| == 32
  {
    if r[0] then Add(r[1..] + [false], Divisor()) else r[1..] + [false]
  }

  lemma {:induction false} BitIs(c: bv32)
    ensures Register(Bit(c)) == Stepped(Register(c))
  {
    hide Coefficients, Odd, Half, Bit, Divisor, Xor, Add;
    ShiftIs(c);
    BitCases(c);
    if Odd(c) {
      CoefficientsAdd(Half(c), 0x82F6_3B78, 32);
      DivisorIs();
    }
  }

  lemma {:induction false} BitCases(c: bv32)
    ensures Bit(c) == if Odd(c) then Xor(Half(c), 0x82F6_3B78) else Half(c)
  {
    assert c & 1 == 0 || c & 1 == 1;
  }

  /** The constant of the code is the Castagnoli polynomial, bit 0 for the power 31. */
  lemma {:induction false} DivisorIs()
    ensures Register(0x82F6_3B78) == Divisor()
  {
    hide Coefficients, Drop;
    DropByte(0x82F6_3B78);
    DropByte(0x82F63B);
    DropByte(0x82F6);
    FourBytes(0x82F6_3B78, 0x82F63B, 0x82F6, 0x82);
    DivisorByte0();
    DivisorByte1();
    DivisorByte2();
    DivisorByte3();
  }

  /** Four bytes, lowest first. */
  lemma {:induction false} FourBytes(c: bv32, c1: bv32, c2: bv32, c3: bv32)
    requires Drop(c, 8) == c1 && Drop(c1, 8) == c2 && Drop(c2, 8) == c3
    ensures Register(c) == Coefficients(c, 8) + (Coefficients(c1, 8) + (Coefficients(c2, 8) + Coefficients(c3, 8)))
  {
    hide Coefficients, Drop;
    CoefficientsSplit(c, 8, 24);
    CoefficientsSplit(c1, 8, 16);
    CoefficientsSplit(c2, 8, 8);
  }

  lemma {:induction false} DivisorByte0()
    ensures Coefficients(0x82F6_3B78, 8) == [false, false, false, true, true, true, true, false]
  {
  }

  lemma {:induction false} DivisorByte1()
    ensures Coefficients(0x82F63B, 8) == [true, true, false, true, true, true, false, false]
  {
  }

  lemma {:induction false} DivisorByte2()
    ensures Coefficients(0x82F6, 8) == [false, true, true, false, true, true, true, true]
  {
  }

  lemma {:induction false} DivisorByte3()
    ensures Coefficients(0x82, 8) == [false, true, false, false, false, false, false, true]
  {
  }

  // ---------------------------------------------------------------- the whole message

  /** A register added to the front of what is still to be divided. */
  function Onto(r: Poly, s: Poly): (t: Poly)
    requires |r| == 32 && |s| >= 32
    ensures |t| == |s|
  {
    Add(r, s[..32]) + s[32..]
  }

  /** A bit step is a step of long division when the next bit of the message is zero. */
  lemma {:induction false} SteppedDivides(r: Poly, s: Poly)
    requires |r| == 32 && |s| >= 32
    ensures Remainder(Onto(r, [false] + s)) == Remainder(Onto(Stepped(r), s))
  {
    hide Remainder, Onto, Stepped, Reduced;
    RemainderStep(Onto(r, [false] + s));
    ReducedOnto(r, s);
  }

  lemma {:induction false} ReducedOnto(r: Poly, s: Poly)
    requires |r| == 32 && |s| >= 32
    ensures Reduced(Onto(r, [false] + s)) == Onto(Stepped(r), s)
  {
    hide Divisor, Add;
    var t := Onto(r, [false] + s);
    var u, v := Reduced(t), Onto(Stepped(r), s);
    assert t[0] == r[0];
    forall i | 0 <= i < |s| ensures u[i] == v[i] {
      assert t[i + 1] == if i + 1 < 32 then r[i + 1] != s[i] else s[i];
      if i < 32 {
        assert v[i] == (Stepped(r)[i] != s[i]);
        assert (r[1..] + [false])[i] == if i + 1 < 32 then r[i + 1] else false;
      }
    }
  }

  lemma {:induction false} SteppedOften(c: bv32, n: nat, s: Poly)
    requires |s| >= 32
    ensures Remainder(Onto(Register(c), Zeros(n) + s)) == Remainder(Onto(Register(Bits(c, n)), s))
    decreases n
  {
    hide Remainder, Register, Bit, Stepped, Onto, Zeros;
    if n == 0 {
      assert Zeros(0) + s == s;
    } else {
      assert Zeros(n) + s == [false] + (Zeros(n - 1) + s);
      SteppedDivides(Register(c), Zeros(n - 1) + s);
      BitIs(c);
      SteppedOften(Bit(c), n - 1, s);
    }
  }

  /** Mixing a byte into the register adds its bits to the front. */
  lemma {:induction false} MixIs(c: bv32, b: bv8, s: Poly)
    requires |s| >= 32
    ensures Onto(Register(c), Coefficients(Widened(b), 8) + s) == Onto(Register(Mix(c, b)), Zeros(8) + s)
  {
    hide Coefficients, Onto, Add, Zeros, Xor, Mix, Widened;
    MixIsXor(c, b);
    RegisterAdd(c, Widened(b));
    ByteEnds(b);
    MixAdds(Register(c), Coefficients(Widened(b), 8), s);
  }

  lemma {:induction false} MixIsXor(c: bv32, b: bv8)
    ensures Mix(c, b) == Xor(c, Widened(b))
  {
  }

  lemma {:induction false} MixAdds(r: Poly, o: Poly, s: Poly)
    requires |r| == 32 && |o| == 8 && |s| >= 32
    ensures Onto(r, o + s) == Onto(Add(r, o + Zeros(24)), Zeros(8) + s)
  {
    hide Add, Zeros;
    var x, y := Onto(r, o + s), Onto(Add(r, o + Zeros(24)), Zeros(8) + s);
    forall i | 0 <= i < |s| + 8 ensures x[i] == y[i] {
      if i < 32 {
        assert (o + s)[..32][i] == if i < 8 then o[i] else s[i - 8];
        assert (Zeros(8) + s)[..32][i] == if i < 8 then false else s[i - 8];
        assert (o + Zeros(24))[i] == if i < 8 then o[i] else false;
      }
    }
  }

  lemma {:induction false} RunDivides(c: bv32, data: Octets)
    ensures Remainder(Onto(Register(c), Message(data) + Zeros(32))) == Register(Run(c, data))
    decreases |data|
  {
    hide Remainder, Register, Mix, Bits, Onto, Zeros, Coefficients, Widened;
    if data == [] {
      assert Message(data) + Zeros(32) == Zeros(32);
      Ends(Register(c));
    } else {
      var b, rest := data[0], Message(data[1..]) + Zeros(32);
      assert Message(data) + Zeros(32) == Coefficients(Widened(b), 8) + rest;
      MixIs(c, b, rest);
      SteppedOften(Mix(c, b), 8, rest);
      RunDivides(Feed(c, b), data[1..]);
    }
  }

  lemma {:induction false} Ends(r: Poly)
    requires |r| == 32
    ensures Remainder(Onto(r, Zeros(32))) == r
  {
    assert Onto(r, Zeros(32)) == r;
  }

  /** The message with 32 zeros after it and its first 32 bits inverted. */
  function Framed(data: Octets): (s: Poly)
    ensures |s| >= 32
  {
    var s := Message(data) + Zeros(32);
    Inverted(s[..32]) + s[32..]
  }

  lemma {:induction false} OnesByte3()
    ensures Coefficients(0xFF, 8) == [true, true, true, true, true, true, true, true]
  {
  }

  lemma {:induction false} OnesByte2()
    ensures Coefficients(0xFFFF, 8) == [true, true, true, true, true, true, true, true]
  {
  }

  lemma {:induction false} OnesByte1()
    ensures Coefficients(0xFF_FFFF, 8) == [true, true, true, true, true, true, true, true]
  {
  }

  lemma {:induction false} OnesByte0()
    ensures Coefficients(0xFFFF_FFFF, 8) == [true, true, true, true, true, true, true, true]
  {
  }

  lemma {:induction false} OnesAre()
    ensures Register(0xFFFF_FFFF) == Inverted(Zeros(32))
  {
    hide Coefficients, Zeros, Inverted, Drop;
    DropByte(0xFFFF_FFFF);
    DropByte(0xFF_FFFF);
    DropByte(0xFFFF);
    FourBytes(0xFFFF_FFFF, 0xFF_FFFF, 0xFFFF, 0xFF);
    OnesByte0();
    OnesByte1();
    OnesByte2();
    OnesByte3();
    OnesInverted(Register(0xFFFF_FFFF));
  }

  lemma {:induction false} OnesInverted(r: Poly)
    requires |r| == 32 && (forall i :: 0 <= i < 32 ==> r[i])
    ensures r == Inverted(Zeros(32))
  {
  }

  lemma {:induction false} AddOnes(r: Poly)
    requires |r| == 32
    ensures Add(r, Inverted(Zeros(32))) == Inverted(r) && Add(Inverted(Zeros(32)), r) == Inverted(r)
  {
  }

  /** For every input the checksum is the inverted remainder of the message, its first 32 bits inverted and 32 zeros
      appended, on division by the Castagnoli polynomial; bit 0 is the coefficient of the power 31. */
  lemma {:induction false} ChecksumIsRemainder(data: Octets, q: Poly, r: Poly)
    requires Divides(Framed(data), q, r)
    ensures Register(Crc(data)) == Inverted(r)
  {
    hide Register, Remainder, Inverted, Times, Run, Xor, Add, Zeros, Message;
    var s := Message(data) + Zeros(32);
    DivisionIsUnique(Framed(data), q, r);
    OnesAre();
    AddOnes(s[..32]);
    RunDivides(0xFFFF_FFFF, data);
    RegisterAdd(Run(0xFFFF_FFFF, data), 0xFFFF_FFFF);
    CrcIs(data);
    AddOnes(r);
  }

  lemma {:induction false} RegisterAdd(a: bv32, b: bv32)
    ensures Register(Xor(a, b)) == Add(Register(a), Register(b))
  {
    CoefficientsAdd(a, b, 32);
  }

  lemma {:induction false} CrcIs(data: Octets)
    ensures Crc(data) == Xor(Run(0xFFFF_FFFF, data), 0xFFFF_FFFF)
  {
  }

  /** And there always is such a division. */
  lemma {:induction false} ChecksumDivides(data: Octets) returns (q: Poly)
    ensures Divides(Framed(data), q, Inverted(Register(Crc(data))))
  {
    hide Remainder, Register, Crc;
    q := DivisionExists(Framed(data));
    ChecksumIsRemainder(data, q, Remainder(Framed(data)));
    assert Inverted(Inverted(Remainder(Framed(data)))) == Remainder(Framed(data));
  }

  /** The published check value: the checksum of the digits 1 to 9. */
  lemma {:induction false} CheckValue()
    ensures Crc([0x31, 0x32, 0x33, 0x34, 0x35, 0x36, 0x37, 0x38, 0x39]) == 0xE306_9283
  {
    assert Feed(0xFFFF_FFFF, 0x31) == 0x6F0A_661C;
    assert Feed(0x6F0A_661C, 0x32) == 0x8CAA_3B9F;
    assert Feed(0x8CAA_3B9F, 0x33) == 0xEF84_D04D;
    assert Feed(0xEF84_D04D, 0x34) == 0x09C5_0B11;
    assert Feed(0x09C5_0B11, 0x35) == 0xE72E_DCCA;
    assert Feed(0xE72E_DCCA, 0x36) == 0xBECA_8E79;
    assert Feed(0xBECA_8E79, 0x37) == 0xEDBD_6815;
    assert Feed(0xEDBD_6815, 0x38) == 0x9F78_7F65;
    assert Feed(0x9F78_7F65, 0x39) == 0x1CF9_6D7C;
    var data: Octets := [0x31, 0x32, 0x33, 0x34, 0x35, 0x36, 0x37, 0x38, 0x39];
    assert Run(0xFFFF_FFFF, data[0..]) == Run(0x6F0A_661C, data[1..]);
    assert Run(0x6F0A_661C, data[1..]) == Run(0x8CAA_3B9F, data[2..]);
    assert Run(0x8CAA_3B9F, data[2..]) == Run(0xEF84_D04D, data[3..]);
    assert Run(0xEF84_D04D, data[3..]) == Run(0x09C5_0B11, data[4..]);
    assert Run(0x09C5_0B11, data[4..]) == Run(0xE72E_DCCA, data[5..]);
    assert Run(0xE72E_DCCA, data[5..]) == Run(0xBECA_8E79, data[6..]);
    assert Run(0xBECA_8E79, data[6..]) == Run(0xEDBD_6815, data[7..]);
    assert Run(0xEDBD_6815, data[7..]) == Run(0x9F78_7F65, data[8..]);
    assert Run(0x9F78_7F65, data[8..]) == Run(0x1CF9_6D7C, data[9..]);
  }
}
