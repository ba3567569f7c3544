/** The 40-byte framed WAL record and the hard-state file: what decoding accepts and returns. */
module WalRecordCodec {
  import opened Options
  import opened Crc32c

  // ---------------------------------------------------------------- big-endian fields

  function Put16(v: bv16): Octets {
    [(v >> 8) as bv8, (v & 0xFF) as bv8]
  }

  function Put32(v: bv32): Octets {
    [(v >> 24) as bv8, ((v >> 16) & 0xFF) as bv8, ((v >> 8) & 0xFF) as bv8, (v & 0xFF) as bv8]
  }

  function Put64(v: bv64): Octets {
    Put32((v >> 32) as bv32) + Put32((v & 0xFFFF_FFFF) as bv32)
  }

  function Get16(s: Octets): bv16
    requires |s| == 2
  {
    ((s[0] as bv16) << 8) | (s[1] as bv16)
  }

  function Get32(s: Octets): bv32
    requires |s| == 4
  {
    ((s[0] as bv32) << 24) | ((s[1] as bv32) << 16) | ((s[2] as bv32) << 8) | (s[3] as bv32)
  }

  function Get64(s: Octets): bv64
    requires |s| == 8
  {
    ((Get32(s[..4]) as bv64) << 32) | (Get32(s[4..]) as bv64)
  }

  lemma Field16(v: bv16)
    ensures Get16(Put16(v)) == v
  {
  }

  lemma Field32(v: bv32)
    ensures Get32(Put32(v)) == v
  {
  }

  lemma Field64(v: bv64)
    ensures |Put64(v)| == 8 && Get64(Put64(v)) == v
  {
    hide Put32, Get32;
    Field32((v >> 32) as bv32);
    Field32((v & 0xFFFF_FFFF) as bv32);
    FourEach((v >> 32) as bv32, (v & 0xFFFF_FFFF) as bv32);
  }

  lemma FourEach(a: bv32, b: bv32)
    ensures |Put32(a)| == |Put32(b)| == 4 && (Put32(a) + Put32(b))[..4] == Put32(a)
    ensures (Put32(a) + Put32(b))[4..] == Put32(b)
  {
  }

  lemma Bytes16(s: Octets)
    requires |s| == 2
    ensures Put16(Get16(s)) == s
  {
  }

  lemma Bytes32(s: Octets)
    requires |s| == 4
    ensures Put32(Get32(s)) == s
  {
  }

  lemma Halves(a: bv32, b: bv32)
    ensures ((((a as bv64) << 32) | (b as bv64)) >> 32) as bv32 == a
    ensures ((((a as bv64) << 32) | (b as bv64)) & 0xFFFF_FFFF) as bv32 == b
  {
  }

  lemma Bytes64(s: Octets)
    requires |s| == 8
    ensures Put64(Get64(s)) == s
  {
    hide Put32, Get32;
    Halves(Get32(s[..4]), Get32(s[4..]));
    Bytes32(s[..4]);
    Bytes32(s[4..]);
    assert s == s[..4] + s[4..];
  }

  /** Positional notation in base 256, most significant byte first: appending a digit to the number appends the byte and
      drops the first one. Every number is reached from zero in this way, so this fixes every byte. */
  lemma Digit16(v: bv16, b: bv8)
    ensures Put16(0) == [0, 0] && Put16((v << 8) | (b as bv16)) == Put16(v)[1..] + [b]
  {
  }

  function With32(v: bv32, b: bv8): bv32 {
    (v << 8) | (b as bv32)
  }

  lemma Digit32(v: bv32, b: bv8)
    ensures Put32(0) == [0, 0, 0, 0] && |Put32(v)| == 4 && Put32(With32(v, b)) == Put32(v)[1..] + [b]
  {
    hide With32;
    UpperDigits(v, b);
    LowerDigits(v, b);
  }

  lemma UpperDigits(v: bv32, b: bv8)
    ensures (With32(v, b) >> 24) as bv8 == ((v >> 16) & 0xFF) as bv8
    ensures ((With32(v, b) >> 16) & 0xFF) as bv8 == ((v >> 8) & 0xFF) as bv8
  {
  }

  lemma LowerDigits(v: bv32, b: bv8)
    ensures ((With32(v, b) >> 8) & 0xFF) as bv8 == (v & 0xFF) as bv8
    ensures (With32(v, b) & 0xFF) as bv8 == b
  {
  }

  function With64(v: bv64, b: bv8): bv64 {
    (v << 8) | (b as bv64)
  }

  lemma Digit64(v: bv64, b: bv8)
    ensures Put64(0) == Put32(0) + Put32(0) && |Put64(v)| == 8 && Put64(With64(v, b)) == Put64(v)[1..] + [b]
  {
    hide Put32, Put64, With32, With64, Upper, Lower, Top;
    Both(0);
    Both(v);
    Both(With64(v, b));
    Carried(v, b);
    Digit32(Upper(v), Top(Lower(v)));
    Digit32(Lower(v), b);
    FirstByte(Lower(v));
    ZeroHalves();
  }

  function Upper(v: bv64): bv32 {
    (v >> 32) as bv32
  }

  function Lower(v: bv64): bv32 {
    (v & 0xFFFF_FFFF) as bv32
  }

  function Top(v: bv32): bv8 {
    (v >> 24) as bv8
  }

  lemma ZeroHalves()
    ensures Upper(0) == 0 && Lower(0) == 0
  {
  }

  lemma Both(v: bv64)
    ensures Put64(v) == Put32(Upper(v)) + Put32(Lower(v))
  {
  }

  lemma FirstByte(v: bv32)
    ensures |Put32(v)| == 4 && Put32(v)[0] == Top(v)
  {
  }

  /** The highest byte of the lower half moves into the upper half. */
  lemma Carried(v: bv64, b: bv8)
    ensures Upper(With64(v, b)) == With32(Upper(v), Top(Lower(v)))
    ensures Lower(With64(v, b)) == With32(Lower(v), b)
  {
  }

  // ---------------------------------------------------------------- WAL records

  const MAGIC: Octets := [0x53, 0x4C, 0x57, 0x4C]
  const VERSION: bv16 := 1
  const HEADER: nat := 40
  const WORD32: nat := 0x1_0000_0000

  const TXN_BEGIN: bv16 := 1
  const SYSTEM_ACTION: bv16 := 4
  const TXN_END: bv16 := 7

  datatype Record = Record(lsn: bv64, kind: bv16, txn: bv64, prev: bv64, data: Octets)

  /** What a well-formed record satisfies, when written and when read. */
  predicate ValidFields(r: Record) {
    && r.lsn != 0 && TXN_BEGIN <= r.kind <= TXN_END
    && if r.kind == SYSTEM_ACTION then r.txn == 0 && r.prev == 0
       else r.txn != 0 && (if r.kind == TXN_BEGIN then r.prev == 0 else r.prev != 0)
  }

  /** A length as the 32-bit field stores it. */
  function Size(n: nat): bv32
    requires n < WORD32
  {
    n as bv32
  }

  /** The bytes of a record with a given checksum field. */
  function Layout(r: Record, size: bv32, crc: bv32): Octets {
    MAGIC + Put16(VERSION) + Put16(r.kind) + Put32(size) + Put32(crc) + Put64(r.lsn) + Put64(r.txn) + Put64(r.prev)
      + r.data
  }

  /** The checksum covers the record with its own field zeroed. */
  function Checksum(e: Octets): bv32
    requires |e| >= HEADER
  {
    Crc(e[..12] + [0, 0, 0, 0] + e[16..])
  }

  lemma {:induction false} LayoutLength(r: Record, size: bv32, crc: bv32)
    ensures |Layout(r, size, crc)| == HEADER + |r.data|
  {
    hide Put64;
    Field64(r.lsn);
    Field64(r.txn);
    Field64(r.prev);
  }

  function Encode(r: Record): Option<Octets> {
    if !ValidFields(r) || HEADER + |r.data| >= WORD32 then None
    else
      var size := Size(HEADER + |r.data|);
      LayoutLength(r, size, 0);
      Some(Layout(r, size, Checksum(Layout(r, size, 0))))
  }

  function Decode(e: Octets): Option<Record> {
    if |e| < HEADER then None
    else if e[..4] != MAGIC then None
    else if Get16(e[4..6]) != VERSION then None
    else if |e| >= WORD32 || Get32(e[8..12]) != Size(|e|) then None
    else if Get32(e[12..16]) != Checksum(e) then None
    else
      var r := Record(Get64(e[16..24]), Get16(e[6..8]), Get64(e[24..32]), Get64(e[32..40]), e[40..]);
      if ValidFields(r) then Some(r) else None
  }

  /** Where each field of a layout sits. */
  lemma Slices(r: Record, size: bv32, crc: bv32)
    ensures var e := Layout(r, size, crc);
            && |e| == HEADER + |r.data|
            && e[..4] == MAGIC && e[4..6] == Put16(VERSION) && e[6..8] == Put16(r.kind) && e[8..12] == Put32(size)
            && e[12..16] == Put32(crc) && e[16..24] == Put64(r.lsn) && e[24..32] == Put64(r.txn)
            && e[32..40] == Put64(r.prev)
            && e[40..] == r.data
  {
    hide Put16, Put32, Put64;
    SmallFields(r.kind, size, crc);
    Field64(r.lsn);
    Field64(r.txn);
    Field64(r.prev);
    FirstSlices(MAGIC, Put16(VERSION), Put16(r.kind), Put32(size), Put32(crc),
      Put64(r.lsn) + Put64(r.txn) + Put64(r.prev) + r.data);
    LastSlices(MAGIC + Put16(VERSION) + Put16(r.kind) + Put32(size) + Put32(crc), Put64(r.lsn), Put64(r.txn),
      Put64(r.prev), r.data);
  }

  lemma FirstSlices(a: Octets, b: Octets, c: Octets, d: Octets, e: Octets, rest: Octets)
    requires |a| == 4 && |b| == |c| == 2 && |d| == |e| == 4
    ensures var w := (a + b + c + d + e) + rest;
            w[..4] == a && w[4..6] == b && w[6..8] == c && w[8..12] == d && w[12..16] == e
  {
  }

  lemma LastSlices(head: Octets, a: Octets, b: Octets, c: Octets, d: Octets)
    requires |head| == 16 && |a| == |b| == |c| == 8
    ensures var w := head + (a + b + c + d);
            && |w| == 40 + |d| && w == head + a + b + c + d
            && w[16..24] == a && w[24..32] == b && w[32..40] == c && w[40..] == d
  {
  }

  lemma SmallFields(a: bv16, b: bv32, c: bv32)
    ensures |Put16(VERSION)| == |Put16(a)| == 2 && |Put32(b)| == |Put32(c)| == 4
  {
  }

  /** The checksum does not depend on what the checksum field holds. */
  lemma ChecksumBlind(r: Record, size: bv32, crc: bv32)
    ensures |Layout(r, size, crc)| >= HEADER && |Layout(r, size, 0)| >= HEADER
    ensures Checksum(Layout(r, size, crc)) == Checksum(Layout(r, size, 0))
  {
    hide Put16, Put32, Put64, Crc;
    Slices(r, size, crc);
    Slices(r, size, 0);
    var e, z := Layout(r, size, crc), Layout(r, size, 0);
    assert e[..12] == MAGIC + Put16(VERSION) + Put16(r.kind) + Put32(size) by { Prefix12(e); }
    assert z[..12] == MAGIC + Put16(VERSION) + Put16(r.kind) + Put32(size) by { Prefix12(z); }
    assert e[16..] == Put64(r.lsn) + Put64(r.txn) + Put64(r.prev) + r.data by { Suffix16(e); }
    assert z[16..] == Put64(r.lsn) + Put64(r.txn) + Put64(r.prev) + r.data by { Suffix16(z); }
  }

  lemma Prefix12(e: Octets)
    requires |e| >= HEADER
    ensures e[..12] == e[..4] + e[4..6] + e[6..8] + e[8..12]
  {
  }

  lemma Suffix16(e: Octets)
    requires |e| >= HEADER
    ensures e[16..] == e[16..24] + e[24..32] + e[32..40] + e[40..]
  {
  }

  /** Reading the fields of a layout gives back what was laid out. */
  lemma Fields(r: Record, size: bv32, crc: bv32)
    ensures var e := Layout(r, size, crc);
            && |e| == HEADER + |r.data| && e[..4] == MAGIC && e[40..] == r.data
            && Get16(e[4..6]) == VERSION && Get16(e[6..8]) == r.kind && Get32(e[8..12]) == size
            && Get32(e[12..16]) == crc
            && Get64(e[16..24]) == r.lsn && Get64(e[24..32]) == r.txn && Get64(e[32..40]) == r.prev
  {
    hide Put16, Put32, Put64, Get16, Get32, Get64, Layout;
    Slices(r, size, crc);
    Field16(VERSION);
    Field16(r.kind);
    Field32(size);
    Field32(crc);
    Field64(r.lsn);
    Field64(r.txn);
    Field64(r.prev);
  }

  /** Decoding inverts encoding, for every record that can be encoded. */
  lemma DecodeInvertsEncode(r: Record)
    requires Encode(r).Some?
    ensures Decode(Encode(r).value) == Some(r)
  {
    hide Get16, Get32, Get64, Checksum, Layout, Size, ValidFields;
    var size := Size(HEADER + |r.data|);
    LayoutLength(r, size, 0);
    var crc := Checksum(Layout(r, size, 0));
    Fields(r, size, crc);
    ChecksumBlind(r, size, crc);
  }

  /** The 40-byte header, field by field. */
  lemma RecordFormat(r: Record)
    requires Encode(r).Some?
    ensures var e := Encode(r).value;
            && HEADER == 40 && HEADER <= |e| < WORD32
            && e[..4] == [0x53, 0x4C, 0x57, 0x4C] && e[4..6] == Put16(1) && e[6..8] == Put16(r.kind)
            && e[8..12] == Put32(Size(|e|)) && e[12..16] == Put32(Checksum(e))
            && e[16..24] == Put64(r.lsn) && e[24..32] == Put64(r.txn) && e[32..40] == Put64(r.prev)
            && e[40..] == r.data
  {
    hide Put16, Put32, Put64, Crc, ValidFields, Size;
    var size := Size(HEADER + |r.data|);
    LayoutLength(r, size, 0);
    var crc := Checksum(Layout(r, size, 0));
    Slices(r, size, crc);
    ChecksumBlind(r, size, crc);
  }

  /** And encoding inverts decoding: an accepted byte string is the only encoding of its record. */
  lemma EncodeInvertsDecode(e: Octets)
    requires Decode(e).Some?
    ensures Encode(Decode(e).value) == Some(e)
  {
    hide Put16, Put32, Put64, Get16, Get32, Get64, Crc, Size, ValidFields;
    var r := Decode(e).value;
    Bytes16(e[4..6]);
    Bytes16(e[6..8]);
    Bytes32(e[8..12]);
    Bytes32(e[12..16]);
    Bytes64(e[16..24]);
    Bytes64(e[24..32]);
    Bytes64(e[32..40]);
    Whole(e);
    var size, crc := Size(|e|), Get32(e[12..16]);
    assert e == Layout(r, size, crc);
    ChecksumBlind(r, size, crc);
  }

  lemma Whole(e: Octets)
    requires |e| >= HEADER
    ensures e == e[..4] + e[4..6] + e[6..8] + e[8..12] + e[12..16] + e[16..24] + e[24..32] + e[32..40] + e[40..]
  {
  }

  /** Every change of a single byte of an encoded record is rejected, wherever it falls. */
  lemma CorruptionRejected(r: Record, i: nat, b: bv8)
    requires Encode(r).Some? && i < |Encode(r).value| && Encode(r).value[i] != b
    ensures Decode(Encode(r).value[i := b]).None?
  {
    hide Put16, Put32, Put64, Get16, Get32, Get64, Crc, Layout, Encode, ValidFields, Size, Checksum;
    var e := Encode(r).value;
    var x := e[i := b];
    EncodedFields(r);
    if i < 4 {
      assert x[..4][i] != e[..4][i];
    } else if 4 <= i < 6 {
      assert x[4..6][i - 4] != e[4..6][i - 4];
      Distinct16(x[4..6], e[4..6]);
    } else if 8 <= i < 12 {
      assert x[8..12][i - 8] != e[8..12][i - 8];
      Distinct32(x[8..12], e[8..12]);
    } else if 12 <= i < 16 {
      assert x[12..16][i - 12] != e[12..16][i - 12];
      Distinct32(x[12..16], e[12..16]);
      ChecksumSkips(e, i, b);
    } else {
      assert x[12..16] == e[12..16];
      ChecksumSees(e, i, b);
    }
  }

  lemma EncodedFields(r: Record)
    requires Encode(r).Some?
    ensures var e := Encode(r).value;
            && HEADER <= |e| < WORD32 && e[..4] == MAGIC && Get16(e[4..6]) == VERSION
            && Get32(e[8..12]) == Size(|e|) && Get32(e[12..16]) == Checksum(e)
  {
    hide Put16, Put32, Put64, Get16, Get32, Get64, Checksum, Size, Layout, ValidFields;
    DecodeInvertsEncode(r);
    var size := Size(HEADER + |r.data|);
    LayoutLength(r, size, 0);
    LayoutLength(r, size, Checksum(Layout(r, size, 0)));
  }

  lemma Distinct16(a: Octets, b: Octets)
    requires |a| == |b| == 2 && a != b
    ensures Get16(a) != Get16(b)
  {
    Bytes16(a);
    Bytes16(b);
  }

  lemma Distinct32(a: Octets, b: Octets)
    requires |a| == |b| == 4 && a != b
    ensures Get32(a) != Get32(b)
  {
    hide Get32, Put32;
    Bytes32(a);
    Bytes32(b);
  }

  lemma ChecksumSkips(e: Octets, i: nat, b: bv8)
    requires |e| >= HEADER && 12 <= i < 16
    ensures Checksum(e[i := b]) == Checksum(e)
  {
    assert e[i := b][..12] == e[..12] && e[i := b][16..] == e[16..];
  }

  lemma ChecksumSees(e: Octets, i: nat, b: bv8)
    requires |e| >= HEADER && i < |e| && !(12 <= i < 16) && e[i] != b
    ensures Checksum(e[i := b]) != Checksum(e)
  {
    hide Crc;
    var x := e[i := b];
    var z := e[..12] + [0, 0, 0, 0] + e[16..];
    assert x[..12] + [0, 0, 0, 0] + x[16..] == z[i := b];
    assert z[i] == e[i];
    OneByteChanges(z, i, b);
  }

  // ---------------------------------------------------------------- the Raft hard-state file

  /** Term and vote; the vote is a nonempty identity and term zero carries none. */
  datatype HardState = HardState(term: bv64, vote: Option<Octets>)

  predicate Storable(s: HardState) {
    s.vote.Some? ==> s.term != 0 && 0 < |s.vote.value| < WORD32
  }

  function EncodeState(s: HardState): Option<Octets> {
    if !Storable(s) then None
    else
      var id := if s.vote.Some? then s.vote.value else [];
      Some(Put64(s.term) + [if s.vote.Some? then 1 else 0] + Put32(Size(|id|)) + id)
  }

  function DecodeState(e: Octets): Option<HardState> {
    if |e| < 13 then None
    else
      var flag, id := e[8], e[13..];
      if flag > 1 || |id| >= WORD32 || Get32(e[9..13]) != Size(|id|) then None
      else if (flag == 0) != (id == []) || (Get64(e[..8]) == 0 && flag == 1) then None
      else Some(HardState(Get64(e[..8]), if flag == 1 then Some(id) else None))
  }

  /** The hard state read back is the one written, and every accepted file has one reading that writes it again. */
  lemma HardStateRoundTrip(s: HardState)
    requires Storable(s)
    ensures DecodeState(EncodeState(s).value) == Some(s)
  {
    hide Put32, Put64, Get32, Get64, Size;
    var id := if s.vote.Some? then s.vote.value else [];
    Field64(s.term);
    Field32(Size(|id|));
    SmallFields(0, Size(|id|), 0);
    StateSlices(Put64(s.term), if s.vote.Some? then 1 else 0, Put32(Size(|id|)), id);
  }

  /** Eight bytes of term, whether there is a vote, four bytes of its length, and the vote. */
  lemma HardStateFormat(s: HardState)
    requires Storable(s)
    ensures var e := EncodeState(s).value;
            var id := if s.vote.Some? then s.vote.value else [];
            && |e| == 13 + |id| && e[..8] == Put64(s.term) && e[8] == (if s.vote.Some? then 1 else 0)
            && e[9..13] == Put32(Size(|id|)) && e[13..] == id
  {
    hide Put32, Put64, Size;
    var id := if s.vote.Some? then s.vote.value else [];
    Field64(s.term);
    SmallFields(0, Size(|id|), 0);
    StateSlices(Put64(s.term), if s.vote.Some? then 1 else 0, Put32(Size(|id|)), id);
  }

  lemma StateSlices(term: Octets, flag: bv8, size: Octets, id: Octets)
    requires |term| == 8 && |size| == 4
    ensures var e := term + [flag] + size + id;
            |e| == 13 + |id| && e[..8] == term && e[8] == flag && e[9..13] == size && e[13..] == id
  {
  }

  lemma HardStateCanonical(e: Octets)
    requires DecodeState(e).Some?
    ensures EncodeState(DecodeState(e).value) == Some(e)
  {
    hide Put32, Put64, Get32, Get64, Size;
    Bytes64(e[..8]);
    Bytes32(e[9..13]);
    assert e == e[..8] + [e[8]] + e[9..13] + e[13..];
  }
}
