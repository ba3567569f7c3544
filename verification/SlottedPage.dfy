/** The byte layout of tree pages: header, cell directory growing up, cells growing down. */
module SlottedPages {
  import opened Options
  import opened ByteStrings
  import opened KeyOrder

  const PAYLOAD: nat := 4072
  const LEAF_HEAD: nat := 7
  const INTERNAL_HEAD: nat := 11
  const SLOT: nat := 2
  const HALF: nat := 0x1_0000

  datatype ValueKind = VarUInt | VarInt | Flag | Text
  datatype Value = Value(kind: ValueKind, data: Bytes)

  // ---------------------------------------------------------------- numbers

  lemma TwoBytes(v: nat)
    requires v < HALF
    ensures |BigEndian(v, 2)| == 2 && FromBigEndian(BigEndian(v, 2)) == v
  {
    assert Power(1) == 256 && Power(2) == HALF;
    BigEndianInverse(v, 2);
  }

  lemma FourBytes(v: nat)
    requires v < 0x1_0000_0000
    ensures |BigEndian(v, 4)| == 4 && FromBigEndian(BigEndian(v, 4)) == v
  {
    assert Power(1) == 256 && Power(2) == HALF && Power(3) == 256 * HALF;
    BigEndianInverse(v, 4);
  }

  // ---------------------------------------------------------------- cells

  predicate ValidKey(k: Key) {
    && |k.data| < HALF
    && match k.kind
       case Bool => |k.data| == 1 && k.data[0] <= 1
       case UInt64 => |k.data| == 8
       case Int64 => |k.data| == 8
       case String => true
       case Bytes => true
  }

  function KindOf(tag: Byte): Option<Kind> {
    match tag
    case 0 => Some(Bool)
    case 1 => Some(UInt64)
    case 2 => Some(Int64)
    case 3 => Some(String)
    case 4 => Some(Kind.Bytes)
    case _ => None
  }

  function ValueTag(k: ValueKind): Byte {
    match k
    case VarUInt => 0
    case VarInt => 1
    case Flag => 2
    case Text => 3
  }

  function ValueKindOf(tag: Byte): Option<ValueKind> {
    match tag
    case 0 => Some(VarUInt)
    case 1 => Some(VarInt)
    case 2 => Some(Flag)
    case 3 => Some(Text)
    case _ => None
  }

  function KeyBytes(k: Key): Bytes {
    [Rank(k.kind)] + BigEndian(|k.data|, 2) + k.data
  }

  function LeafCell(k: Key, v: Value): Bytes {
    KeyBytes(k) + [ValueTag(v.kind)] + BigEndian(|v.data|, 2) + v.data
  }

  function InternalCell(k: Key, child: nat): Bytes {
    KeyBytes(k) + BigEndian(child, 4)
  }

  /** The key at the start of some bytes; the rest follows it. */
  function ParseKey(b: Bytes): Option<(Key, Bytes)> {
    if |b| < 3 || KindOf(b[0]).None? then None
    else
      var size := FromBigEndian(b[1..3]);
      if 3 + size > |b| then None
      else
        var key := Key(KindOf(b[0]).value, b[3..3 + size]);
        if ValidKey(key) then Some((key, b[3 + size..])) else None
  }

  function ParseLeafCell(b: Bytes, validValue: Value -> bool): Option<(Key, Value)> {
    match ParseKey(b)
    case None => None
    case Some((key, rest)) =>
      if |rest| < 3 || ValueKindOf(rest[0]).None? then None
      else
        var size := FromBigEndian(rest[1..3]);
        if 3 + size > |rest| then None
        else
          var value := Value(ValueKindOf(rest[0]).value, rest[3..3 + size]);
          if validValue(value) then Some((key, value)) else None
  }

  function ParseInternalCell(b: Bytes): Option<(Key, nat)> {
    match ParseKey(b)
    case None => None
    case Some((key, rest)) => if |rest| < 4 then None else Some((key, FromBigEndian(rest[..4])))
  }

  /** A tag, a two-byte length and that many bytes can be taken apart again. */
  lemma TakeApart(tag: Byte, data: Bytes, rest: Bytes)
    requires |data| < HALF
    ensures var b := ([tag] + BigEndian(|data|, 2) + data) + rest;
            && |b| == 3 + |data| + |rest| && b[0] == tag && FromBigEndian(b[1..3]) == |data|
            && b[3..3 + |data|] == data && b[3 + |data|..] == rest
  {
    hide BigEndian, FromBigEndian;
    TwoBytes(|data|);
    var b := ([tag] + BigEndian(|data|, 2) + data) + rest;
    assert b[1..3] == BigEndian(|data|, 2);
  }

  lemma KeyInverse(k: Key, rest: Bytes)
    requires ValidKey(k)
    ensures ParseKey(KeyBytes(k) + rest) == Some((k, rest))
  {
    hide BigEndian, FromBigEndian, ValidKey;
    assert |k.data| < HALF by { KeyShort(k); }
    TakeApart(Rank(k.kind), k.data, rest);
    assert KindOf(Rank(k.kind)) == Some(k.kind);
  }

  lemma KeyShort(k: Key)
    requires ValidKey(k)
    ensures |k.data| < HALF
  {
  }

  /** A leaf cell is read back whatever follows it. */
  lemma LeafCellInverse(k: Key, v: Value, rest: Bytes, validValue: Value -> bool)
    requires ValidKey(k) && validValue(v) && |v.data| < HALF
    ensures ParseLeafCell(LeafCell(k, v) + rest, validValue) == Some((k, v))
  {
    hide BigEndian, FromBigEndian, ValidKey, KeyBytes, ParseKey;
    var tail := ([ValueTag(v.kind)] + BigEndian(|v.data|, 2) + v.data) + rest;
    assert LeafCell(k, v) + rest == KeyBytes(k) + tail;
    KeyInverse(k, tail);
    TakeApart(ValueTag(v.kind), v.data, rest);
    assert ValueKindOf(ValueTag(v.kind)) == Some(v.kind);
  }

  lemma InternalCellInverse(k: Key, child: nat, rest: Bytes)
    requires ValidKey(k) && child < 0x1_0000_0000
    ensures ParseInternalCell(InternalCell(k, child) + rest) == Some((k, child))
  {
    hide BigEndian, FromBigEndian, ValidKey, KeyBytes, ParseKey;
    var tail := BigEndian(child, 4) + rest;
    assert InternalCell(k, child) + rest == KeyBytes(k) + tail;
    KeyInverse(k, tail);
    FourBytes(child);
    assert tail[..4] == BigEndian(child, 4);
  }

  // ---------------------------------------------------------------- the layout

  function Sum(cells: seq<Bytes>): nat {
    if cells == [] then 0 else Sum(cells[..|cells| - 1]) + |cells[|cells| - 1]|
  }

  /** The cells as they lie at the end of the page: the last one has the lowest address. */
  function Packed(cells: seq<Bytes>): Bytes {
    if cells == [] then [] else cells[|cells| - 1] + Packed(cells[..|cells| - 1])
  }

  /** Where cell i starts, in unbounded arithmetic. */
  function StartOf(cells: seq<Bytes>, i: nat): int
    requires i < |cells|
  {
    PAYLOAD - Sum(cells[..i + 1])
  }

  predicate Fits(head: nat, cells: seq<Bytes>) {
    head + SLOT * |cells| + Sum(cells) <= PAYLOAD
  }

  function Directory(cells: seq<Bytes>): Bytes
    requires Sum(cells) <= PAYLOAD
  {
    if cells == [] then [] else Directory(cells[..|cells| - 1]) + BigEndian(PAYLOAD - Sum(cells), 2)
  }

  function Zeros(n: nat): Bytes {
    seq(n, _ => 0)
  }

  /** The bytes of a whole page. */
  function Laid(head: Bytes, cells: seq<Bytes>): Bytes
    requires Fits(|head|, cells)
  {
    head + Directory(cells) + Zeros(PAYLOAD - |head| - SLOT * |cells| - Sum(cells)) + Packed(cells)
  }

  lemma {:induction false} PackedLength(cells: seq<Bytes>)
    ensures |Packed(cells)| == Sum(cells)
  {
    if cells != [] { PackedLength(cells[..|cells| - 1]); }
  }

  lemma {:induction false} DirectoryLength(cells: seq<Bytes>)
    requires Sum(cells) <= PAYLOAD
    ensures |Directory(cells)| == SLOT * |cells|
  {
    if cells != [] {
      DirectoryLength(cells[..|cells| - 1]);
      NumberLength(PAYLOAD - Sum(cells), 2);
    }
  }

  lemma LaidLength(head: Bytes, cells: seq<Bytes>)
    requires Fits(|head|, cells)
    ensures |Laid(head, cells)| == PAYLOAD
  {
    PackedLength(cells);
    DirectoryLength(cells);
  }

  lemma {:induction false} SumGrows(cells: seq<Bytes>, i: nat, j: nat)
    requires i <= j <= |cells|
    ensures Sum(cells[..i]) <= Sum(cells[..j])
    decreases j
  {
    if i < j {
      SumGrows(cells, i, j - 1);
      assert cells[..j][..j - 1] == cells[..j - 1];
    }
  }

  lemma SumStep(cells: seq<Bytes>, i: nat)
    requires i < |cells|
    ensures Sum(cells[..i + 1]) == Sum(cells[..i]) + |cells[i]|
    ensures Packed(cells[..i + 1]) == cells[i] + Packed(cells[..i])
  {
    assert cells[..i + 1][..i] == cells[..i];
  }

  lemma SumAll(cells: seq<Bytes>, i: nat)
    requires i <= |cells|
    ensures Sum(cells[..i]) <= Sum(cells) && Sum(cells[..|cells|]) == Sum(cells)
  {
    assert cells[..|cells|] == cells;
    SumGrows(cells, i, |cells|);
  }

  /** Cells never overlap each other. */
  lemma CellsDisjoint(cells: seq<Bytes>, i: nat, j: nat)
    requires i < j < |cells|
    ensures StartOf(cells, j) + |cells[j]| <= StartOf(cells, i)
    ensures StartOf(cells, i) + |cells[i]| <= PAYLOAD
  {
    SumStep(cells, i);
    SumStep(cells, j);
    SumGrows(cells, i + 1, j);
  }

  /** Where the write loop puts cell i: the cell pointer has 16 bits. */
  function Ptr(cells: seq<Bytes>, i: nat): nat
    requires i < |cells|
  {
    StartOf(cells, i) % HALF
  }

  /** Every cell is written within the page. */
  ghost predicate Inside(cells: seq<Bytes>) {
    forall i :: 0 <= i < |cells| ==> Ptr(cells, i) + |cells[i]| <= PAYLOAD
  }

  lemma InsideAt(cells: seq<Bytes>, i: nat)
    requires i < |cells| && Sum(cells[..i]) <= PAYLOAD
    ensures Ptr(cells, i) + |cells[i]| <= PAYLOAD <==> Sum(cells[..i + 1]) <= PAYLOAD
    ensures Sum(cells[..i + 1]) <= PAYLOAD ==> Ptr(cells, i) == StartOf(cells, i)
  {
    SumStep(cells, i);
  }

  lemma {:induction false} InsideUpTo(cells: seq<Bytes>, i: nat)
    requires i <= |cells| && (forall j :: 0 <= j < i ==> Ptr(cells, j) + |cells[j]| <= PAYLOAD)
    ensures Sum(cells[..i]) <= PAYLOAD
  {
    if i > 0 {
      InsideUpTo(cells, i - 1);
      InsideAt(cells, i - 1);
    }
  }

  /** The 16-bit write loop stays inside the page exactly when the cells together are no longer than the page. */
  lemma InsideExactlyWhen(cells: seq<Bytes>)
    ensures Inside(cells) <==> Sum(cells) <= PAYLOAD
    ensures Sum(cells) <= PAYLOAD ==> forall i :: 0 <= i < |cells| ==> Ptr(cells, i) == StartOf(cells, i)
  {
    hide Ptr, Sum;
    SumAll(cells, 0);
    if Inside(cells) { InsideUpTo(cells, |cells|); }
    if Sum(cells) <= PAYLOAD {
      forall i | 0 <= i < |cells| ensures Ptr(cells, i) + |cells[i]| <= PAYLOAD && Ptr(cells, i) == StartOf(cells, i) {
        SumAll(cells, i);
        SumAll(cells, i + 1);
        InsideAt(cells, i);
      }
    }
  }

  /** The loop writes every cell inside the page and clear of header and directory exactly when everything fits. */
  lemma ClearExactlyWhen(head: nat, cells: seq<Bytes>)
    requires cells != []
    ensures Fits(head, cells)
            <==> Inside(cells) && forall i :: 0 <= i < |cells| ==> head + SLOT * |cells| <= Ptr(cells, i)
  {
    hide Ptr, Sum, Inside;
    InsideExactlyWhen(cells);
    var last := |cells| - 1;
    assert cells[..last + 1] == cells;
    assert StartOf(cells, last) == PAYLOAD - Sum(cells);
    forall i | 0 <= i < |cells| ensures StartOf(cells, last) <= StartOf(cells, i) { SumAll(cells, i + 1); }
  }

  // ---------------------------------------------------------------- reading a laid-out page

  lemma {:induction false} DirectoryPrefix(cells: seq<Bytes>, i: nat)
    requires Sum(cells) <= PAYLOAD && i <= |cells|
    ensures Sum(cells[..i]) <= PAYLOAD && Directory(cells[..i]) <= Directory(cells)
    decreases |cells|
  {
    SumAll(cells, i);
    if i < |cells| {
      var front := cells[..|cells| - 1];
      SumAll(cells, |cells| - 1);
      DirectoryPrefix(front, i);
      assert front[..i] == cells[..i];
    } else {
      assert cells[..i] == cells;
    }
  }

  /** Directory entry i points at cell i. */
  lemma DirectoryAt(cells: seq<Bytes>, i: nat)
    requires Sum(cells) <= PAYLOAD && i < |cells|
    ensures |Directory(cells)| == SLOT * |cells|
    ensures 0 <= StartOf(cells, i) && Directory(cells)[SLOT * i..SLOT * i + 2] == BigEndian(StartOf(cells, i), 2)
  {
    hide Sum, BigEndian;
    SumAll(cells, i + 1);
    DirectoryPrefix(cells, i + 1);
    DirectoryLength(cells);
    DirectoryLength(cells[..i + 1]);
    DirectoryPrefix(cells, i);
    DirectoryLength(cells[..i]);
    assert cells[..i + 1][..i] == cells[..i];
    assert Directory(cells[..i + 1]) == Directory(cells[..i]) + BigEndian(StartOf(cells, i), 2);
    PrefixSlice(Directory(cells[..i + 1]), Directory(cells), SLOT * i, SLOT * i + 2);
  }

  lemma {:induction false} PackedFrom(cells: seq<Bytes>, i: nat)
    requires i <= |cells|
    ensures |Packed(cells)| == Sum(cells) && Sum(cells[..i]) <= Sum(cells)
    ensures Packed(cells)[Sum(cells) - Sum(cells[..i])..] == Packed(cells[..i])
    decreases |cells|
  {
    PackedLength(cells);
    SumAll(cells, i);
    if i < |cells| {
      var front := cells[..|cells| - 1];
      PackedFrom(front, i);
      assert front[..i] == cells[..i];
      DropSlice(cells[|cells| - 1], Packed(front), Sum(front) - Sum(front[..i]));
    } else {
      assert cells[..i] == cells;
    }
  }

  lemma DropSlice(a: Bytes, b: Bytes, n: nat)
    requires n <= |b|
    ensures (a + b)[|a| + n..] == b[n..]
  {
  }

  /** The bytes that directory entry i points at. */
  function Slot(b: Bytes, head: nat, i: nat): Bytes {
    var at := head + SLOT * i;
    if at + 2 > |b| then []
    else
      var start := FromBigEndian(b[at..at + 2]);
      if start > |b| then [] else b[start..]
  }

  lemma Regions(head: Bytes, dir: Bytes, gap: Bytes, packed: Bytes, n: nat)
    requires n + 2 <= |dir|
    ensures var b := head + dir + gap + packed;
            && b[|head| + n..|head| + n + 2] == dir[n..n + 2]
            && b[..|head|] == head
            && forall m: nat :: m <= |packed| ==> b[|b| - |packed| + m..] == packed[m..]
  {
    var b := head + dir + gap + packed;
    assert b == head + (dir + (gap + packed));
    assert b[..|head|] == head;
    assert b[|head| + n..|head| + n + 2] == dir[n..n + 2];
    assert b == (head + dir + gap) + packed;
    forall m: nat | m <= |packed| ensures b[|b| - |packed| + m..] == packed[m..] {
      DropSlice(head + dir + gap, packed, m);
    }
  }

  /** Following directory entry i leads to cell i. */
  lemma SlotIs(head: Bytes, cells: seq<Bytes>, i: nat)
    requires Fits(|head|, cells) && i < |cells|
    ensures Slot(Laid(head, cells), |head|, i) == cells[i] + Packed(cells[..i])
  {
    hide Sum, Packed, BigEndian, FromBigEndian, Directory, Zeros, Slot;
    var b := Laid(head, cells);
    LaidLength(head, cells);
    DirectoryAt(cells, i);
    PackedFrom(cells, i + 1);
    SumStep(cells, i);
    SumAll(cells, i + 1);
    Regions(head, Directory(cells), Zeros(PAYLOAD - |head| - SLOT * |cells| - Sum(cells)), Packed(cells), SLOT * i);
    TwoBytes(StartOf(cells, i));
    SlotFrom(b, |head|, i, Packed(cells), StartOf(cells, i), Sum(cells) - Sum(cells[..i + 1]));
  }

  lemma SlotFrom(b: Bytes, head: nat, i: nat, packed: Bytes, start: nat, m: nat)
    requires head + SLOT * i + 2 <= |b| && FromBigEndian(b[head + SLOT * i..head + SLOT * i + 2]) == start
    requires m <= |packed| <= |b| && start == |b| - |packed| + m && b[|b| - |packed| + m..] == packed[m..]
    ensures Slot(b, head, i) == packed[m..]
  {
    hide FromBigEndian;
  }

  // ---------------------------------------------------------------- leaf pages

  function LeafHead(count: nat, total: nat): Bytes {
    [1] + BigEndian(count % HALF, 2) + BigEndian((LEAF_HEAD + SLOT * count) % HALF, 2)
      + BigEndian((PAYLOAD - total - 1) % HALF, 2)
  }

  function LeafCells(keys: seq<Key>, values: seq<Value>): seq<Bytes>
    requires |keys| == |values|
  {
    seq(|keys|, i requires 0 <= i < |keys| => LeafCell(keys[i], values[i]))
  }

  ghost predicate LeafStorable(keys: seq<Key>, values: seq<Value>, validValue: Value -> bool) {
    && |keys| == |values|
    && forall i :: 0 <= i < |keys| ==> ValidKey(keys[i]) && validValue(values[i]) && |values[i].data| < HALF
  }

  function LeafSlots(b: Bytes, count: nat, validValue: Value -> bool): Option<(seq<Key>, seq<Value>)> {
    if count == 0 then Some(([], []))
    else
      match LeafSlots(b, count - 1, validValue)
      case None => None
      case Some((keys, values)) =>
        match ParseLeafCell(Slot(b, LEAF_HEAD, count - 1), validValue)
        case None => None
        case Some((key, value)) => Some((keys + [key], values + [value]))
  }

  function DecodeLeaf(b: Bytes, validValue: Value -> bool): Option<(seq<Key>, seq<Value>)> {
    if |b| < LEAF_HEAD || b[0] != 1 then None
    else LeafSlots(b, FromBigEndian(b[1..3]), validValue)
  }

  /** Every directory entry of the page leads to its cell. */
  ghost predicate LeadsTo(b: Bytes, head: nat, cells: seq<Bytes>) {
    forall i :: 0 <= i < |cells| ==> Slot(b, head, i) == cells[i] + Packed(cells[..i])
  }

  lemma {:induction false} LeafSlotsAre(b: Bytes, keys: seq<Key>, values: seq<Value>, n: nat, validValue: Value -> bool)
    requires LeafStorable(keys, values, validValue) && LeadsTo(b, LEAF_HEAD, LeafCells(keys, values)) && n <= |keys|
    ensures LeafSlots(b, n, validValue) == Some((keys[..n], values[..n]))
  {
    hide Slot, ParseLeafCell, LeafCell, ValidKey, Packed;
    if n > 0 {
      LeafSlotsAre(b, keys, values, n - 1, validValue);
      var cells := LeafCells(keys, values);
      assert Slot(b, LEAF_HEAD, n - 1) == cells[n - 1] + Packed(cells[..n - 1]);
      LeafCellInverse(keys[n - 1], values[n - 1], Packed(cells[..n - 1]), validValue);
      assert keys[..n - 1] + [keys[n - 1]] == keys[..n] && values[..n - 1] + [values[n - 1]] == values[..n];
    }
  }

  lemma LaidLeads(head: Bytes, cells: seq<Bytes>)
    requires Fits(|head|, cells)
    ensures LeadsTo(Laid(head, cells), |head|, cells)
  {
    hide Laid, Slot, Packed, Fits;
    forall i | 0 <= i < |cells| ensures Slot(Laid(head, cells), |head|, i) == cells[i] + Packed(cells[..i]) {
      SlotIs(head, cells, i);
    }
  }

  lemma LeafHeadIs(count: nat, total: nat)
    requires count < HALF
    ensures |LeafHead(count, total)| == LEAF_HEAD && LeafHead(count, total)[0] == 1
    ensures FromBigEndian(LeafHead(count, total)[1..3]) == count
  {
    hide BigEndian, FromBigEndian;
    TwoBytes(count);
    TwoBytes((LEAF_HEAD + SLOT * count) % HALF);
    TwoBytes((PAYLOAD - total - 1) % HALF);
    assert LeafHead(count, total)[1..3] == BigEndian(count, 2);
  }

  lemma HeadOfLaid(head: Bytes, cells: seq<Bytes>)
    requires Fits(|head|, cells) && |head| >= 3
    ensures Laid(head, cells)[0] == head[0] && Laid(head, cells)[1..3] == head[1..3]
  {
    var rest := Directory(cells) + Zeros(PAYLOAD - |head| - SLOT * |cells| - Sum(cells)) + Packed(cells);
    assert Laid(head, cells) == head + rest;
  }

  lemma FewCells(head: nat, cells: seq<Bytes>)
    requires Fits(head, cells)
    ensures |cells| < HALF && Sum(cells) <= PAYLOAD
  {
  }

  /** Decoding a flushed leaf gives back its keys and values. */
  lemma LeafRoundTrip(keys: seq<Key>, values: seq<Value>, validValue: Value -> bool)
    requires LeafStorable(keys, values, validValue) && Fits(LEAF_HEAD, LeafCells(keys, values))
    ensures |LeafHead(|keys|, Sum(LeafCells(keys, values)))| == LEAF_HEAD
    ensures DecodeLeaf(Laid(LeafHead(|keys|, Sum(LeafCells(keys, values))), LeafCells(keys, values)), validValue)
            == Some((keys, values))
  {
    hide Laid, LeafHead, LeafSlots, Fits, Sum, LeafStorable, FromBigEndian, LeadsTo;
    SameLength(keys, values, validValue);
    var cells := LeafCells(keys, values);
    var head := LeafHead(|keys|, Sum(cells));
    FewCells(LEAF_HEAD, cells);
    LeafHeadIs(|keys|, Sum(cells));
    HeadOfLaid(head, cells);
    LaidLength(head, cells);
    LaidLeads(head, cells);
    LeafSlotsAre(Laid(head, cells), keys, values, |keys|, validValue);
    assert keys[..|keys|] == keys && values[..|values|] == values;
  }

  lemma SameLength(keys: seq<Key>, values: seq<Value>, validValue: Value -> bool)
    requires LeafStorable(keys, values, validValue)
    ensures |keys| == |values|
  {
  }

  // ---------------------------------------------------------------- internal pages

  function InternalHead(count: nat, total: nat, leftmost: nat): Bytes {
    [0] + BigEndian(count % HALF, 2) + BigEndian((INTERNAL_HEAD + SLOT * count) % HALF, 2)
    + BigEndian((PAYLOAD - total - 1) % HALF, 2) + BigEndian(leftmost, 4)
  }

  function InternalCells(keys: seq<Key>, children: seq<nat>): seq<Bytes>
    requires |children| == |keys| + 1
  {
    seq(|keys|, i requires 0 <= i < |keys| => InternalCell(keys[i], children[i + 1]))
  }

  ghost predicate InternalStorable(keys: seq<Key>, children: seq<nat>) {
    && |children| == |keys| + 1
    && (forall i :: 0 <= i < |keys| ==> ValidKey(keys[i]))
    && forall i :: 0 <= i < |children| ==> children[i] < 0x1_0000_0000
  }

  function InternalSlots(b: Bytes, leftmost: nat, count: nat): Option<(seq<Key>, seq<nat>)> {
    if count == 0 then Some(([], [leftmost]))
    else
      match InternalSlots(b, leftmost, count - 1)
      case None => None
      case Some((keys, children)) =>
        match ParseInternalCell(Slot(b, INTERNAL_HEAD, count - 1))
        case None => None
        case Some((key, child)) => Some((keys + [key], children + [child]))
  }

  function DecodeInternal(b: Bytes): Option<(seq<Key>, seq<nat>)> {
    if |b| < INTERNAL_HEAD || b[0] != 0 then None
    else InternalSlots(b, FromBigEndian(b[7..11]), FromBigEndian(b[1..3]))
  }

  lemma {:induction false} InternalSlotsAre(head: Bytes, keys: seq<Key>, children: seq<nat>, n: nat)
    requires |head| == INTERNAL_HEAD && InternalStorable(keys, children)
    requires Fits(INTERNAL_HEAD, InternalCells(keys, children)) && n <= |keys|
    ensures InternalSlots(Laid(head, InternalCells(keys, children)), children[0], n)
            == Some((keys[..n], children[..n + 1]))
  {
    hide Laid, Slot, ParseInternalCell, InternalCell, ValidKey, Fits, Packed;
    if n > 0 {
      InternalSlotsAre(head, keys, children, n - 1);
      SlotIs(head, InternalCells(keys, children), n - 1);
      InternalCellInverse(keys[n - 1], children[n], Packed(InternalCells(keys, children)[..n - 1]));
      assert keys[..n - 1] + [keys[n - 1]] == keys[..n] && children[..n] + [children[n]] == children[..n + 1];
    } else {
      assert children[..1] == [children[0]];
    }
  }

  lemma InternalHeadIs(count: nat, total: nat, leftmost: nat)
    requires count < HALF && leftmost < 0x1_0000_0000
    ensures |InternalHead(count, total, leftmost)| == INTERNAL_HEAD && InternalHead(count, total, leftmost)[0] == 0
    ensures FromBigEndian(InternalHead(count, total, leftmost)[1..3]) == count
    ensures FromBigEndian(InternalHead(count, total, leftmost)[7..11]) == leftmost
  {
    hide BigEndian, FromBigEndian;
    TwoBytes(count);
    TwoBytes((INTERNAL_HEAD + SLOT * count) % HALF);
    TwoBytes((PAYLOAD - total - 1) % HALF);
    FourBytes(leftmost);
    assert InternalHead(count, total, leftmost)[1..3] == BigEndian(count, 2);
    assert InternalHead(count, total, leftmost)[7..11] == BigEndian(leftmost, 4);
  }

  lemma LeftmostOfLaid(head: Bytes, cells: seq<Bytes>)
    requires Fits(|head|, cells) && |head| == INTERNAL_HEAD
    ensures |Laid(head, cells)| >= 11 && Laid(head, cells)[7..11] == head[7..11]
  {
    var rest := Directory(cells) + Zeros(PAYLOAD - |head| - SLOT * |cells| - Sum(cells)) + Packed(cells);
    assert Laid(head, cells) == head + rest;
  }

  /** Decoding a flushed internal page gives back its separators and children. */
  lemma InternalRoundTrip(keys: seq<Key>, children: seq<nat>)
    requires InternalStorable(keys, children) && Fits(INTERNAL_HEAD, InternalCells(keys, children))
    ensures |InternalHead(|keys|, Sum(InternalCells(keys, children)), children[0])| == INTERNAL_HEAD
    ensures DecodeInternal(Laid(InternalHead(|keys|, Sum(InternalCells(keys, children)), children[0]),
            InternalCells(keys, children)))
         == Some((keys, children))
  {
    hide Laid, InternalHead, InternalSlots, Fits, Sum, FromBigEndian, ValidKey;
    var cells := InternalCells(keys, children);
    var head := InternalHead(|keys|, Sum(cells), children[0]);
    FewCells(INTERNAL_HEAD, cells);
    InternalHeadIs(|keys|, Sum(cells), children[0]);
    HeadOfLaid(head, cells);
    LeftmostOfLaid(head, cells);
    LaidLength(head, cells);
    InternalSlotsAre(head, keys, children, |keys|);
    assert keys[..|keys|] == keys && children[..|keys| + 1] == children;
  }

  /** A newly laid out internal page already decodes to one child. Setting the leftmost child of such a page is refused,
      which is why splitting an internal page ends the process. */
  lemma NewPageHasChild()
    ensures |InternalHead(0, 0, 0)| == INTERNAL_HEAD
    ensures DecodeInternal(Laid(InternalHead(0, 0, 0), [])) == Some(([], [0]))
  {
    assert InternalCells([], [0]) == [];
    InternalRoundTrip([], [0]);
  }

  // ---------------------------------------------------------------- the free bytes

  /** The header's two pointers name the first free byte after the directory and the last one before the cells. */
  ghost predicate DelimitsFree(b: Bytes, head: nat, cells: seq<Bytes>) {
    && |b| == PAYLOAD && 7 <= head
    && var lo, hi := FromBigEndian(b[3..5]), FromBigEndian(b[5..7]);
       && lo == head + SLOT * |cells| <= hi + 1 == PAYLOAD - Sum(cells)
       && (forall i :: lo <= i <= hi ==> b[i] == 0) && b[hi + 1..] == Packed(cells)
  }

  lemma FreeBytes(head: Bytes, cells: seq<Bytes>)
    requires Fits(|head|, cells) && |head| >= 7
    requires head[3..5] == BigEndian(|head| + SLOT * |cells|, 2) && head[5..7] == BigEndian(PAYLOAD - Sum(cells) - 1, 2)
    ensures DelimitsFree(Laid(head, cells), |head|, cells)
  {
    hide BigEndian, FromBigEndian, Sum, Packed, Directory, Zeros, Laid;
    var lo, hi := |head| + SLOT * |cells|, PAYLOAD - Sum(cells) - 1;
    TwoBytes(lo);
    TwoBytes(hi);
    LaidRegions(head, cells);
  }

  lemma LaidRegions(head: Bytes, cells: seq<Bytes>)
    requires Fits(|head|, cells) && |head| >= 7
    ensures var b, lo, end := Laid(head, cells), |head| + SLOT * |cells|, PAYLOAD - Sum(cells);
            && |b| == PAYLOAD && b[3..5] == head[3..5] && b[5..7] == head[5..7]
            && lo <= end <= PAYLOAD && b[end..] == Packed(cells) && (forall i :: lo <= i < end ==> b[i] == 0)
  {
    hide Sum, Packed, Directory, Zeros;
    var n := PAYLOAD - |head| - SLOT * |cells| - Sum(cells);
    ZerosAre(n);
    PackedLength(cells);
    DirectoryLength(cells);
    FreeRegion(head, Directory(cells), Zeros(n), Packed(cells));
  }

  lemma ZerosAre(n: nat)
    ensures |Zeros(n)| == n && forall i :: 0 <= i < n ==> Zeros(n)[i] == 0
  {
  }

  lemma HeadFields(a: Byte, b: Bytes, c: Bytes, d: Bytes, rest: Bytes)
    requires |b| == |c| == |d| == 2
    ensures var h := [a] + b + c + d + rest; h[3..5] == c && h[5..7] == d
  {
  }

  lemma FreeRegion(head: Bytes, dir: Bytes, gap: Bytes, packed: Bytes)
    requires |head| >= 7 && (forall i :: 0 <= i < |gap| ==> gap[i] == 0)
    ensures var b := head + dir + gap + packed;
            && b[3..5] == head[3..5] && b[5..7] == head[5..7] && b[|head| + |dir| + |gap|..] == packed
            && (forall i :: |head| + |dir| <= i < |head| + |dir| + |gap| ==> b[i] == 0)
  {
    var b := head + dir + gap + packed;
    forall i | |head| + |dir| <= i < |head| + |dir| + |gap| ensures b[i] == 0 {
      assert b[i] == gap[i - |head| - |dir|];
    }
  }

  /** On a flushed leaf. */
  lemma LeafFreeSpace(cells: seq<Bytes>)
    requires Fits(LEAF_HEAD, cells)
    ensures |LeafHead(|cells|, Sum(cells))| == LEAF_HEAD
    ensures DelimitsFree(Laid(LeafHead(|cells|, Sum(cells)), cells), LEAF_HEAD, cells)
  {
    hide BigEndian, Laid, Sum, DelimitsFree, Packed;
    FewCells(LEAF_HEAD, cells);
    LeafHeadIs(|cells|, Sum(cells));
    var head := LeafHead(|cells|, Sum(cells));
    TwoBytes(|cells|);
    TwoBytes(LEAF_HEAD + SLOT * |cells|);
    TwoBytes(PAYLOAD - Sum(cells) - 1);
    var b, c, d := BigEndian(|cells|, 2), BigEndian(LEAF_HEAD + SLOT * |cells|, 2),
      BigEndian(PAYLOAD - Sum(cells) - 1, 2);
    HeadFields(1, b, c, d, []);
    assert head == [1] + b + c + d + [];
    FreeBytes(head, cells);
  }

  /** On a flushed internal page. */
  lemma InternalFreeSpace(cells: seq<Bytes>, leftmost: nat)
    requires Fits(INTERNAL_HEAD, cells) && leftmost < 0x1_0000_0000
    ensures |InternalHead(|cells|, Sum(cells), leftmost)| == INTERNAL_HEAD
    ensures DelimitsFree(Laid(InternalHead(|cells|, Sum(cells), leftmost), cells), INTERNAL_HEAD, cells)
  {
    hide BigEndian, Laid, Sum, DelimitsFree, Packed;
    FewCells(INTERNAL_HEAD, cells);
    InternalHeadIs(|cells|, Sum(cells), leftmost);
    var head := InternalHead(|cells|, Sum(cells), leftmost);
    TwoBytes(|cells|);
    TwoBytes(INTERNAL_HEAD + SLOT * |cells|);
    TwoBytes(PAYLOAD - Sum(cells) - 1);
    FourBytes(leftmost);
    var c, d := BigEndian(INTERNAL_HEAD + SLOT * |cells|, 2), BigEndian(PAYLOAD - Sum(cells) - 1, 2);
    HeadFields(0, BigEndian(|cells|, 2), c, d, BigEndian(leftmost, 4));
    FreeBytes(head, cells);
  }

  // ---------------------------------------------------------------- writing in place

  method WriteAt(a: array<Byte>, at: nat, bytes: Bytes)
    requires at + |bytes| <= a.Length
    modifies a
    ensures a[..] == Over(old(a[..]), at, bytes)
  {
    for i := 0 to |bytes|
      invariant forall j :: 0 <= j < a.Length ==> a[j] == if at <= j < at + i then bytes[j - at] else old(a[j])
    {
      a[at + i] := bytes[i];
    }
  }

  method Clear(a: array<Byte>)
    modifies a
    ensures a[..] == Zeros(a.Length)
  {
    for i := 0 to a.Length
      invariant forall j :: 0 <= j < i ==> a[j] == 0
    {
      a[i] := 0;
    }
  }

  /** Bytes x put over what stood at `at`; a write that leaves the page has no effect here. */
  function Over(b: Bytes, at: nat, x: Bytes): Bytes {
    if at + |x| <= |b| then b[..at] + x + b[at + |x|..] else b
  }

  lemma OverMiddle(a: Bytes, x: Bytes, b: Bytes, y: Bytes)
    requires |x| == |y|
    ensures Over(a + x + b, |a|, y) == a + y + b
  {
    assert (a + x + b)[..|a|] == a && (a + x + b)[|a| + |y|..] == b;
  }

  lemma FiveParts(a: Bytes, b: Bytes, c: Bytes, d: Bytes, e: Bytes)
    ensures a + (b + c + d) + e == (a + b + c) + d + e
    ensures (a + b + c) + d + e == a + b + (c + (d + e))
    ensures a + b + (c + (d + e)) == a + b + c + (d + e)
  {
  }

  /** Writing a cell below the packed ones and its offset after the directory moves both borders of the gap. */
  lemma Regrouped(head: Bytes, dir: Bytes, gap: nat, packed: Bytes, cell: Bytes, entry: Bytes)
    requires |cell| + |entry| <= gap
    ensures Over(Over(head + dir + Zeros(gap) + packed, |head| + |dir| + gap - |cell|, cell), |head| + |dir|, entry)
         == head + (dir + entry) + Zeros(gap - |cell| - |entry|) + (cell + packed)
  {
    hide Over;
    var top := head + dir;
    var e0, z, c0 := Zeros(|entry|), Zeros(gap - |cell| - |entry|), Zeros(|cell|);
    assert Zeros(gap) == e0 + z + c0;
    FiveParts(top, e0, z, c0, packed);
    OverMiddle(top + e0 + z, c0, packed, cell);
    FiveParts(top, e0, z, cell, packed);
    OverMiddle(top, e0, z + (cell + packed), entry);
    FiveParts(top, entry, z, cell, packed);
    assert head + (dir + entry) == top + entry;
  }

  /** The page after the write loop, whether or not everything fits: header, then for each cell the cell and its
      directory entry, later writes over earlier ones. */
  function Written(head: Bytes, cells: seq<Bytes>): Bytes {
    if cells == [] then Over(Zeros(PAYLOAD), 0, head)
    else
      var n := |cells| - 1;
      var at := (PAYLOAD - Sum(cells)) % HALF;
      Over(Over(Written(head, cells[..n]), at, cells[n]), |head| + SLOT * n, BigEndian(at, 2))
  }

  /** What fits is laid out cleanly. */
  lemma {:induction false} WrittenIsLaid(head: Bytes, cells: seq<Bytes>)
    requires Fits(|head|, cells)
    ensures Written(head, cells) == Laid(head, cells)
  {
    hide Sum, Laid, BigEndian, Zeros, Over;
    if cells == [] {
      NothingLaid(head);
    } else {
      var n := |cells| - 1;
      SumStep(cells, n);
      assert cells[..n + 1] == cells;
      WrittenIsLaid(head, cells[..n]);
      LaidStep(head, cells, n);
    }
  }

  lemma LaidStep(head: Bytes, cells: seq<Bytes>, n: nat)
    requires Fits(|head|, cells) && |cells| == n + 1 && Sum(cells) == Sum(cells[..n]) + |cells[n]|
    ensures var at := PAYLOAD - Sum(cells);
            Over(Over(Laid(head, cells[..n]), at, cells[n]), |head| + SLOT * n, BigEndian(at, 2)) == Laid(head, cells)
  {
    hide Sum, BigEndian, Zeros, Packed, Over;
    var front := cells[..n];
    assert cells[..n + 1] == cells;
    SumStep(cells, n);
    DirectoryLength(front);
    var at := PAYLOAD - Sum(cells);
    NumberLength(at, 2);
    Regrouped(head, Directory(front), PAYLOAD - |head| - SLOT * n - Sum(front), Packed(front), cells[n],
      BigEndian(at, 2));
  }

  lemma NothingLaid(head: Bytes)
    requires |head| <= PAYLOAD
    ensures Fits(|head|, []) && Over(Zeros(PAYLOAD), 0, head) == Laid(head, [])
  {
    assert Zeros(PAYLOAD)[|head|..] == Zeros(PAYLOAD - |head|);
  }

  /** Any cell takes six bytes at least, and the longest header eleven. */
  ghost predicate Plausible(head: Bytes, cells: seq<Bytes>) {
    |head| <= INTERNAL_HEAD && forall i :: 0 <= i < |cells| ==> |cells[i]| >= 6
  }

  lemma {:induction false} SumBound(cells: seq<Bytes>, i: nat)
    requires i <= |cells| && (forall j :: 0 <= j < |cells| ==> |cells[j]| >= 6)
    ensures Sum(cells[..i]) >= 6 * i
  {
    if i > 0 {
      SumBound(cells, i - 1);
      SumStep(cells, i - 1);
    }
  }

  /** Clears the page, writes the header, then each cell downwards and its directory entry upwards, in 16-bit
      arithmetic. The code does not look whether a cell leaves the page; here the loop ends there and says so. */
  method WritePage(a: array<Byte>, head: Bytes, cells: seq<Bytes>) returns (inside: bool)
    requires a.Length == PAYLOAD && Plausible(head, cells)
    modifies a
    ensures inside <==> Inside(cells)
    ensures inside ==> a[..] == Written(head, cells)
  {
    hide Sum, Written, BigEndian, Ptr, Inside, Over;
    Clear(a);
    WriteAt(a, 0, head);
    StartsWritten(head, cells, a[..]);
    InsideExactlyWhen(cells);
    var dirPtr := |head|;
    var cellPtr := PAYLOAD;
    for i := 0 to |cells|
      invariant Sum(cells[..i]) <= PAYLOAD && dirPtr == |head| + SLOT * i && cellPtr == PAYLOAD - Sum(cells[..i])
      invariant a[..] == Written(head, cells[..i])
    {
      NextPtr(cells, i, cellPtr);
      InsideAt(cells, i);
      SumAll(cells, i + 1);
      cellPtr := (cellPtr - |cells[i]|) % HALF;
      if cellPtr + |cells[i]| > PAYLOAD { return false; }
      SumBound(cells, i + 1);
      WriteCell(a, head, cells, i, cellPtr, dirPtr);
      dirPtr := (dirPtr + SLOT) % HALF;
    }
    assert cells[..|cells|] == cells;
    return true;
  }

  /** Cell i and its directory entry. */
  method WriteCell(a: array<Byte>, head: Bytes, cells: seq<Bytes>, i: nat, cellPtr: nat, dirPtr: nat)
    requires a.Length == PAYLOAD && i < |cells| && a[..] == Written(head, cells[..i])
    requires cellPtr == Ptr(cells, i) && cellPtr + |cells[i]| <= PAYLOAD
    requires dirPtr == |head| + SLOT * i <= PAYLOAD - SLOT
    modifies a
    ensures a[..] == Written(head, cells[..i + 1])
  {
    hide Written, BigEndian, Ptr, Over;
    NumberLength(cellPtr, 2);
    WriteAt(a, cellPtr, cells[i]);
    WriteAt(a, dirPtr, BigEndian(cellPtr, 2));
    NextWritten(head, cells, i);
  }

  lemma {:induction false} StartsWritten(head: Bytes, cells: seq<Bytes>, b: Bytes)
    requires |head| <= PAYLOAD && b == Over(Zeros(PAYLOAD), 0, head)
    ensures Sum(cells[..0]) == 0 && b == Written(head, cells[..0])
  {
  }

  lemma NextPtr(cells: seq<Bytes>, i: nat, cellPtr: nat)
    requires i < |cells| && cellPtr == PAYLOAD - Sum(cells[..i])
    ensures (cellPtr - |cells[i]|) % HALF == Ptr(cells, i)
  {
    SumStep(cells, i);
  }

  lemma {:induction false} NextWritten(head: Bytes, cells: seq<Bytes>, i: nat)
    requires i < |cells|
    ensures Over(Over(Written(head, cells[..i]), Ptr(cells, i), cells[i]), |head| + SLOT * i,
            BigEndian(Ptr(cells, i), 2))
         == Written(head, cells[..i + 1])
  {
    hide Sum, BigEndian, Over, Written;
    var more := cells[..i + 1];
    assert more[..i] == cells[..i] && more[i] == cells[i];
    WrittenStep(head, more);
  }

  // ---------------------------------------------------------------- a page that does not fit

  /** Keys 0, 1, 2, ... as unsigned numbers, each with a text of five bytes: cells of 19 bytes. */
  function CountedKeys(n: nat): seq<Key> {
    seq(n, i requires i >= 0 => Key(UInt64, BigEndian(i, 8)))
  }

  function ShortTexts(n: nat): seq<Value> {
    seq(n, i => Value(Text, [0, 0, 0, 0, 0]))
  }

  function CountedCells(n: nat): seq<Bytes> {
    LeafCells(CountedKeys(n), ShortTexts(n))
  }

  lemma CountedCell(n: nat, i: nat)
    requires i < n
    ensures ValidKey(CountedKeys(n)[i]) && |CountedCells(n)[i]| == 19 && CountedCells(n)[i][1..3] == BigEndian(8, 2)
  {
    hide BigEndian;
    NumberLength(i, 8);
    NumberLength(8, 2);
    NumberLength(5, 2);
  }

  lemma {:induction false} CountedSum(n: nat, i: nat)
    requires i <= n
    ensures Sum(CountedCells(n)[..i]) == 19 * i
  {
    hide LeafCell;
    if i > 0 {
      CountedSum(n, i - 1);
      CountedCell(n, i - 1);
      SumStep(CountedCells(n), i - 1);
    }
  }

  /** 193 such cells fit; with one more they are still shorter than the page, but the last cell lies over the
      directory. */
  lemma CountedFits(n: nat)
    ensures Fits(LEAF_HEAD, CountedCells(n)) <==> n <= 193
    ensures Inside(CountedCells(n)) <==> n <= 214
  {
    CountedSum(n, n);
    assert CountedCells(n)[..n] == CountedCells(n);
    InsideExactlyWhen(CountedCells(n));
  }

  /** The leaf with 194 such entries is written without leaving the page and cannot be read again: its last cell is
      written over directory entries, and entry 190 then leads into the directory. */
  lemma OverfullLeafIsLost(validValue: Value -> bool)
    requires validValue(Value(Text, [0, 0, 0, 0, 0]))
    ensures LeafStorable(CountedKeys(194), ShortTexts(194), validValue) && Inside(CountedCells(194))
    ensures DecodeLeaf(Written(LeafHead(194, Sum(CountedCells(194))), CountedCells(194)), validValue) == None
  {
    hide Sum, BigEndian, FromBigEndian, LeafSlots, LeafCell, Written, Inside, ValidKey;
    CountedStorable(194, validValue);
    CountedFits(194);
    CountedSum(194, 194);
    assert CountedCells(194)[..194] == CountedCells(194);
    LeafHeadIs(194, 3686);
    var head := LeafHead(194, 3686);
    var b := Written(head, CountedCells(194));
    OverfullBytes(head, b);
    TwoBytes(8);
    assert b[1..3] == b[..LEAF_HEAD][1..3] && b[0] == b[..LEAF_HEAD][0];
    assert Slot(b, LEAF_HEAD, 190) == b[8..];
    assert ParseLeafCell(b[8..], validValue) == None;
    assert LeafSlots(b, 191, validValue).None? by { SlotStops(b, 190, validValue); }
    LeafStops(b, 191, 194, validValue);
  }

  lemma CountedStorable(n: nat, validValue: Value -> bool)
    requires validValue(Value(Text, [0, 0, 0, 0, 0]))
    ensures LeafStorable(CountedKeys(n), ShortTexts(n), validValue)
  {
    hide ValidKey, LeafCell;
    forall i | 0 <= i < n ensures ValidKey(CountedKeys(n)[i]) { CountedCell(n, i); }
  }

  lemma SlotStops(b: Bytes, i: nat, validValue: Value -> bool)
    requires ParseLeafCell(Slot(b, LEAF_HEAD, i), validValue) == None
    ensures LeafSlots(b, i + 1, validValue).None?
  {
  }

  /** The bytes that matter: the header and the first directory entry are as written, entry 190 is bytes 1 and 2 of
      the last cell. */
  lemma OverfullBytes(head: Bytes, b: Bytes)
    requires |head| == LEAF_HEAD && b == Written(head, CountedCells(194))
    ensures |b| == PAYLOAD && b[..LEAF_HEAD] == head && b[8] == 213 && b[387..389] == BigEndian(8, 2)
  {
    hide Sum, BigEndian, Written, LeafCell, Packed, Directory, Zeros;
    var cells := CountedCells(194);
    var front := cells[..193];
    CountedSum(194, 193);
    CountedSum(194, 194);
    assert cells[..194] == cells;
    CountedCell(194, 193);
    CountedCell(194, 0);
    assert front[0] == cells[0];
    WrittenIsLaid(head, front);
    LaidLength(head, front);
    FirstEntry(head, front);
    LastOver(head, cells, front, b);
    NumberLength(386, 2);
  }

  lemma {:induction false} LastOver(head: Bytes, cells: seq<Bytes>, front: seq<Bytes>, b: Bytes)
    requires |cells| == 194 && front == cells[..193] && b == Written(head, cells) && Sum(cells) == 3686
    ensures b == Over(Over(Written(head, front), 386, cells[193]), |head| + 386, BigEndian(386, 2))
  {
    hide Sum, BigEndian;
  }

  lemma LowByte(high: Byte, low: Byte)
    ensures |BigEndian(256 * high + low, 2)| == 2 && BigEndian(256 * high + low, 2)[1] == low
  {
    NumberLength(256 * high + low, 2);
    assert (256 * high + low) % 256 == low;
  }

  lemma FirstEntry(head: Bytes, cells: seq<Bytes>)
    requires |head| == LEAF_HEAD && Fits(LEAF_HEAD, cells) && cells != [] && |cells[0]| == 19
    ensures Laid(head, cells)[..LEAF_HEAD] == head && |Laid(head, cells)| == PAYLOAD && Laid(head, cells)[8] == 213
  {
    hide Sum, Directory, Packed, Zeros, BigEndian;
    LaidLength(head, cells);
    DirectoryAt(cells, 0);
    SumStep(cells, 0);
    SumNone(cells);
    assert StartOf(cells, 0) == 4053;
    Regions(head, Directory(cells), Zeros(PAYLOAD - |head| - SLOT * |cells| - Sum(cells)), Packed(cells), 0);
    LowByte(15, 213);
    assert Laid(head, cells)[7..9][1] == Laid(head, cells)[8];
  }

  /** 126 numbered keys with texts of 16 bytes, then one byte-string key with a text of 25 bytes. */
  function LuckyKeys(): seq<Key> {
    CountedKeys(126) + [Key(Kind.Bytes, [0])]
  }

  function LuckyValues(): seq<Value> {
    seq(126, i => Value(Text, Zeros(16))) + [Value(Text, Zeros(25))]
  }

  function LuckyCells(): seq<Bytes> {
    LeafCells(LuckyKeys(), LuckyValues())
  }

  lemma LuckyCell(i: nat)
    requires i < 127
    ensures ValidKey(LuckyKeys()[i]) && |LuckyCells()[i]| == (if i < 126 then 30 else 32)
    ensures i == 126 ==> LuckyCells()[i][0] == 4
  {
    hide BigEndian;
    LeafCellLength(LuckyKeys()[i], LuckyValues()[i]);
    NumberLength(i, 8);
  }

  lemma {:induction false} LuckySum(i: nat)
    requires i <= 126
    ensures Sum(LuckyCells()[..i]) == 30 * i
  {
    hide LeafCell;
    if i > 0 {
      LuckySum(i - 1);
      LuckyCell(i - 1);
      SumStep(LuckyCells(), i - 1);
    }
  }

  /** The other way round there is no such rule: these 127 cells do not fit, the last directory entry is written over
      the first byte of the last cell, and since both bytes happen to be 4 the page is read back as it was. */
  lemma UnfitMayBeRead(validValue: Value -> bool)
    requires validValue(Value(Text, Zeros(16))) && validValue(Value(Text, Zeros(25)))
    ensures !Fits(LEAF_HEAD, LuckyCells())
    ensures DecodeLeaf(Written(LeafHead(127, Sum(LuckyCells())), LuckyCells()), validValue)
            == Some((LuckyKeys(), LuckyValues()))
  {
    hide Sum, LeafSlots, LeafCell, Written, ValidKey, FromBigEndian, LeadsTo, LeafStorable, LeafHead, Directory, Packed;
    var cells := LuckyCells();
    LuckyTotal();
    LeafHeadIs(127, 3812);
    var head := LeafHead(127, 3812);
    var b := Written(head, cells);
    LuckyBytes(head, b);
    LuckyLeads(head, b);
    LuckyStorable(validValue);
    LeafSlotsAre(b, LuckyKeys(), LuckyValues(), 127, validValue);
    assert LuckyKeys()[..127] == LuckyKeys() && LuckyValues()[..127] == LuckyValues();
    FrontStays(head, Directory(cells[..126]), [1], Packed(cells), b);
  }

  lemma LuckyTotal()
    ensures Sum(LuckyCells()[..126]) == 3780 && Sum(LuckyCells()) == 3812 && |LuckyCells()| == 127
    ensures Fits(LEAF_HEAD, LuckyCells()[..126])
  {
    hide LeafCell;
    var cells := LuckyCells();
    LuckySum(126);
    LuckyCell(126);
    SumStep(cells, 126);
    assert cells[..127] == cells;
  }

  lemma LuckyStorable(validValue: Value -> bool)
    requires validValue(Value(Text, Zeros(16))) && validValue(Value(Text, Zeros(25)))
    ensures LeafStorable(LuckyKeys(), LuckyValues(), validValue)
  {
    hide ValidKey, LeafCell;
    forall i | 0 <= i < 127 ensures ValidKey(LuckyKeys()[i]) { LuckyCell(i); }
  }

  /** No gap is left: the high byte of the last directory entry, then the cells. */
  lemma LuckyBytes(head: Bytes, b: Bytes)
    requires |head| == LEAF_HEAD && b == Written(head, LuckyCells())
    ensures Sum(LuckyCells()[..126]) <= PAYLOAD
    ensures b == head + Directory(LuckyCells()[..126]) + [1] + Packed(LuckyCells())
  {
    hide Sum, BigEndian, LeafCell, Directory, Zeros, Written, Over, Packed;
    var cells := LuckyCells();
    var front := cells[..126];
    LuckyTotal();
    LuckyCell(126);
    WrittenIsLaid(head, front);
    DirectoryLength(front);
    PackedLength(front);
    LastWritten(head, cells, 126);
    LowByte(1, 4);
    HighByte(1, 4);
    SumStep(cells, 126);
    assert cells[..127] == cells;
    ZerosLength(33);
    Squeezed(head, Directory(front), Zeros(33), Packed(front), cells[126], BigEndian(260, 2), b);
  }

  lemma {:induction false} LastWritten(head: Bytes, cells: seq<Bytes>, n: nat)
    requires |cells| == n + 1 && Sum(cells) <= PAYLOAD
    ensures var at := PAYLOAD - Sum(cells);
            Written(head, cells)
              == Over(Over(Written(head, cells[..n]), at, cells[n]), |head| + SLOT * n, BigEndian(at, 2))
  {
    hide Sum, BigEndian, Over, Written;
    SmallStays(PAYLOAD - Sum(cells));
    WrittenStep(head, cells);
  }

  lemma SmallStays(x: nat)
    requires x < HALF
    ensures x % HALF == x
  {
  }

  lemma {:induction false} WrittenStep(head: Bytes, cells: seq<Bytes>)
    requires cells != []
    ensures var n := |cells| - 1;
            var at := (PAYLOAD - Sum(cells)) % HALF;
            Written(head, cells)
              == Over(Over(Written(head, cells[..n]), at, cells[n]), |head| + SLOT * n, BigEndian(at, 2))
  {
    hide Sum, BigEndian, Over;
  }

  lemma ZerosLength(n: nat)
    ensures |Zeros(n)| == n
  {
  }

  lemma HighByte(high: Byte, low: Byte)
    ensures |BigEndian(256 * high + low, 2)| == 2 && BigEndian(256 * high + low, 2)[0] == high
  {
    NumberLength(256 * high + low, 2);
    assert (256 * high + low) / 256 == high;
    assert BigEndian(high, 1) == BigEndian(0, 0) + [high];
  }

  lemma Squeezed(head: Bytes, dir: Bytes, gap: Bytes, packed: Bytes, cell: Bytes, entry: Bytes, b: Bytes)
    requires |gap| == |cell| + 1 && |entry| == 2 && cell != [] && entry[1] == cell[0]
    requires b == Over(Over(head + dir + gap + packed, |head| + |dir| + 1, cell), |head| + |dir|, entry)
    ensures b == head + dir + [entry[0]] + (cell + packed)
  {
    var a := head + dir + gap + packed;
    var at := |head| + |dir|;
    assert a[..at + 1] == head + dir + [gap[0]] && a[at + 1 + |cell|..] == packed;
    var c := Over(a, at + 1, cell);
    assert c == (head + dir) + ([gap[0]] + (cell + packed));
    assert c[..at] == head + dir && c[at + 2..] == cell[1..] + packed;
    assert entry == [entry[0]] + [cell[0]] && cell == [cell[0]] + cell[1..];
  }

  lemma FrontStays(head: Bytes, dir: Bytes, x: Bytes, packed: Bytes, b: Bytes)
    requires |head| == LEAF_HEAD && b == head + dir + x + packed
    ensures |b| >= LEAF_HEAD && b[0] == head[0] && b[1..3] == head[1..3]
  {
    assert b == head + (dir + x + packed);
  }

  lemma LuckyLeads(head: Bytes, b: Bytes)
    requires |head| == LEAF_HEAD && Sum(LuckyCells()[..126]) <= PAYLOAD
    requires b == head + Directory(LuckyCells()[..126]) + [1] + Packed(LuckyCells())
    ensures LeadsTo(b, LEAF_HEAD, LuckyCells())
  {
    hide Sum, Packed, Slot, LeafCell, Directory;
    var cells := LuckyCells();
    LuckyTotal();
    forall i | 0 <= i < 127 ensures Slot(b, LEAF_HEAD, i) == cells[i] + Packed(cells[..i]) {
      if i < 126 { LuckyEntry(head, b, i); } else { LuckyLast(head, b); }
    }
  }

  lemma LuckyEntry(head: Bytes, b: Bytes, i: nat)
    requires |head| == LEAF_HEAD && Sum(LuckyCells()[..126]) <= PAYLOAD && i < 126
    requires b == head + Directory(LuckyCells()[..126]) + [1] + Packed(LuckyCells())
    ensures Slot(b, LEAF_HEAD, i) == LuckyCells()[i] + Packed(LuckyCells()[..i])
  {
    hide Sum, Packed, BigEndian, FromBigEndian, Directory, Slot, LeafCell;
    var cells := LuckyCells();
    var front := cells[..126];
    LuckyTotal();
    assert front[..i + 1] == cells[..i + 1];
    DirectoryAt(front, i);
    PackedFrom(cells, i + 1);
    SumStep(cells, i);
    Regions(head, Directory(front), [1], Packed(cells), SLOT * i);
    TwoBytes(StartOf(front, i));
    SlotFrom(b, LEAF_HEAD, i, Packed(cells), StartOf(front, i), Sum(cells) - Sum(cells[..i + 1]));
  }

  lemma LuckyLast(head: Bytes, b: Bytes)
    requires |head| == LEAF_HEAD && Sum(LuckyCells()[..126]) <= PAYLOAD
    requires b == head + Directory(LuckyCells()[..126]) + [1] + Packed(LuckyCells())
    ensures Slot(b, LEAF_HEAD, 126) == LuckyCells()[126] + Packed(LuckyCells()[..126])
  {
    hide Sum, BigEndian, FromBigEndian, Directory, Slot, LeafCell;
    var cells := LuckyCells();
    var front := cells[..126];
    LuckyTotal();
    LuckyCell(126);
    DirectoryLength(front);
    PackedLength(cells);
    SumStep(cells, 126);
    assert cells[..127] == cells;
    assert b[259] == 1 && b[260] == 4;
    assert b[259..261] == [1, 4];
    HighByte(1, 4);
    LowByte(1, 4);
    assert BigEndian(260, 2) == [1, 4];
    TwoBytes(260);
    assert b[260..] == Packed(cells) by { DropSlice(head + Directory(front) + [1], Packed(cells), 0); }
    assert Packed(cells)[0..] == Packed(cells);
    SlotFrom(b, LEAF_HEAD, 126, Packed(cells), 260, 0);
  }

  /** Adds up the cell sizes in 16 bits. */
  method TotalBytes(cells: seq<Bytes>) returns (total: nat)
    ensures total == Sum(cells) % HALF
  {
    total := 0;
    hide Sum;
    SumNone(cells);
    for i := 0 to |cells|
      invariant total == Sum(cells[..i]) % HALF
    {
      SumStep(cells, i);
      AddWraps(Sum(cells[..i]), |cells[i]|);
      total := (total + |cells[i]|) % HALF;
    }
    assert cells[..|cells|] == cells;
  }

  lemma SumNone(cells: seq<Bytes>)
    ensures Sum(cells[..0]) == 0
  {
  }

  lemma AddWraps(x: nat, y: nat)
    ensures (x % HALF + y) % HALF == (x + y) % HALF
  {
  }

  lemma LeafCellLength(k: Key, v: Value)
    ensures |LeafCell(k, v)| == 6 + |k.data| + |v.data|
  {
    hide BigEndian;
    NumberLength(|k.data|, 2);
    NumberLength(|v.data|, 2);
  }

  lemma InternalCellLength(k: Key, child: nat)
    ensures |InternalCell(k, child)| == 7 + |k.data|
  {
    hide BigEndian;
    NumberLength(|k.data|, 2);
    NumberLength(child, 4);
  }

  lemma LeafPlausible(keys: seq<Key>, values: seq<Value>, total: nat)
    requires |keys| == |values|
    ensures Plausible(LeafHead(|keys|, total), LeafCells(keys, values))
  {
    hide BigEndian;
    NumberLength(|keys| % HALF, 2);
    NumberLength((LEAF_HEAD + SLOT * |keys|) % HALF, 2);
    NumberLength((PAYLOAD - total - 1) % HALF, 2);
    forall i | 0 <= i < |keys| ensures |LeafCells(keys, values)[i]| >= 6 {
      LeafCellLength(keys[i], values[i]);
    }
  }

  lemma InternalPlausible(keys: seq<Key>, children: seq<nat>, total: nat)
    requires |children| == |keys| + 1
    ensures Plausible(InternalHead(|keys|, total, children[0]), InternalCells(keys, children))
  {
    hide BigEndian;
    NumberLength(|keys| % HALF, 2);
    NumberLength((INTERNAL_HEAD + SLOT * |keys|) % HALF, 2);
    NumberLength((PAYLOAD - total - 1) % HALF, 2);
    NumberLength(children[0], 4);
    forall i | 0 <= i < |keys| ensures |InternalCells(keys, children)[i]| >= 6 {
      InternalCellLength(keys[i], children[i + 1]);
    }
  }

  class LeafPage {
    const page: array<Byte>
    const validValue: Value -> bool
    var keys: seq<Key>
    var values: seq<Value>

    constructor (page: array<Byte>, validValue: Value -> bool)
      ensures this.page == page && this.validValue == validValue && keys == [] && values == []
    {
      this.page, this.validValue, keys, values := page, validValue, [], [];
    }

    /** Writes keys and values into the page. What fits is read back as it was; what does not damages the page or
        leaves it. */
    method Flush() returns (inside: bool)
      requires page.Length == PAYLOAD && LeafStorable(keys, values, validValue)
      modifies page
      ensures inside <==> Sum(LeafCells(keys, values)) <= PAYLOAD
      ensures inside ==> page[..] == Written(LeafHead(|keys|, Sum(LeafCells(keys, values))), LeafCells(keys, values))
      ensures Fits(LEAF_HEAD, LeafCells(keys, values)) ==>
              inside && DecodeLeaf(page[..], validValue) == Some((keys, values))
    {
      hide LeafHead, Written, Laid, DecodeLeaf, LeafStorable, Sum, Inside;
      SameLength(keys, values, validValue);
      var cells := LeafCells(keys, values);
      InsideExactlyWhen(cells);
      var total := TotalBytes(cells);
      LeafPlausible(keys, values, total);
      inside := WritePage(page, LeafHead(|keys|, total), cells);
      if Fits(LEAF_HEAD, cells) {
        LeafRoundTrip(keys, values, validValue);
        WrittenIsLaid(LeafHead(|keys|, total), cells);
      }
    }

    /** Follows the directory and parses every cell; a malformed page is refused. */
    method Decode() returns (ok: bool)
      requires page.Length == PAYLOAD
      modifies `keys, `values
      ensures ok <==> DecodeLeaf(page[..], validValue).Some?
      ensures ok ==> DecodeLeaf(page[..], validValue) == Some((keys, values))
    {
      hide Slot, ParseLeafCell, FromBigEndian;
      keys, values := [], [];
      var b := page[..];
      if b[0] != 1 { return false; }
      var count := FromBigEndian(b[1..3]);
      for i := 0 to count
        invariant LeafSlots(b, i, validValue) == Some((keys, values))
      {
        match ParseLeafCell(Slot(b, LEAF_HEAD, i), validValue)
        case None =>
          LeafStops(b, i + 1, count, validValue);
          return false;
        case Some((key, value)) =>
          keys, values := keys + [key], values + [value];
      }
      return true;
    }
  }

  lemma {:induction false} LeafStops(b: Bytes, i: nat, count: nat, validValue: Value -> bool)
    requires i <= count && LeafSlots(b, i, validValue).None?
    ensures LeafSlots(b, count, validValue).None?
  {
    if i < count { LeafStops(b, i, count - 1, validValue); }
  }

  class InternalPage {
    const page: array<Byte>
    var keys: seq<Key>
    var children: seq<nat>

    constructor (page: array<Byte>)
      ensures this.page == page && keys == [] && children == []
    {
      this.page, keys, children := page, [], [];
    }

    /** Writes separators and children into the page. What fits is read back as it was; what does not damages the page
        or leaves it. */
    method Flush() returns (inside: bool)
      requires page.Length == PAYLOAD && InternalStorable(keys, children)
      modifies page
      ensures inside <==> Sum(InternalCells(keys, children)) <= PAYLOAD
      ensures inside ==>
              page[..] == Written(InternalHead(|keys|, Sum(InternalCells(keys, children)), children[0]),
              InternalCells(keys, children))
      ensures Fits(INTERNAL_HEAD, InternalCells(keys, children)) ==>
              inside && DecodeInternal(page[..]) == Some((keys, children))
    {
      hide InternalHead, Written, Laid, DecodeInternal, ValidKey, Sum, Inside;
      var cells := InternalCells(keys, children);
      InsideExactlyWhen(cells);
      var total := TotalBytes(cells);
      InternalPlausible(keys, children, total);
      inside := WritePage(page, InternalHead(|keys|, total, children[0]), cells);
      if Fits(INTERNAL_HEAD, cells) {
        InternalRoundTrip(keys, children);
        WrittenIsLaid(InternalHead(|keys|, total, children[0]), cells);
      }
    }

    /** Only a page without any child accepts a leftmost one. */
    method SetLeftmostChild(child: nat) returns (ok: bool)
      modifies `children
      ensures ok <==> old(children) == []
      ensures children == if ok then [child] else old(children)
    {
      if children != [] { return false; }
      children := [child];
      return true;
    }

    /** Follows the directory and parses every cell; a malformed page is refused. */
    method Decode() returns (ok: bool)
      requires page.Length == PAYLOAD
      modifies `keys, `children
      ensures ok <==> DecodeInternal(page[..]).Some?
      ensures ok ==> DecodeInternal(page[..]) == Some((keys, children))
    {
      hide Slot, ParseInternalCell, FromBigEndian;
      var b := page[..];
      keys, children := [], [];
      if b[0] != 0 { return false; }
      var leftmost := FromBigEndian(b[7..11]);
      children := [leftmost];
      var count := FromBigEndian(b[1..3]);
      for i := 0 to count
        invariant InternalSlots(b, leftmost, i) == Some((keys, children))
      {
        match ParseInternalCell(Slot(b, INTERNAL_HEAD, i))
        case None =>
          InternalStops(b, leftmost, i + 1, count);
          return false;
        case Some((key, child)) =>
          keys, children := keys + [key], children + [child];
      }
      return true;
    }
  }

  lemma {:induction false} InternalStops(b: Bytes, leftmost: nat, i: nat, count: nat)
    requires i <= count && InternalSlots(b, leftmost, i).None?
    ensures InternalSlots(b, leftmost, count).None?
  {
    if i < count { InternalStops(b, leftmost, i, count - 1); }
  }
}
