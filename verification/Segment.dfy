/** A log segment: the framed store, its derived index, and their repair after a crash. */
module Segments {
  import opened Sequences
  import opened Options
  import opened ByteStrings

  const LENGTH_SIZE: nat := 4
  const ENTRY_SIZE: nat := 12
  const WORD32: nat := 0x1_0000_0000

  // ---------------------------------------------------------------- the two files

  /** A length prefix and the payload. */
  function Frame(p: Bytes): Bytes {
    BigEndian(|p|, LENGTH_SIZE) + p
  }

  function Stream(ps: seq<Bytes>): Bytes {
    if ps == [] then [] else Stream(Front(ps)) + Frame(Last(ps))
  }

  /** Where record i starts. */
  function Offset(ps: seq<Bytes>, i: nat): nat
    requires i <= |ps|
  {
    |Stream(ps[..i])|
  }

  function Entry(ordinal: nat, offset: nat): Bytes {
    BigEndian(ordinal, 4) + BigEndian(offset, 8)
  }

  /** The index that belongs to these records. */
  function Canon(ps: seq<Bytes>): Bytes {
    if ps == [] then [] else Canon(Front(ps)) + Entry(|ps| - 1, Offset(ps, |ps| - 1))
  }

  /** Every number fits its field. */
  ghost predicate Small(ps: seq<Bytes>) {
    |ps| <= WORD32 && |Stream(ps)| < WORD && (forall i :: 0 <= i < |ps| ==> |ps[i]| < WORD32)
  }

  lemma Powers()
    ensures Power(4) == WORD32 && Power(8) == WORD
  {
    EightBytes();
    assert Power(1) == 256 && Power(2) == 65536;
  }

  lemma FrameLength(p: Bytes)
    ensures |Frame(p)| == LENGTH_SIZE + |p|
    ensures Frame(p)[..LENGTH_SIZE] == BigEndian(|p|, LENGTH_SIZE) && Frame(p)[LENGTH_SIZE..] == p
  {
    NumberLength(|p|, LENGTH_SIZE);
  }

  lemma EntryLength(i: nat, o: nat)
    ensures |Entry(i, o)| == ENTRY_SIZE && Entry(i, o)[..4] == BigEndian(i, 4) && Entry(i, o)[4..] == BigEndian(o, 8)
  {
    NumberLength(i, 4);
    NumberLength(o, 8);
  }

  lemma StreamStep(ps: seq<Bytes>, i: nat)
    requires i < |ps|
    ensures Stream(ps[..i + 1]) == Stream(ps[..i]) + Frame(ps[i])
    ensures Offset(ps, i + 1) == Offset(ps, i) + LENGTH_SIZE + |ps[i]|
  {
    assert Front(ps[..i + 1]) == ps[..i] && Last(ps[..i + 1]) == ps[i];
    FrameLength(ps[i]);
  }

  lemma {:induction false} StreamPrefix(ps: seq<Bytes>, i: nat)
    requires i <= |ps|
    ensures Stream(ps[..i]) <= Stream(ps)
    decreases |ps| - i
  {
    if i < |ps| {
      StreamStep(ps, i);
      StreamPrefix(ps, i + 1);
    } else {
      assert ps[..i] == ps;
    }
  }

  /** The bytes of record i inside the stream. */
  lemma StreamAt(ps: seq<Bytes>, i: nat)
    requires i < |ps|
    ensures var o := Offset(ps, i);
            && o + LENGTH_SIZE + |ps[i]| == Offset(ps, i + 1) <= |Stream(ps)|
            && Stream(ps)[o..o + LENGTH_SIZE] == BigEndian(|ps[i]|, LENGTH_SIZE)
            && Stream(ps)[o + LENGTH_SIZE..o + LENGTH_SIZE + |ps[i]|] == ps[i]
  {
    hide Stream;
    StreamStep(ps, i);
    StreamPrefix(ps, i + 1);
    FrameLength(ps[i]);
    InnerSlices(Stream(ps), Stream(ps[..i]), Frame(ps[i]), LENGTH_SIZE);
  }

  lemma InnerSlices(whole: Bytes, a: Bytes, b: Bytes, n: nat)
    requires a + b <= whole && n <= |b|
    ensures whole[|a|..|a| + n] == b[..n] && whole[|a| + n..|a| + |b|] == b[n..]
  {
    assert whole[..|a| + |b|] == a + b;
    assert whole[|a|..|a| + n] == (a + b)[|a|..|a| + n];
    assert whole[|a| + n..|a| + |b|] == (a + b)[|a| + n..|a| + |b|];
  }

  lemma {:induction false} OffsetsGrow(ps: seq<Bytes>, i: nat, j: nat)
    requires i <= j <= |ps|
    ensures Offset(ps, i) + LENGTH_SIZE * (j - i) <= Offset(ps, j)
    decreases j
  {
    if i < j {
      OffsetsGrow(ps, i, j - 1);
      StreamStep(ps, j - 1);
    }
  }

  lemma {:induction false} CanonLength(ps: seq<Bytes>)
    ensures |Canon(ps)| == ENTRY_SIZE * |ps|
  {
    if ps != [] {
      CanonLength(Front(ps));
      EntryLength(|ps| - 1, Offset(ps, |ps| - 1));
    }
  }

  lemma CanonStep(ps: seq<Bytes>, i: nat)
    requires i < |ps|
    ensures Canon(ps[..i + 1]) == Canon(ps[..i]) + Entry(i, Offset(ps, i))
  {
    assert Front(ps[..i + 1]) == ps[..i] && ps[..i + 1][..i] == ps[..i];
  }

  lemma {:induction false} CanonPrefix(ps: seq<Bytes>, i: nat)
    requires i <= |ps|
    ensures Canon(ps[..i]) <= Canon(ps)
    decreases |ps| - i
  {
    if i < |ps| {
      CanonStep(ps, i);
      CanonPrefix(ps, i + 1);
    } else {
      assert ps[..i] == ps;
    }
  }

  lemma CanonAt(ps: seq<Bytes>, i: nat)
    requires i < |ps|
    ensures |Canon(ps)| >= ENTRY_SIZE * (i + 1)
    ensures Canon(ps)[ENTRY_SIZE * i..ENTRY_SIZE * i + 4] == BigEndian(i, 4)
    ensures Canon(ps)[ENTRY_SIZE * i + 4..ENTRY_SIZE * i + ENTRY_SIZE] == BigEndian(Offset(ps, i), 8)
  {
    hide Canon, Stream;
    CanonStep(ps, i);
    CanonPrefix(ps, i + 1);
    CanonLength(ps);
    CanonLength(ps[..i]);
    EntryLength(i, Offset(ps, i));
    InnerSlices(Canon(ps), Canon(ps[..i]), Entry(i, Offset(ps, i)), 4);
  }

  // ---------------------------------------------------------------- reading the files

  /** The payload of the frame at an offset, if it lies completely within the file. */
  function FrameAt(file: Bytes, offset: nat): Option<Bytes> {
    if offset >= |file| || |file| - offset < LENGTH_SIZE then None
    else
      var size := FromBigEndian(file[offset..offset + LENGTH_SIZE]);
      var start := offset + LENGTH_SIZE;
      if size > |file| - start then None else Some(file[start..start + size])
  }

  /** All complete frames from the start of the file on. */
  function Frames(file: Bytes): seq<Bytes>
    decreases |file|
  {
    var first := FrameAt(file, 0);
    if first.None? then [] else [first.value] + Frames(file[LENGTH_SIZE + |first.value|..])
  }

  /** The store offset in an index entry, if the entry is complete and carries its own ordinal. */
  function EntryAt(file: Bytes, ordinal: nat): Option<nat> {
    var at := ENTRY_SIZE * ordinal;
    if at + ENTRY_SIZE > |file| || FromBigEndian(file[at..at + 4]) != ordinal then None
    else Some(FromBigEndian(file[at + 4..at + ENTRY_SIZE]))
  }

  // ---------------------------------------------------------------- what survives a crash

  /** The number of records that lie completely within the first `size` bytes. */
  function Fits(ps: seq<Bytes>, size: nat): (k: nat)
    ensures k <= |ps|
  {
    if ps == [] || |Stream(ps)| <= size then |ps| else Fits(Front(ps), size)
  }

  lemma {:induction false} FitsIs(ps: seq<Bytes>, size: nat, k: nat)
    requires k <= |ps| && Offset(ps, k) <= size && (k < |ps| ==> Offset(ps, k + 1) > size)
    ensures Fits(ps, size) == k
  {
    assert ps[..|ps|] == ps;
    if k < |ps| {
      OffsetsGrow(ps, k + 1, |ps|);
      assert Front(ps)[..k] == ps[..k];
      if k + 1 < |ps| { assert Front(ps)[..k + 1] == ps[..k + 1]; }
      FitsIs(Front(ps), size, k);
    }
  }

  /** Both files are byte prefixes of what the records would have made them; either may be ahead. */
  ghost predicate CrashOf(ps: seq<Bytes>, store: Bytes, index: Bytes) {
    Small(ps) && store <= Stream(ps) && index <= Canon(ps)
  }

  /** Payloads decode to consecutive numbers from base on. */
  ghost predicate Numbered(ps: seq<Bytes>, base: nat, numberOf: Bytes -> Option<nat>) {
    forall i :: 0 <= i < |ps| ==> numberOf(ps[i]) == Some(base + i)
  }

  /** A frame that fits is read back; one that does not is refused. */
  lemma FrameReads(ps: seq<Bytes>, file: Bytes, i: nat)
    requires Small(ps) && file <= Stream(ps) && i < |ps|
    ensures Offset(ps, i + 1) == Offset(ps, i) + LENGTH_SIZE + |ps[i]|
    ensures FrameAt(file, Offset(ps, i)) == if Offset(ps, i + 1) <= |file| then Some(ps[i]) else None
  {
    hide Stream, BigEndian, FromBigEndian;
    StreamAt(ps, i);
    ReadLength(ps, i);
    var o := Offset(ps, i);
    if o < |file| && |file| - o >= LENGTH_SIZE {
      PrefixSlice(file, Stream(ps), o, o + LENGTH_SIZE);
      if Offset(ps, i + 1) <= |file| { PrefixSlice(file, Stream(ps), o + LENGTH_SIZE, o + LENGTH_SIZE + |ps[i]|); }
    }
  }

  lemma ReadLength(ps: seq<Bytes>, i: nat)
    requires Small(ps) && i < |ps|
    ensures FromBigEndian(BigEndian(|ps[i]|, LENGTH_SIZE)) == |ps[i]|
  {
    Powers();
    BigEndianInverse(|ps[i]|, LENGTH_SIZE);
  }

  /** Complete entries of a prefix of the canonical index give the offsets of the records. */
  lemma EntryReads(ps: seq<Bytes>, file: Bytes, i: nat)
    requires Small(ps) && file <= Canon(ps) && ENTRY_SIZE * i + ENTRY_SIZE <= |file|
    ensures i < |ps| && EntryAt(file, i) == Some(Offset(ps, i))
  {
    hide Canon, Stream, BigEndian, FromBigEndian;
    CanonLength(ps);
    assert i < |ps|;
    CanonAt(ps, i);
    ReadOrdinal(ps, i);
    EntryFrom(Canon(ps), file, i, Offset(ps, i));
  }

  lemma EntryFrom(canon: Bytes, file: Bytes, i: nat, offset: nat)
    requires file <= canon && ENTRY_SIZE * i + ENTRY_SIZE <= |file|
    requires FromBigEndian(canon[ENTRY_SIZE * i..ENTRY_SIZE * i + 4]) == i
    requires FromBigEndian(canon[ENTRY_SIZE * i + 4..ENTRY_SIZE * i + ENTRY_SIZE]) == offset
    ensures EntryAt(file, i) == Some(offset)
  {
    hide FromBigEndian;
    var at := ENTRY_SIZE * i;
    PrefixSlice(file, canon, at, at + 4);
    PrefixSlice(file, canon, at + 4, at + ENTRY_SIZE);
  }

  lemma ReadOrdinal(ps: seq<Bytes>, i: nat)
    requires Small(ps) && i < |ps|
    ensures FromBigEndian(BigEndian(i, 4)) == i && FromBigEndian(BigEndian(Offset(ps, i), 8)) == Offset(ps, i)
  {
    Powers();
    BigEndianInverse(i, 4);
    StreamPrefix(ps, i);
    BigEndianInverse(Offset(ps, i), 8);
  }

  /** Reading one frame further on is reading at the shifted offset. */
  lemma FrameShift(file: Bytes, offset: nat)
    requires offset <= |file|
    ensures FrameAt(file[offset..], 0) == FrameAt(file, offset)
  {
    var rest := file[offset..];
    if |rest| >= LENGTH_SIZE {
      assert rest[0..LENGTH_SIZE] == file[offset..offset + LENGTH_SIZE];
      var size := FromBigEndian(rest[0..LENGTH_SIZE]);
      if size <= |rest| - LENGTH_SIZE {
        assert rest[LENGTH_SIZE..LENGTH_SIZE + size] == file[offset + LENGTH_SIZE..offset + LENGTH_SIZE + size];
      }
    }
  }

  /** The parser stops exactly behind the last record that fits. */
  lemma {:induction false} FramesFrom(ps: seq<Bytes>, file: Bytes, i: nat)
    requires Small(ps) && file <= Stream(ps) && i <= Fits(ps, |file|) && Offset(ps, i) <= |file|
    ensures Frames(file[Offset(ps, i)..]) == ps[i..Fits(ps, |file|)]
    decreases |ps| - i
  {
    hide Stream, FrameAt, Fits, Small;
    var o := Offset(ps, i);
    FrameShift(file, o);
    if i < |ps| {
      FrameReads(ps, file, i);
      if Offset(ps, i + 1) <= |file| {
        FitsBeyond(ps, |file|, i + 1);
        FramesFrom(ps, file, i + 1);
        assert file[o..][LENGTH_SIZE + |ps[i]|..] == file[Offset(ps, i + 1)..];
      } else {
        FitsIs(ps, |file|, i);
      }
    } else {
      FitsIs(ps, |file|, i);
      NothingLeft(ps, file);
    }
  }

  lemma NothingLeft(ps: seq<Bytes>, file: Bytes)
    requires file <= Stream(ps) && Offset(ps, |ps|) <= |file|
    ensures |file| == Offset(ps, |ps|) && FrameAt(file, Offset(ps, |ps|)) == None
  {
    assert ps[..|ps|] == ps;
  }

  lemma {:induction false} FitsBeyond(ps: seq<Bytes>, size: nat, k: nat)
    requires k <= |ps| && Offset(ps, k) <= size
    ensures k <= Fits(ps, size)
  {
    if k < |ps| && |Stream(ps)| > size {
      assert Front(ps)[..k] == ps[..k];
      FitsBeyond(Front(ps), size, k);
    } else {
      assert k == |ps| ==> ps[..k] == ps;
    }
  }

  /** After a crash the store parses to exactly the records that reached it whole. */
  lemma FramesAfterCrash(ps: seq<Bytes>, file: Bytes)
    requires Small(ps) && file <= Stream(ps)
    ensures Frames(file) == ps[..Fits(ps, |file|)]
  {
    hide Stream, Fits, Small, Frames;
    NoStream(ps);
    assert file[0..] == file;
    FramesFrom(ps, file, 0);
    assert ps[0..Fits(ps, |file|)] == ps[..Fits(ps, |file|)];
  }

  lemma NoStream(ps: seq<Bytes>)
    ensures Offset(ps, 0) == 0 && Stream(ps[..0]) == [] && Canon(ps[..0]) == []
  {
  }

  // ---------------------------------------------------------------- scanning the files

  lemma StreamMore(done: seq<Bytes>, p: Bytes)
    ensures Stream(done + [p]) == Stream(done) + Frame(p)
  {
    assert Front(done + [p]) == done;
  }

  lemma {:induction false} NumberBack(s: Bytes)
    ensures BigEndian(FromBigEndian(s), |s|) == s
  {
    if s != [] {
      var front := s[..|s| - 1];
      NumberBack(front);
      assert front + [s[|s| - 1]] == s;
    }
  }

  /** A frame that was read is a frame: its bytes are the length prefix and the payload. */
  lemma FrameBytes(file: Bytes, offset: nat)
    requires FrameAt(file, offset).Some?
    ensures var p := FrameAt(file, offset).value;
            offset + LENGTH_SIZE + |p| <= |file| && file[offset..offset + LENGTH_SIZE + |p|] == Frame(p)
  {
    hide BigEndian, FromBigEndian;
    var p := FrameAt(file, offset).value;
    NumberBack(file[offset..offset + LENGTH_SIZE]);
    assert file[offset..offset + LENGTH_SIZE + |p|] == file[offset..offset + LENGTH_SIZE] + p;
  }

  lemma Extended(file: Bytes, done: seq<Bytes>, valid: nat)
    requires valid <= |file| && FrameAt(file, valid).Some? && file[..valid] == Stream(done)
    requires Frames(file) == done + Frames(file[valid..])
    ensures var p := FrameAt(file, valid).value;
            var next := valid + LENGTH_SIZE + |p|;
            && next <= |file| && file[..next] == Stream(done + [p])
            && Frames(file) == (done + [p]) + Frames(file[next..])
  {
    hide FrameAt, Stream, Frame;
    var p := FrameAt(file, valid).value;
    var next := valid + LENGTH_SIZE + |p|;
    FrameBytes(file, valid);
    FrameShift(file, valid);
    StreamMore(done, p);
    assert file[..next] == file[..valid] + file[valid..next];
    assert file[valid..][LENGTH_SIZE + |p|..] == file[next..];
    assert (done + [p]) + Frames(file[next..]) == done + ([p] + Frames(file[next..]));
  }

  /** Walks the frames: how many are complete and where they end. */
  method InspectStore(file: Bytes) returns (count: nat, valid: nat)
    ensures count == |Frames(file)| && valid <= |file| && file[..valid] == Stream(Frames(file))
  {
    hide FrameAt, Stream, Frames;
    count, valid := 0, 0;
    ghost var done: seq<Bytes> := [];
    assert file[0..] == file;
    assert Stream([]) == [] by { NoStream([]); }
    while valid < |file|
      invariant valid <= |file| && count == |done| && file[..valid] == Stream(done)
      invariant Frames(file) == done + Frames(file[valid..])
      decreases |file| - valid
    {
      var frame := FrameAt(file, valid);
      if frame.None? {
        NoFrames(file, valid);
        assert done + [] == done;
        return;
      }
      Extended(file, done, valid);
      done := done + [frame.value];
      valid := valid + LENGTH_SIZE + |frame.value|;
      count := count + 1;
    }
    NoFrames(file, valid);
    assert done + [] == done;
  }

  lemma NoFrames(file: Bytes, offset: nat)
    requires offset <= |file| && (offset == |file| || FrameAt(file, offset).None?)
    ensures Frames(file[offset..]) == []
  {
    FrameShift(file, offset);
  }

  /** Every complete entry carries its own ordinal. */
  method InspectIndex(file: Bytes) returns (count: nat, corrupt: bool)
    ensures count <= |file| / ENTRY_SIZE && (forall i: nat :: i < count ==> EntryAt(file, i).Some?)
    ensures corrupt <==> exists i: nat :: i < |file| / ENTRY_SIZE && EntryAt(file, i).None?
    ensures corrupt ==> EntryAt(file, count).None?
    ensures !corrupt ==> count == |file| / ENTRY_SIZE
  {
    var complete := |file| / ENTRY_SIZE;
    for ordinal := 0 to complete
      invariant forall i: nat :: i < ordinal ==> EntryAt(file, i).Some?
    {
      if FromBigEndian(file[ENTRY_SIZE * ordinal..ENTRY_SIZE * ordinal + 4]) != ordinal {
        assert EntryAt(file, ordinal).None?;
        return ordinal, true;
      }
    }
    return complete, false;
  }

  // ---------------------------------------------------------------- repair

  /** What the files hold once the store is cut: k whole records, and an index that may lag or lead. */
  ghost predicate Repairable(base: nat, numberOf: Bytes -> Option<nat>, store: Bytes, ps: seq<Bytes>, k: nat) {
    Small(ps) && Numbered(ps, base, numberOf) && k <= |ps| && store == Stream(ps[..k]) && store <= Stream(ps)
  }

  /** The five phases: cut the store after its last complete frame, find the common part of both files, check the
      rest of the store, cut the index back to the common part, and append what it lacks. */
  method Recover(base: nat, numberOf: Bytes -> Option<nat>, storeFile: Bytes, indexFile: Bytes, ghost ps: seq<Bytes>)
    returns (store: Bytes, index: Bytes, count: nat, ok: bool)
    ensures ok ==> count == |Frames(storeFile)| && store == Stream(Frames(storeFile)) && |index| == ENTRY_SIZE * count
    ensures CrashOf(ps, storeFile, indexFile) && Numbered(ps, base, numberOf) ==>
              ok && count == Fits(ps, |storeFile|) && store == Stream(ps[..count]) && index == Canon(ps[..count])
  {
    hide *;
    ghost var crash := CrashOf(ps, storeFile, indexFile) && Numbered(ps, base, numberOf);
    var valid, entries, corrupt;
    count, valid := InspectStore(storeFile);
    store := storeFile[..valid];
    if crash { StoreCut(ps, storeFile, indexFile, base, numberOf, store, count); }
    entries, corrupt := InspectIndex(indexFile);
    if crash { IndexSound(ps, indexFile); }
    index, ok := [], false;
    if corrupt { return; }
    var common := if entries < count then entries else count;
    var cursor := 0;
    if common > 0 {
      cursor, ok := AfterCommon(base, numberOf, store, indexFile, common, ps, count);
      if !ok { return; }
    } else {
      NoStream(ps);
    }
    var missing;
    missing, ok := MissingOffsets(base, numberOf, store, common, cursor, ps, count);
    if !ok { return; }
    if common + |missing| != count {
      ok := false;
      return;
    }
    index := Rebuilt(indexFile, common, missing, ps, crash);
  }

  lemma StoreCut(ps: seq<Bytes>, storeFile: Bytes, indexFile: Bytes, base: nat, numberOf: Bytes -> Option<nat>,
      store: Bytes, count: nat)
    requires CrashOf(ps, storeFile, indexFile) && Numbered(ps, base, numberOf)
    requires count == |Frames(storeFile)| && store == Stream(Frames(storeFile)) && store <= storeFile
    ensures count == Fits(ps, |storeFile|) && Repairable(base, numberOf, store, ps, count)
    ensures store == Stream(ps[..count]) && indexFile <= Canon(ps) && Small(ps)
  {
    hide Stream, Frames, Fits, Numbered, Small;
    FramesAfterCrash(ps, storeFile);
  }

  lemma IndexSound(ps: seq<Bytes>, file: Bytes)
    requires Small(ps) && file <= Canon(ps)
    ensures forall i: nat :: i < |file| / ENTRY_SIZE ==> EntryAt(file, i).Some?
  {
    hide EntryAt, Canon, Small;
    forall i: nat | i < |file| / ENTRY_SIZE ensures EntryAt(file, i).Some? {
      EntryReads(ps, file, i);
    }
  }

  lemma OffsetOfPrefix(ps: seq<Bytes>, i: nat, k: nat)
    requires i <= k <= |ps|
    ensures Offset(ps, i) <= Offset(ps, k) == |Stream(ps[..k])|
    ensures i < k ==> Offset(ps, i) < Offset(ps, k)
  {
    OffsetsGrow(ps, i, k);
  }

  /** The last common entry leads to its record, and the rest of the store starts right after that record. */
  method AfterCommon(base: nat, numberOf: Bytes -> Option<nat>, store: Bytes, indexFile: Bytes, common: nat,
      ghost ps: seq<Bytes>, ghost k: nat)
    returns (cursor: nat, ok: bool)
    requires 0 < common
    ensures ok ==> cursor <= |store|
    ensures Repairable(base, numberOf, store, ps, k) && common <= k && indexFile <= Canon(ps)
            && ENTRY_SIZE * common <= |indexFile| ==>
              ok && cursor == Offset(ps, common)
  {
    hide EntryAt, FrameAt, Stream, Canon, Small;
    cursor, ok := 0, false;
    if Repairable(base, numberOf, store, ps, k) && common <= k && indexFile <= Canon(ps)
      && ENTRY_SIZE * common <= |indexFile|
    {
      OffsetOfPrefix(ps, common, k);
      EntryReads(ps, indexFile, common - 1);
      FrameReads(ps, store, common - 1);
    }
    var offset := EntryAt(indexFile, common - 1);
    if offset.None? { return; }
    var payload := FrameAt(store, offset.value);
    if payload.None? { return; }
    cursor := offset.value + LENGTH_SIZE + |payload.value|;
    ok := numberOf(payload.value) == Some(base + common - 1) && cursor <= |store|;
  }

  /** Reads on from the cursor to the end of the store, noting where each record starts. */
  method MissingOffsets(base: nat, numberOf: Bytes -> Option<nat>, store: Bytes, common: nat, start: nat,
      ghost ps: seq<Bytes>, ghost k: nat)
    returns (missing: seq<nat>, ok: bool)
    ensures Repairable(base, numberOf, store, ps, k) && common <= k && start == Offset(ps, common) ==>
              && ok && common + |missing| == k
              && (forall j :: 0 <= j < |missing| ==> missing[j] == Offset(ps, common + j))
  {
    hide FrameAt, Stream, Offset;
    ghost var sound := Repairable(base, numberOf, store, ps, k) && common <= k && start == Offset(ps, common);
    missing, ok := [], true;
    var cursor := start;
    if sound { OffsetOfPrefix(ps, common, k); }
    while cursor < |store|
      invariant sound ==> common + |missing| <= k && cursor == Offset(ps, common + |missing|) <= |store|
      invariant sound ==> forall j :: 0 <= j < |missing| ==> missing[j] == Offset(ps, common + j)
      decreases |store| - cursor
    {
      var i := common + |missing|;
      if sound { NextMissing(base, numberOf, store, ps, k, i); }
      var payload := FrameAt(store, cursor);
      if payload.None? || numberOf(payload.value) != Some(base + i) || i >= WORD32 { return missing, false; }
      missing := missing + [cursor];
      cursor := cursor + LENGTH_SIZE + |payload.value|;
    }
    if sound { OffsetOfPrefix(ps, common + |missing|, k); }
  }

  lemma NextMissing(base: nat, numberOf: Bytes -> Option<nat>, store: Bytes, ps: seq<Bytes>, k: nat, i: nat)
    requires Repairable(base, numberOf, store, ps, k) && i <= k && Offset(ps, i) < |store|
    ensures i < k && i < WORD32 && FrameAt(store, Offset(ps, i)) == Some(ps[i]) && numberOf(ps[i]) == Some(base + i)
    ensures Offset(ps, i + 1) == Offset(ps, i) + LENGTH_SIZE + |ps[i]| <= |store|
  {
    hide FrameAt, Stream;
    OffsetOfPrefix(ps, i, k);
    assert i < k;
    OffsetOfPrefix(ps, i + 1, k);
    FrameReads(ps, store, i);
  }

  /** Keeps the common entries and appends one entry for each missing record. */
  method Rebuilt(indexFile: Bytes, common: nat, missing: seq<nat>, ghost ps: seq<Bytes>, ghost sound: bool)
      returns (index: Bytes)
    requires ENTRY_SIZE * common <= |indexFile|
    requires sound ==>
             indexFile <= Canon(ps) && common + |missing| <= |ps|
             && (forall j :: 0 <= j < |missing| ==> missing[j] == Offset(ps, common + j))
    ensures |index| == ENTRY_SIZE * (common + |missing|)
    ensures sound ==> index == Canon(ps[..common + |missing|])
  {
    hide Canon, Entry, Offset;
    index := indexFile[..ENTRY_SIZE * common];
    if sound { CanonCut(ps, indexFile, common); }
    var at := common;
    for j := 0 to |missing|
      invariant at == common + j && |index| == ENTRY_SIZE * at
      invariant sound ==> index == Canon(ps[..at])
    {
      EntryLength(at, missing[j]);
      if sound { CanonStep(ps, at); }
      index := index + Entry(at, missing[j]);
      at := at + 1;
    }
  }

  lemma CanonCut(ps: seq<Bytes>, file: Bytes, k: nat)
    requires file <= Canon(ps) && k <= |ps| && ENTRY_SIZE * k <= |file|
    ensures file[..ENTRY_SIZE * k] == Canon(ps[..k])
  {
    hide Canon;
    CanonPrefix(ps, k);
    CanonLength(ps[..k]);
    PrefixSlice(file, Canon(ps), 0, ENTRY_SIZE * k);
  }

  // ---------------------------------------------------------------- the segment

  class Segment {
    const base: nat
    const numberOf: Bytes -> Option<nat>
    var store: Bytes
    var index: Bytes
    var next: nat
    var recoveryRequired: bool
    ghost var records: seq<Bytes>

    ghost predicate Valid()
      reads this
    {
      && Small(records) && Numbered(records, base, numberOf)
      && store == Stream(records) && index == Canon(records) && next == base + |records|
    }

    constructor (base: nat, numberOf: Bytes -> Option<nat>, store: Bytes, index: Bytes, next: nat,
        ghost records: seq<Bytes>)
      ensures this.base == base && this.numberOf == numberOf && this.store == store && this.index == index
      ensures this.next == next && this.records == records && !recoveryRequired
    {
      this.base, this.numberOf := base, numberOf;
      this.store, this.index, this.next, this.records := store, index, next, records;
      recoveryRequired := false;
    }

    /** Appends the payload that carries the next number; anything else is refused, and a payload too long for its
        length prefix also shuts the segment until it is opened again. */
    method Append(payload: Bytes) returns (ok: bool)
      requires Valid() && |store| + LENGTH_SIZE + |payload| < WORD
      modifies this
      ensures Valid()
      ensures ok <==> && !old(recoveryRequired) && numberOf(payload) == Some(old(next))
                      && |old(records)| < WORD32 && |payload| < WORD32
      ensures records == if ok then old(records) + [payload] else old(records)
      ensures ok ==> !recoveryRequired
      ensures old(recoveryRequired) ==> recoveryRequired
    {
      hide Stream, Canon, Frame, Entry;
      if recoveryRequired || numberOf(payload) != Some(next) || next - base >= WORD32 { return false; }
      if |payload| >= WORD32 {
        recoveryRequired := true;
        return false;
      }
      Appended(records, payload);
      index := index + Entry(next - base, |store|);
      store := store + Frame(payload);
      next := next + 1;
      records := records + [payload];
      return true;
    }

    /** Finds the record by its number through the index. */
    method Read(number: nat) returns (payload: Option<Bytes>)
      requires Valid()
      ensures payload == if base <= number < next then Some(records[number - base]) else None
    {
      hide Stream, Canon, EntryAt, FrameAt;
      if number < base || number >= next { return None; }
      var i := number - base;
      CanonLength(records);
      EntryReads(records, index, i);
      StreamAt(records, i);
      FrameReads(records, store, i);
      var offset := EntryAt(index, i);
      payload := FrameAt(store, offset.value);
      if numberOf(payload.value) != Some(number) { return None; }
    }

    /** Walks the store alone and finds the same records. */
    method Scan() returns (found: seq<Bytes>, ok: bool)
      requires Valid()
      ensures ok && found == records
    {
      hide Stream, Canon, FrameAt, Small, Offset;
      found, ok := [], true;
      var offset := 0;
      NoStream(records);
      assert records[..|records|] == records;
      OffsetOfPrefix(records, 0, |records|);
      while offset < |store|
        invariant |found| <= |records| && found == records[..|found|] && offset == Offset(records, |found|) <= |store|
        decreases |store| - offset
      {
        NextMissing(base, numberOf, store, records, |records|, |found|);
        var payload := FrameAt(store, offset);
        if payload.None? || numberOf(payload.value) != Some(base + |found|) { return [], false; }
        found := found + [payload.value];
        offset := offset + LENGTH_SIZE + |payload.value|;
      }
      OffsetOfPrefix(records, |found|, |records|);
    }
  }

  lemma Appended(records: seq<Bytes>, payload: Bytes)
    requires Small(records) && |records| < WORD32 && |payload| < WORD32
    requires |Stream(records)| + LENGTH_SIZE + |payload| < WORD
    ensures Small(records + [payload])
    ensures Stream(records + [payload]) == Stream(records) + Frame(payload)
    ensures Canon(records + [payload]) == Canon(records) + Entry(|records|, |Stream(records)|)
  {
    hide Frame, Entry;
    var more := records + [payload];
    assert Front(more) == records && Last(more) == payload && more[..|records|] == records;
    FrameLength(payload);
  }

  /** Opening repairs: only complete frames stay, the index becomes canonical for them, and numbering goes on after
      the last one. */
  method Open(base: nat, numberOf: Bytes -> Option<nat>, storeFile: Bytes, indexFile: Bytes, ghost ps: seq<Bytes>)
    returns (segment: Segment?)
    ensures segment != null ==> fresh(segment) && segment.base == base && segment.numberOf == numberOf
    ensures segment != null ==> segment.store == Stream(Frames(storeFile)) && segment.next == base + |Frames(storeFile)|
    ensures CrashOf(ps, storeFile, indexFile) && Numbered(ps, base, numberOf) ==>
              segment != null && segment.Valid() && segment.records == ps[..Fits(ps, |storeFile|)]
  {
    hide Stream, Canon, Frames, Fits, Small;
    var store, index, count, ok := Recover(base, numberOf, storeFile, indexFile, ps);
    if !ok { return null; }
    ghost var kept := if count <= |ps| then ps[..count] else [];
    segment := new Segment(base, numberOf, store, index, base + count, kept);
    if CrashOf(ps, storeFile, indexFile) && Numbered(ps, base, numberOf) { PrefixSmall(ps, count); }
  }

  lemma PrefixSmall(ps: seq<Bytes>, k: nat)
    requires Small(ps) && k <= |ps|
    ensures Small(ps[..k])
  {
    StreamPrefix(ps, k);
  }

  /** Repair can be interrupted: a cut store with any part of the rebuilt index is again a crash of the kept records,
      and opening it keeps them all. */
  lemma RepairRestarts(ps: seq<Bytes>, k: nat, indexBytes: nat)
    requires Small(ps) && k <= |ps| && indexBytes <= ENTRY_SIZE * k
    ensures |Canon(ps[..k])| == ENTRY_SIZE * k
    ensures CrashOf(ps[..k], Stream(ps[..k]), Canon(ps[..k])[..indexBytes])
    ensures Fits(ps[..k], |Stream(ps[..k])|) == k
  {
    PrefixSmall(ps, k);
    CanonLength(ps[..k]);
  }
}
