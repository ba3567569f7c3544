/** The segmented Raft log and its refinement of one flat sequence of entries. */
module RaftLogs {
  import opened Options
  import opened RaftTypes

  /** One segment: its entries sit at base, base + 1, ...; the first `synced` of them are in synced bytes. */
  datatype Segment = Segment(base: nat, entries: seq<Entry>, synced: nat) {
    function Next(): nat { base + |entries| }
  }

  const LENGTH_PREFIX_SIZE: nat := 4
  const INDEX_ENTRY_SIZE: nat := 12

  function MutationSize(m: Mutation): nat {
    match m
    case Put(key, value) => 1 + (5 + |key|) + (5 + |value|)
    case Delete(key) => 1 + (5 + |key|)
  }

  function MutationsSize(ms: seq<Mutation>): nat {
    if ms == [] then 0 else MutationsSize(ms[..|ms| - 1]) + MutationSize(ms[|ms| - 1])
  }

  function StoreBytes(entries: seq<Entry>): nat {
    if entries == [] then 0
    else StoreBytes(entries[..|entries| - 1])
         + LENGTH_PREFIX_SIZE + 8 + 8 + 4 + MutationsSize(entries[|entries| - 1].operations)
  }

  /** The entries of all segments in segment order. */
  function Flatten(segments: seq<Segment>): seq<Entry> {
    if segments == [] then [] else Flatten(segments[..|segments| - 1]) + segments[|segments| - 1].entries
  }

  predicate Contiguous(segments: seq<Segment>) {
    && |segments| > 0
    && segments[0].base == 1
    && (forall i :: 0 <= i < |segments| - 1 ==> segments[i + 1].base == segments[i].Next())
  }

  predicate WellNumbered(segments: seq<Segment>) {
    forall i :: 0 <= i < |segments| ==> Dense(segments[i].base, segments[i].entries)
  }

  /** Every index up to `durable` lies in the synced bytes of its segment. */
  predicate Covered(segments: seq<Segment>, durable: nat) {
    forall i :: 0 <= i < |segments| ==>
      segments[i].synced <= |segments[i].entries|
        && Min(durable + 1, segments[i].Next()) <= segments[i].base + segments[i].synced
  }

  lemma {:induction false} FlattenLength(segments: seq<Segment>)
    requires Contiguous(segments)
    ensures |Flatten(segments)| + 1 == segments[|segments| - 1].Next()
  {
    var init := segments[..|segments| - 1];
    if init != [] {
      FlattenLength(init);
    } else {
      assert Flatten(init) == [];
    }
  }

  /** Entry j of segment i is the flat entry at 1-based index base + j. */
  lemma {:induction false} FlattenAt(segments: seq<Segment>, i: nat, j: nat)
    requires Contiguous(segments) && i < |segments| && j < |segments[i].entries|
    ensures 1 <= segments[i].base
    ensures segments[i].base + j <= |Flatten(segments)|
    ensures Flatten(segments)[segments[i].base + j - 1] == segments[i].entries[j]
  {
    var init := segments[..|segments| - 1];
    FlattenLength(segments);
    if init != [] {
      FlattenLength(init);
      if i < |segments| - 1 { FlattenAt(init, i, j); }
    } else {
      assert Flatten(init) == [];
    }
  }

  /** The segment boundaries partition 1 .. next - 1. */
  lemma {:induction false} SomeSegmentHolds(segments: seq<Segment>, index: nat) returns (i: nat)
    requires Contiguous(segments) && 1 <= index < segments[|segments| - 1].Next()
    ensures i < |segments| && segments[i].base <= index < segments[i].Next()
  {
    i := |segments| - 1;
    if index < segments[i].base {
      assert segments[i].base == segments[i - 1].Next();
      i := SomeSegmentHolds(segments[..|segments| - 1], index);
    }
  }

  lemma {:induction false} BasesPositive(segments: seq<Segment>, i: nat)
    requires Contiguous(segments) && i < |segments|
    ensures segments[i].base >= 1
  {
    if i > 0 {
      assert segments[i - 1 + 1].base == segments[i - 1].Next();
      BasesPositive(segments, i - 1);
    }
  }

  lemma {:induction false} BasesOrdered(segments: seq<Segment>, i: nat, k: nat)
    requires Contiguous(segments) && i < k < |segments|
    ensures segments[i].Next() <= segments[k].base
  {
    assert segments[k - 1 + 1].base == segments[k - 1].Next();
    if i < k - 1 { BasesOrdered(segments, i, k - 1); }
  }

  /** A well-numbered segmented log flattens to a dense log starting at index 1. */
  lemma FlatDense(segments: seq<Segment>)
    requires Contiguous(segments) && WellNumbered(segments)
    ensures Dense(1, Flatten(segments))
  {
    var flat := Flatten(segments);
    FlattenLength(segments);
    forall k | 0 <= k < |flat| ensures flat[k].idx == 1 + k && flat[k].term != 0 {
      var i := SomeSegmentHolds(segments, k + 1);
      FlattenAt(segments, i, k + 1 - segments[i].base);
    }
  }

  /** Cutting segment t at `from` and dropping the later segments keeps exactly the indexes below `from`. */
  lemma CutFlatten(segments: seq<Segment>, t: nat, from: nat)
    requires Contiguous(segments) && t < |segments| && segments[t].base <= from <= segments[t].Next()
    ensures 1 <= from <= |Flatten(segments)| + 1
    ensures Flatten(segments[..t] + [Segment(segments[t].base, segments[t].entries[..from - segments[t].base], 0)])
         == Flatten(segments)[..from - 1]
  {
    var head := segments[..t];
    var cut := Segment(segments[t].base, segments[t].entries[..from - segments[t].base], 0);
    assert (head + [cut])[..t] == head;
    FlattenPrefix(segments, t + 1);
    assert segments[..t + 1][..t] == head;
    BasesPositive(segments, t);
    if t > 0 {
      assert segments[t - 1 + 1].base == segments[t - 1].Next();
      FlattenLength(head);
    }
    assert Flatten(segments[..t + 1]) == Flatten(head) + segments[t].entries;
  }

  lemma {:induction false} FlattenPrefix(segments: seq<Segment>, t: nat)
    requires t <= |segments|
    ensures Flatten(segments[..t]) <= Flatten(segments)
  {
    if t == |segments| {
      assert segments[..t] == segments;
    } else {
      var init := segments[..|segments| - 1];
      assert init[..t] == segments[..t];
      FlattenPrefix(init, t);
    }
  }

  /** What is left of a sequence after its first n elements. */
  function From(s: seq<Entry>, n: nat): seq<Entry> {
    if n <= |s| then s[n..] else []
  }

  lemma FromConcat(a: seq<Entry>, b: seq<Entry>, n: nat)
    ensures From(a + b, n) == if n <= |a| then From(a, n) + b else From(b, n - |a|)
    ensures |a| <= n ==> From(a, n) == []
  {
  }

  lemma NoTerm(log: seq<Entry>)
    ensures TermAt(log, 0) == 0
  {
  }

  lemma NoSegments(segments: seq<Segment>)
    ensures Flatten(segments[..0]) == []
  {
  }

  /** One segment more: its entries follow what the earlier ones hold. */
  lemma PrefixStep(segments: seq<Segment>, i: nat)
    requires Contiguous(segments) && i < |segments|
    ensures Flatten(segments[..i + 1]) == Flatten(segments[..i]) + segments[i].entries
    ensures |Flatten(segments[..i])| + 1 == segments[i].base
  {
    assert segments[..i + 1][..i] == segments[..i];
    if i > 0 {
      assert segments[i - 1 + 1].base == segments[i - 1].Next();
      FlattenLength(segments[..i]);
    }
  }

  predicate Sound(segments: seq<Segment>, next: nat, lastTerm: nat, durable: nat) {
    && Contiguous(segments)
    && WellNumbered(segments)
    && Covered(segments, durable)
    && next == segments[|segments| - 1].Next()
    && next == |Flatten(segments)| + 1
    && lastTerm == LastOf(Flatten(segments)).term
    && durable < next
  }

  lemma RolloverSound(segments: seq<Segment>, next: nat, lastTerm: nat, durable: nat)
    requires Sound(segments, next, lastTerm, durable)
    ensures var rolled := segments + [Segment(next, [], 0)];
            Sound(rolled, next, lastTerm, durable) && Flatten(rolled) == Flatten(segments)
  {
    var rolled := segments + [Segment(next, [], 0)];
    assert rolled[..|segments|] == segments;
    forall i | 0 <= i < |rolled| ensures Dense(rolled[i].base, rolled[i].entries) {
      assert i < |segments| ==> Dense(segments[i].base, segments[i].entries);
    }
  }

  lemma ExtendSound(segments: seq<Segment>, next: nat, lastTerm: nat, durable: nat, entry: Entry)
    requires Sound(segments, next, lastTerm, durable)
    requires entry.idx == next && entry.term != 0
    ensures var last := segments[|segments| - 1];
            var grown := segments[|segments| - 1 := last.(entries := last.entries + [entry])];
            Sound(grown, next + 1, entry.term, durable) && Flatten(grown) == Flatten(segments) + [entry]
  {
    var last := segments[|segments| - 1];
    var grown := segments[|segments| - 1 := last.(entries := last.entries + [entry])];
    assert grown[..|segments| - 1] == segments[..|segments| - 1];
    forall i | 0 <= i < |grown| ensures Dense(grown[i].base, grown[i].entries) {
      assert Dense(segments[i].base, segments[i].entries);
    }
    forall i | 0 <= i < |grown| - 1 ensures grown[i + 1].base == grown[i].Next() {
      assert segments[i + 1].base == segments[i].Next();
    }
  }

  class RaftLog {
    const maxStoreBytes: nat
    const maxIndexBytes: nat
    var segments: seq<Segment>
    var nextIndex: nat
    var lastTerm: nat
    var durableIndex: nat
    var directoryDirty: bool

    ghost predicate Valid()
      reads this
    {
      Sound(segments, nextIndex, lastTerm, durableIndex)
    }

    /** The flat sequence this log refines; index k of the log is Flat()[k - 1]. */
    ghost function Flat(): seq<Entry>
      reads this
    {
      Flatten(segments)
    }

    constructor (maxStoreBytes: nat, maxIndexBytes: nat)
      ensures Valid() && Flat() == [] && durableIndex == 0
    {
      this.maxStoreBytes, this.maxIndexBytes := maxStoreBytes, maxIndexBytes;
      segments := [Segment(1, [], 0)];
      nextIndex, lastTerm, durableIndex := 1, 0, 0;
      directoryDirty := false;
    }

    predicate IsMaxed(segment: Segment) {
      StoreBytes(segment.entries) > maxStoreBytes || |segment.entries| * INDEX_ENTRY_SIZE > maxIndexBytes
    }

    /** Segment rollover and the append of one entry to the last segment. */
    method AppendOne(entry: Entry)
      requires Valid() && entry.idx == nextIndex && entry.term != 0
      modifies this
      ensures Valid() && Flat() == old(Flat()) + [entry]
      ensures durableIndex == old(durableIndex)
      ensures var last := old(segments)[|old(segments)| - 1].entries;
              var full := StoreBytes(last) > maxStoreBytes || |last| * INDEX_ENTRY_SIZE > maxIndexBytes;
              |segments| == |old(segments)| + if full then 1 else 0
    {
      if IsMaxed(segments[|segments| - 1]) {
        RolloverSound(segments, nextIndex, lastTerm, durableIndex);
        segments := segments + [Segment(nextIndex, [], 0)];
      }
      ExtendSound(segments, nextIndex, lastTerm, durableIndex, entry);
      var last := segments[|segments| - 1];
      segments := segments[|segments| - 1 := last.(entries := last.entries + [entry])];
      nextIndex := nextIndex + 1;
      lastTerm := entry.term;
    }

    /** The leader's own append; a term of zero is rejected and nothing changes. */
    method Append(term: nat, operations: seq<Mutation>) returns (index: Option<nat>)
      requires Valid()
      modifies this
      ensures Valid() && durableIndex == old(durableIndex)
      ensures index == if term == 0 then None else Some(|old(Flat())| + 1)
      ensures Flat() == old(Flat()) + (if term == 0 then [] else [Entry(term, |old(Flat())| + 1, operations)])
    {
      FlattenLength(segments);
      if term == 0 { return None; }
      var entry := Entry(term, nextIndex, operations);
      AppendOne(entry);
      return Some(entry.idx);
    }

    /** A follower's batch append: accepted exactly when it continues the log densely. */
    method AppendFromLeader(firstIndex: nat, entries: seq<Entry>) returns (ok: bool)
      requires Valid()
      modifies this
      ensures Valid() && durableIndex == old(durableIndex)
      ensures ok <==> firstIndex == |old(Flat())| + 1 && Dense(firstIndex, entries)
      ensures Flat() == old(Flat()) + (if ok then entries else [])
    {
      hide Flatten, Contiguous, WellNumbered, Covered;
      if firstIndex != nextIndex { return false; }
      ok := IsDense(firstIndex, entries);
      if !ok { return; }
      for i := 0 to |entries|
        invariant Valid() && durableIndex == old(durableIndex)
        invariant Flat() == old(Flat()) + entries[..i]
      {
        AppendOne(entries[i]);
        assert entries[..i + 1] == entries[..i] + [entries[i]];
      }
      assert entries[..|entries|] == entries;
    }

    static method IsDense(firstIndex: nat, entries: seq<Entry>) returns (ok: bool)
      ensures ok <==> Dense(firstIndex, entries)
    {
      for i := 0 to |entries|
        invariant forall k :: 0 <= k < i ==> entries[k].idx == firstIndex + k && entries[k].term != 0
      {
        if entries[i].idx != firstIndex + i || entries[i].term == 0 { return false; }
      }
      return true;
    }

    method Read(index: nat) returns (entry: Option<Entry>)
      requires Valid()
      ensures entry == if 1 <= index <= |Flat()| then Some(Flat()[index - 1]) else None
    {
      FlattenLength(segments);
      if index == 0 || index >= nextIndex { return None; }
      for i := 0 to |segments|
        invariant forall k :: 0 <= k < i ==> !(segments[k].base <= index < segments[k].Next())
      {
        if segments[i].base <= index < segments[i].Next() {
          FlattenAt(segments, i, index - segments[i].base);
          return Some(segments[i].entries[index - segments[i].base]);
        }
      }
      ghost var holder := SomeSegmentHolds(segments, index);
      assert false;
    }

    method TermOf(index: nat) returns (term: nat)
      requires Valid()
      ensures term == TermAt(Flat(), index)
    {
      var entry := Read(index);
      term := if entry.Some? then entry.value.term else 0;
    }

    /** All entries from `index` on; `index` may be one past the end. */
    method ScanFrom(index: nat) returns (entries: Option<seq<Entry>>)
      requires Valid()
      ensures entries == if 1 <= index <= |Flat()| + 1 then Some(Flat()[index - 1..]) else None
    {
      FlattenLength(segments);
      if index == 0 || index > nextIndex { return None; }
      var collected := CollectFrom(segments, index);
      return Some(collected);
    }

    static method CollectFrom(segments: seq<Segment>, index: nat) returns (collected: seq<Entry>)
      requires Contiguous(segments) && 1 <= index <= |Flatten(segments)| + 1
      ensures collected == Flatten(segments)[index - 1..]
    {
      hide Flatten, Contiguous;
      collected := [];
      assert Flatten(segments[..0]) == [] by { NoSegments(segments); }
      for i := 0 to |segments|
        invariant collected == From(Flatten(segments[..i]), index - 1)
      {
        var segment := segments[i];
        PrefixStep(segments, i);
        FromConcat(Flatten(segments[..i]), segment.entries, index - 1);
        if segment.Next() > index {
          collected := collected + segment.entries[Max(index, segment.base) - segment.base..];
        }
      }
      assert segments[..|segments|] == segments;
    }

    /** Drops every entry at `from` and after; later segments are removed whole. */
    method TruncateSuffix(from: nat) returns (ok: bool)
      requires Valid()
      modifies this
      ensures Valid()
      ensures ok <==> 1 <= from <= |old(Flat())| + 1
      ensures Flat() == if ok then old(Flat())[..from - 1] else old(Flat())
      ensures durableIndex == if ok then Min(old(durableIndex), from - 1) else old(durableIndex)
    {
      hide Flatten, Contiguous, WellNumbered, Covered, TermAt;
      if from == 0 || from > nextIndex { return false; }
      if from == nextIndex { assert Flat()[..from - 1] == Flat(); return true; }

      var retainedTerm := 0;
      assert TermAt(Flat(), 0) == 0 by { NoTerm(Flat()); }
      if from > 1 { retainedTerm := TermOf(from - 1); }

      var target := FindCut(segments, from);
      CutSound(segments, target, from, nextIndex, lastTerm, durableIndex);
      var cut := segments[target];
      var kept := from - cut.base;
      directoryDirty := directoryDirty || target + 1 < |segments|;
      segments := segments[..target] + [Segment(cut.base, cut.entries[..kept], Min(cut.synced, kept))];
      nextIndex := from;
      lastTerm := retainedTerm;
      durableIndex := Min(durableIndex, from - 1);
      return true;
    }

    /** The first segment whose half-open range or right edge holds `from`. */
    static method FindCut(segments: seq<Segment>, from: nat) returns (target: nat)
      requires Contiguous(segments) && 1 <= from < segments[|segments| - 1].Next()
      ensures target < |segments| && segments[target].base <= from <= segments[target].Next()
    {
      ghost var holder := SomeSegmentHolds(segments, from);
      target := 0;
      while !(segments[target].base <= from <= segments[target].Next())
        invariant target <= holder
        decreases holder - target
      {
        target := target + 1;
      }
    }

    static lemma CutSound(segments: seq<Segment>, t: nat, from: nat, next: nat, lastTerm: nat, durable: nat)
      requires Sound(segments, next, lastTerm, durable) && t < |segments|
      requires segments[t].base <= from <= segments[t].Next()
      ensures 1 <= from <= |Flatten(segments)| + 1
      ensures var kept := from - segments[t].base;
              var cut := segments[..t]
                + [Segment(segments[t].base, segments[t].entries[..kept], Min(segments[t].synced, kept))];
              && Flatten(cut) == Flatten(segments)[..from - 1]
              && Sound(cut, from, TermAt(Flatten(segments), from - 1), Min(durable, from - 1))
    {
      hide Flatten, Contiguous, WellNumbered, Covered;
      CutFlatten(segments, t, from);
      CutValid(segments, t, from, durable);
      var kept := from - segments[t].base;
      var plain := segments[..t] + [Segment(segments[t].base, segments[t].entries[..kept], 0)];
      var cut := segments[..t]
        + [Segment(segments[t].base, segments[t].entries[..kept], Min(segments[t].synced, kept))];
      SameEntriesFlatten(cut, plain);
    }

    static lemma CutValid(segments: seq<Segment>, t: nat, from: nat, durable: nat)
      requires Contiguous(segments) && WellNumbered(segments) && Covered(segments, durable)
      requires t < |segments| && segments[t].base <= from <= segments[t].Next() && from >= 1
      ensures var kept := from - segments[t].base;
              var cut := segments[..t]
                + [Segment(segments[t].base, segments[t].entries[..kept], Min(segments[t].synced, kept))];
              && Contiguous(cut) && WellNumbered(cut) && Covered(cut, Min(durable, from - 1))
              && cut[|cut| - 1].Next() == from
    {
      var kept := from - segments[t].base;
      var cut := segments[..t]
        + [Segment(segments[t].base, segments[t].entries[..kept], Min(segments[t].synced, kept))];
      forall i | 0 <= i < |cut| - 1 ensures cut[i + 1].base == cut[i].Next() {
        assert segments[i + 1].base == segments[i].Next();
      }
      assert WellNumbered(cut) by {
        forall i | 0 <= i < |cut| ensures Dense(cut[i].base, cut[i].entries) {
          assert Dense(segments[i].base, segments[i].entries);
        }
      }
    }

    /** Makes at least the indexes up to `index` durable, segment by segment. */
    method SyncThrough(index: nat) returns (ok: bool)
      requires Valid()
      modifies this
      ensures Valid() && Flat() == old(Flat())
      ensures ok <==> 1 <= index <= |Flat()|
      ensures ok ==> durableIndex >= index
      ensures durableIndex >= old(durableIndex)
      ensures !ok ==> durableIndex == old(durableIndex)
    {
      if index == 0 || index >= nextIndex { return false; }
      if index <= durableIndex && !directoryDirty { return true; }

      segments, durableIndex := SyncSegments(segments, nextIndex, lastTerm, durableIndex, index);
      directoryDirty := false;
      return true;
    }

    static method SyncSegments(segments: seq<Segment>, next: nat, ghost lastTerm: nat, durable: nat, index: nat)
      returns (synced: seq<Segment>, reached: nat)
      requires Sound(segments, next, lastTerm, durable) && 1 <= index < next
      ensures Sound(synced, next, lastTerm, reached) && Flatten(synced) == Flatten(segments)
      ensures reached >= index && reached >= durable
    {
      hide Contiguous, WellNumbered, Covered;
      synced, reached := segments, durable;
      var i := 0;
      while i < |synced|
        invariant 0 <= i <= |synced| && reached >= durable
        invariant Sound(synced, next, lastTerm, reached) && Flatten(synced) == Flatten(segments)
        invariant i > 0 ==> reached + 1 >= synced[i - 1].Next()
      {
        SyncStep(synced, next, lastTerm, reached, i);
        var segment := synced[i];
        if segment.entries != [] && segment.Next() - 1 > reached {
          synced := synced[i := segment.(synced := |segment.entries|)];
          reached := segment.Next() - 1;
          if reached >= index { break; }
        }
        i := i + 1;
      }
    }

    /** One round of the sync loop: the segment is synced whole, or was already durable. */
    static lemma SyncStep(segments: seq<Segment>, next: nat, lastTerm: nat, durable: nat, i: nat)
      requires Sound(segments, next, lastTerm, durable) && i < |segments|
      requires i > 0 ==> durable + 1 >= segments[i - 1].Next()
      ensures var segment := segments[i];
              var after := segments[i := segment.(synced := |segment.entries|)];
              if segment.entries != [] && segment.Next() - 1 > durable then
                Sound(after, next, lastTerm, segment.Next() - 1) && Flatten(after) == Flatten(segments)
              else durable + 1 >= segment.Next()
    {
      BasesPositive(segments, i);
      assert i > 0 ==> segments[i - 1 + 1].base == segments[i - 1].Next();
      var segment := segments[i];
      if segment.entries != [] && segment.Next() - 1 > durable {
        SyncOneCovers(segments, i, durable);
        SameEntriesFlatten(segments[i := segment.(synced := |segment.entries|)], segments);
      }
    }

    static predicate SameEntries(a: seq<Segment>, b: seq<Segment>) {
      |a| == |b| && forall i :: 0 <= i < |a| ==> a[i].base == b[i].base && a[i].entries == b[i].entries
    }

    static lemma {:induction false} SameEntriesFlatten(a: seq<Segment>, b: seq<Segment>)
      requires SameEntries(a, b)
      ensures Flatten(a) == Flatten(b)
    {
      if a != [] { SameEntriesFlatten(a[..|a| - 1], b[..|b| - 1]); }
    }

    static lemma SyncOneCovers(segments: seq<Segment>, i: nat, durable: nat)
      requires Contiguous(segments) && WellNumbered(segments) && Covered(segments, durable) && i < |segments|
      requires i > 0 ==> durable + 1 >= segments[i - 1].Next()
      requires segments[i].Next() - 1 > durable
      ensures var after := segments[i := segments[i].(synced := |segments[i].entries|)];
              && Contiguous(after) && WellNumbered(after) && Covered(after, segments[i].Next() - 1)
              && SameEntries(after, segments)
      ensures segments[i].Next() <= segments[|segments| - 1].Next()
    {
      hide Dense;
      var after := segments[i := segments[i].(synced := |segments[i].entries|)];
      assert Covered(after, segments[i].Next() - 1) by {
        forall k | 0 <= k < |after|
          ensures after[k].synced <= |after[k].entries|
          ensures Min(segments[i].Next(), after[k].Next()) <= after[k].base + after[k].synced
        {
          CoveredAt(segments, i, durable, k);
        }
      }
      SameShape(after, segments);
      if i < |segments| - 1 { BasesOrdered(segments, i, |segments| - 1); }
    }

    static lemma CoveredAt(segments: seq<Segment>, i: nat, durable: nat, k: nat)
      requires Contiguous(segments) && Covered(segments, durable) && i < |segments| && k < |segments|
      requires i > 0 ==> durable + 1 >= segments[i - 1].Next()
      ensures segments[k].synced <= |segments[k].entries|
      ensures k < i ==> segments[k].Next() <= segments[k].base + segments[k].synced
      ensures k > i ==> segments[i].Next() <= segments[k].base
    {
      if k < i {
        if k < i - 1 { BasesOrdered(segments, k, i - 1); }
      } else if i < k {
        BasesOrdered(segments, i, k);
      }
    }

    static lemma SameShape(after: seq<Segment>, segments: seq<Segment>)
      requires SameEntries(after, segments) && Contiguous(segments) && WellNumbered(segments)
      ensures Contiguous(after) && WellNumbered(after)
    {
      hide Dense;
      forall k | 0 <= k < |after| - 1 ensures after[k + 1].base == after[k].Next() {
        assert segments[k + 1].base == segments[k].Next();
      }
      forall k | 0 <= k < |after| ensures Dense(after[k].base, after[k].entries) {
        assert Dense(segments[k].base, segments[k].entries);
      }
    }
  }
}
