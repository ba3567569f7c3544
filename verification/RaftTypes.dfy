/** An optional value, as std::optional is used throughout the source. */
module Options {
  datatype Option<+T> = None | Some(value: T)
}

/** The replicated log entry and the little that every Raft module needs to know about a log. */
module RaftTypes {
  type NodeId = nat
  type Bytes = seq<nat>

  datatype Mutation = Put(key: Bytes, value: Bytes) | Delete(key: Bytes)

  datatype Entry = Entry(term: nat, idx: nat, operations: seq<Mutation>)

  /** The position and term of the last entry of a log; Last(0, 0) for the empty log. */
  datatype Last = Last(index: nat, term: nat)

  function LastOf(log: seq<Entry>): Last {
    if log == [] then Last(0, 0) else Last(|log|, log[|log| - 1].term)
  }

  /** The term at a 1-based index, or 0 when the log holds no such index. */
  function TermAt(log: seq<Entry>, index: nat): nat {
    if index == 0 || index > |log| then 0 else log[index - 1].term
  }

  /** Entry k of a batch sits at index first + k and carries a nonzero term. */
  predicate Dense(first: nat, entries: seq<Entry>) {
    forall k :: 0 <= k < |entries| ==> entries[k].idx == first + k && entries[k].term != 0
  }

  function Min(a: nat, b: nat): nat {
    if a <= b then a else b
  }

  function Max(a: nat, b: nat): nat {
    if a <= b then b else a
  }
}
