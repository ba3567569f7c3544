/** One server's Raft state: the handler bodies as functions on a node value. */
module RaftNodes {
  import opened Options
  import opened RaftTypes

  datatype Role = Leader | Follower | Candidate

  datatype HardState = HardState(term: nat, votedFor: Option<NodeId>)

  datatype Config = Config(self: NodeId, members: set<NodeId>) {
    predicate IsPeer(address: NodeId) { address != self && address in members }
    function Peers(): set<NodeId> { members - {self} }
    function Majority(): nat { |members| / 2 + 1 }
  }

  /** `hard` is what the hard-state file holds; every other field is in memory.
      `durable` is a lower bound on the log prefix that survives a crash. */
  datatype Node = Node(
    hard: HardState,
    term: nat,
    votedFor: Option<NodeId>,
    role: Role,
    leader: Option<NodeId>,
    votes: set<NodeId>,
    log: seq<Entry>,
    durable: nat,
    commit: nat,
    applied: nat,
    sendNext: map<NodeId, nat>,
    replicated: map<NodeId, nat>)

  const FRESH := Node(HardState(0, None), 0, None, Follower, None, {}, [], 0, 0, 0, map[], map[])

  datatype VoteOutcome = VoteInvalid | VoteThrew | VoteAnswer(term: nat, granted: bool)
  datatype AppendOutcome = AppendInvalid | AppendThrew | AppendAnswer(term: nat, success: bool)

  datatype VoteRequest = VoteRequest(term: nat, candidate: NodeId, last: Last)
  datatype AppendRequest = AppendRequest(
    term: nat, leader: NodeId, prev: nat, prevTerm: nat, entries: seq<Entry>, commit: nat)

  // ---------------------------------------------------------------- term and vote

  function AdvanceTerm(s: Node, term: nat, vote: Option<NodeId>): Node {
    s.(hard := HardState(term, vote), term := term, votedFor := vote, votes := {}, leader := None)
  }

  function BecomeFollower(s: Node, term: nat, leader: Option<NodeId>): Node {
    var t := if term > s.term then AdvanceTerm(s, term, None) else s;
    t.(leader := leader, role := Follower)
  }

  function BecomeLeader(cfg: Config, s: Node): Node {
    s.(role := Leader, leader := Some(cfg.self),
       sendNext := map p | p in cfg.Peers() :: |s.log| + 1,
       replicated := map p | p in cfg.Peers() :: 0)
  }

  /** A later last term wins; on equal last terms the longer or equal log wins. */
  predicate UpToDate(candidate: Last, own: Last) {
    candidate.term > own.term || (candidate.term == own.term && candidate.index >= own.index)
  }

  predicate WillGrant(s: Node, request: VoteRequest) {
    (s.votedFor.None? || s.votedFor == Some(request.candidate)) && UpToDate(request.last, LastOf(s.log))
  }

  function OnRequestVote(cfg: Config, s: Node, request: VoteRequest): (Node, VoteOutcome) {
    if !cfg.IsPeer(request.candidate) then (s, VoteInvalid)
    else if request.term < s.term then (s, VoteAnswer(s.term, false))
    else
      var t := if request.term > s.term then BecomeFollower(s, request.term, None) else s;
      if !WillGrant(t, request) then (t, VoteAnswer(t.term, false))
      else if t.votedFor.Some? then (t, VoteAnswer(t.term, true))
      else if t.term == 0 then (t, VoteThrew)
      else
        (t.(hard := HardState(t.term, Some(request.candidate)), votedFor := Some(request.candidate)),
         VoteAnswer(t.term, true))
  }

  // ---------------------------------------------------------------- campaign

  function BecomeCandidate(cfg: Config, s: Node): Node {
    AdvanceTerm(s, s.term + 1, Some(cfg.self)).(role := Candidate)
  }

  /** The locked first part of a campaign; a single-node cluster wins at once. */
  function StartCampaign(cfg: Config, s: Node): Node {
    var t := BecomeCandidate(cfg, s);
    if cfg.Majority() <= 1 then BecomeLeader(cfg, t) else t
  }

  /** One peer's reply to a vote request sent in `sentTerm`, stale replies included. */
  function OnVoteReply(cfg: Config, s: Node, sentTerm: nat, voter: NodeId, term: nat, granted: bool): Node {
    if term > s.term then BecomeFollower(s, term, None)
    else if sentTerm != s.term || s.role != Candidate || !granted then s
    else
      var t := s.(votes := s.votes + {voter});
      if |t.votes| + 1 >= cfg.Majority() then BecomeLeader(cfg, t) else t
  }

  // ---------------------------------------------------------------- log replication

  /** The first offset into `entries`, from k on, whose index the log lacks or holds with another term. */
  function FirstNew(log: seq<Entry>, prev: nat, entries: seq<Entry>, k: nat): (r: nat)
    requires k <= |entries|
    ensures k <= r <= |entries|
    decreases |entries| - k
  {
    if k == |entries| then k
    else if TermAt(log, prev + 1 + k) == 0 || TermAt(log, prev + 1 + k) != entries[k].term then k
    else FirstNew(log, prev, entries, k + 1)
  }

  /** How much of the old log the handler leaves in place. */
  function Kept(log: seq<Entry>, prev: nat, entries: seq<Entry>): (kept: nat)
    ensures kept <= |log|
  {
    var k := FirstNew(log, prev, entries, 0);
    if k < |entries| && prev + k < |log| && TermAt(log, prev + 1 + k) != 0 then prev + k else |log|
  }

  /** The request's term is current: the handler follows this leader. */
  function Follow(s: Node, request: AppendRequest): Node {
    if request.term > s.term || s.role != Follower
    then BecomeFollower(s, request.term, Some(request.leader))
    else s.(leader := Some(request.leader))
  }

  /** Truncate at a genuine conflict, append what is new, sync, advance the commit index. */
  function Replicate(s: Node, request: AppendRequest): (Node, AppendOutcome) {
    var k := FirstNew(s.log, request.prev, request.entries, 0);
    var kept := Kept(s.log, request.prev, request.entries);
    var novel := request.entries[k..];
    var last := request.prev + |request.entries|;
    var cut := s.(log := s.log[..kept], durable := Min(s.durable, kept));
    if novel != [] && (request.prev + k != kept || !Dense(request.prev + 1 + k, novel)) then (cut, AppendThrew)
    else
      var grown := cut.(log := cut.log + novel);
      if last > |grown.log| then (grown, AppendThrew)
      else
        (grown.(durable := Max(grown.durable, last), commit := Max(grown.commit, Min(request.commit, last))),
         AppendAnswer(grown.term, true))
  }

  function OnAppendEntries(cfg: Config, s: Node, request: AppendRequest): (Node, AppendOutcome) {
    if !cfg.IsPeer(request.leader) then (s, AppendInvalid)
    else if request.term < s.term then (s, AppendAnswer(s.term, false))
    else
      var t := Follow(s, request);
      if request.prev > 0 && TermAt(t.log, request.prev) != request.prevTerm then (t, AppendAnswer(t.term, false))
      else Replicate(t, request)
  }

  predicate PassesCheck(cfg: Config, s: Node, request: AppendRequest) {
    && cfg.IsPeer(request.leader)
    && request.term >= s.term
    && (request.prev > 0 ==> TermAt(s.log, request.prev) == request.prevTerm)
  }

  // ---------------------------------------------------------------- restart

  /** What is persisted before the handler touches the log. */
  function Followed(cfg: Config, s: Node, request: AppendRequest): Node {
    if cfg.IsPeer(request.leader) && request.term >= s.term then Follow(s, request) else s
  }

  /** The part of the log that survives a crash anywhere inside the AppendEntries handler. */
  function CrashFloor(cfg: Config, s: Node, request: AppendRequest): nat {
    if PassesCheck(cfg, s, request) then Min(s.durable, Kept(s.log, request.prev, request.entries)) else s.durable
  }

  /** A restart: memory is lost, term and vote come back from the hard state, the log keeps a prefix. */
  function Restart(s: Node, keep: nat, watermark: nat): Node
    requires keep <= |s.log|
  {
    FRESH.(hard := s.hard, term := s.hard.term, votedFor := s.hard.votedFor,
           log := s.log[..keep], durable := keep, commit := watermark, applied := watermark)
  }

  // ---------------------------------------------------------------- what one handler call promises

  /** The shape the handler trusts before it truncates. */
  predicate WellFormed(request: AppendRequest) {
    Dense(request.prev + 1, request.entries) && (request.prev > 0 ==> request.prevTerm != 0)
  }

  lemma {:induction false} FirstNewMeaning(log: seq<Entry>, prev: nat, entries: seq<Entry>, k: nat)
    requires k <= |entries|
    ensures var r := FirstNew(log, prev, entries, k);
            && (forall j :: k <= j < r ==> TermAt(log, prev + 1 + j) == entries[j].term != 0)
            && (r < |entries| ==> TermAt(log, prev + 1 + r) == 0 || TermAt(log, prev + 1 + r) != entries[r].term)
    decreases |entries| - k
  {
    if k < |entries| && TermAt(log, prev + 1 + k) != 0 && TermAt(log, prev + 1 + k) == entries[k].term {
      FirstNewMeaning(log, prev, entries, k + 1);
    }
  }

  /** The log the handler leaves: the old one when it already holds every entry, otherwise the agreeing
      part followed by the rest of the batch. */
  function Merged(log: seq<Entry>, prev: nat, entries: seq<Entry>): seq<Entry> {
    var k := FirstNew(log, prev, entries, 0);
    if k == |entries| || prev + k > |log| then log else log[..prev + k] + entries[k..]
  }

  /** A well-formed request that passes the consistency check never throws, leaves the merged log, and
      returns only after the batch is durable. */
  lemma ReplicateSucceeds(s: Node, request: AppendRequest)
    requires WellFormed(request) && Dense(1, s.log)
    requires request.prev > 0 ==> TermAt(s.log, request.prev) == request.prevTerm
    ensures request.prev <= |s.log|
    ensures var (t, out) := Replicate(s, request);
            var last := request.prev + |request.entries|;
            && out == AppendAnswer(s.term, true)
            && t.log == Merged(s.log, request.prev, request.entries)
            && last <= |t.log| && last <= t.durable
  {
    hide FirstNew, Dense, TermAt;
    NewFits(s.log, request);
    var k := FirstNew(s.log, request.prev, request.entries, 0);
    if k == |request.entries| { assert request.entries[k..] == []; }
  }

  /** Where the new part starts there is room for it, and it is dense. */
  lemma NewFits(log: seq<Entry>, request: AppendRequest)
    requires WellFormed(request) && Dense(1, log)
    requires request.prev > 0 ==> TermAt(log, request.prev) == request.prevTerm
    ensures var k := FirstNew(log, request.prev, request.entries, 0);
            && request.prev + k <= |log| && Dense(request.prev + 1 + k, request.entries[k..])
            && (request.prev + k < |log| ==> TermAt(log, request.prev + 1 + k) != 0)
  {
    hide FirstNew, Dense, TermAt;
    var k := FirstNew(log, request.prev, request.entries, 0);
    if request.prev > 0 { IndexHeld(log, request.prev); }
    NewIsAfter(log, request.prev, request.entries);
    DenseSuffix(request.prev + 1, request.entries, k);
    if request.prev + k < |log| { TermThere(log, request.prev + k); }
  }

  lemma IndexHeld(log: seq<Entry>, index: nat)
    requires TermAt(log, index) != 0
    ensures 1 <= index <= |log|
  {
  }

  lemma TermThere(log: seq<Entry>, i: nat)
    requires Dense(1, log) && i < |log|
    ensures TermAt(log, 1 + i) != 0
  {
  }

  lemma DenseSuffix(first: nat, entries: seq<Entry>, k: nat)
    requires Dense(first, entries) && k <= |entries|
    ensures Dense(first + k, entries[k..])
  {
    forall j | 0 <= j < |entries| - k ensures entries[k..][j].idx == first + k + j && entries[k..][j].term != 0 {
      assert entries[k..][j] == entries[k + j];
    }
  }

  /** The merged log is dense and holds every sent term at its index. */
  lemma MergedMeaning(log: seq<Entry>, prev: nat, entries: seq<Entry>)
    requires Dense(1, log) && Dense(prev + 1, entries) && prev <= |log|
    ensures var merged := Merged(log, prev, entries);
            && Dense(1, merged) && prev + |entries| <= |merged| && merged[..prev] == log[..prev]
            && (forall j :: 0 <= j < |entries| ==> merged[prev + j].term == entries[j].term)
            && (forall i :: 0 <= i < |merged| ==>
                  (i < |log| && merged[i] == log[i])
                  || (prev <= i < prev + |entries| && merged[i] == entries[i - prev]))
  {
    hide FirstNew, Dense, TermAt;
    NewIsAfter(log, prev, entries);
    MergedParts(log, prev, entries);
    forall j | 0 <= j < |entries| ensures Merged(log, prev, entries)[prev + j].term == entries[j].term {
      MergedTerm(log, prev, entries, j);
    }
  }

  lemma NewIsAfter(log: seq<Entry>, prev: nat, entries: seq<Entry>)
    requires prev <= |log|
    ensures prev + FirstNew(log, prev, entries, 0) <= |log|
  {
    hide FirstNew;
    FirstNewMeaning(log, prev, entries, 0);
    var k := FirstNew(log, prev, entries, 0);
    if k > 0 { assert TermAt(log, prev + 1 + (k - 1)) == entries[k - 1].term; }
  }

  lemma MergedParts(log: seq<Entry>, prev: nat, entries: seq<Entry>)
    requires Dense(1, log) && Dense(prev + 1, entries) && prev + FirstNew(log, prev, entries, 0) <= |log|
    ensures var merged := Merged(log, prev, entries);
            && Dense(1, merged) && prev + |entries| <= |merged| && merged[..prev] == log[..prev]
            && (forall i :: 0 <= i < |merged| ==>
                  (i < |log| && merged[i] == log[i])
                  || (prev <= i < prev + |entries| && merged[i] == entries[i - prev]))
  {
    hide FirstNew;
  }

  lemma MergedTerm(log: seq<Entry>, prev: nat, entries: seq<Entry>, j: nat)
    requires prev + FirstNew(log, prev, entries, 0) <= |log| && j < |entries|
    ensures prev + j < |Merged(log, prev, entries)| && Merged(log, prev, entries)[prev + j].term == entries[j].term
  {
    hide FirstNew;
    FirstNewMeaning(log, prev, entries, 0);
    if j < FirstNew(log, prev, entries, 0) { assert TermAt(log, prev + 1 + j) == entries[j].term; }
  }

  /** A request whose entries the log already holds changes no entry: a duplicate truncates nothing. */
  lemma {:induction false} DuplicateTruncatesNothing(log: seq<Entry>, prev: nat, entries: seq<Entry>, k: nat)
    requires k <= |entries|
    requires Dense(1, log) && prev + |entries| <= |log|
    requires forall j :: k <= j < |entries| ==> log[prev + j].term == entries[j].term
    ensures FirstNew(log, prev, entries, k) == |entries|
    decreases |entries| - k
  {
    if k < |entries| {
      assert log[prev + k].term == entries[k].term;
      DuplicateTruncatesNothing(log, prev, entries, k + 1);
    }
  }

  /** The density check comes after the truncation, so an ill-formed batch can destroy entries and then
      throw: here entry 2 is lost although the request is refused. */
  lemma IllFormedBatchLosesEntries()
    ensures var s := FRESH.(hard := HardState(2, None), term := 2, log := [Entry(1, 1, []), Entry(1, 2, [])],
            durable := 2);
            var request := AppendRequest(2, 7, 1, 1, [Entry(2, 9, [])], 0);
            var (t, out) := OnAppendEntries(Config(3, {3, 7}), s, request);
            out == AppendThrew && t.log == s.log[..1]
  {
    var s := FRESH.(hard := HardState(2, None), term := 2, log := [Entry(1, 1, []), Entry(1, 2, [])], durable := 2);
    var entries := [Entry(2, 9, [])];
    assert TermAt(s.log, 2) == 1;
    assert FirstNew(s.log, 1, entries, 0) == 0;
    assert entries[0..] == entries;
    assert entries[0].idx != 2;
    assert !Dense(2, entries);
  }

  /** Exactly when a truncating request is refused half way: its new entries are not dense. */
  lemma LosesEntriesExactlyWhen(s: Node, request: AppendRequest)
    requires Dense(1, s.log)
    ensures var (t, out) := Replicate(s, request);
            var k := FirstNew(s.log, request.prev, request.entries, 0);
            (out == AppendThrew && t.log != s.log) <==>
            (&& k < |request.entries| && request.prev + k < |s.log|
             && !Dense(request.prev + 1 + k, request.entries[k..]))
  {
    var k := FirstNew(s.log, request.prev, request.entries, 0);
    FirstNewMeaning(s.log, request.prev, request.entries, 0);
    if k < |request.entries| && request.prev + k < |s.log| {
      assert s.log[request.prev + k].term != 0;
    }
  }
}
