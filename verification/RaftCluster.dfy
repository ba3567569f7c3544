/** The cluster as a state machine: any number of nodes, a network that loses, duplicates, delays and
    reorders, crashes at any point, and the leader's propose and send steps as environment steps. */
module RaftCluster {
  import opened Options
  import opened RaftTypes
  import opened RaftNodes

  datatype Message =
    | AskVote(request: VoteRequest)
    | Voted(sentTerm: nat, voter: NodeId, candidate: NodeId, term: nat, granted: bool)
    | Append(append: AppendRequest)
    | Acked(ackTerm: nat, follower: NodeId, upTo: nat)

  datatype Campaign = Campaign(term: nat, candidate: NodeId)
  datatype Slot = Slot(voter: NodeId, term: nat)
  datatype Ballot = Ballot(candidate: NodeId, own: seq<Entry>)
  datatype Win = Win(term: nat, node: NodeId)

  /** What has happened so far. No step reads it: it only records campaigns with the candidate's log,
      each voter's first vote in a term with the voter's log, every election win, and the log of each
      term's leader. */
  datatype History = History(
    campaigns: map<Campaign, seq<Entry>>,
    ballots: map<Slot, Ballot>,
    wins: set<Win>,
    leaderLogs: map<nat, seq<Entry>>)

  /** Messages are never removed: a message may be delivered never, late, twice or out of order. */
  datatype Cluster = Cluster(nodes: map<NodeId, Node>, net: set<Message>, history: History)

  datatype Action =
    | Timeout(node: NodeId)
    | DeliverAskVote(node: NodeId, message: Message)
    | DeliverVoted(node: NodeId, message: Message)
    | Propose(node: NodeId, operations: seq<Mutation>)
    | Send(node: NodeId, from: nat, to: nat, commit: nat)
    | DeliverAppend(node: NodeId, message: Message)
    | Crash(node: NodeId, keep: nat, watermark: nat)
    | CrashInAppend(node: NodeId, message: Message, cut: bool, keep: nat, watermark: nat)

  function Init(members: set<NodeId>): Cluster {
    Cluster(map n | n in members :: FRESH, {}, History(map[], map[], {}, map[]))
  }

  /** Node n becomes s; entering leadership is recorded as a win together with the leader's log. */
  function Update(c: Cluster, n: NodeId, s: Node): Cluster
    requires n in c.nodes
  {
    var h := if s.role == Leader && c.nodes[n].role != Leader
             then c.history.(wins := c.history.wins + {Win(s.term, n)},
                             leaderLogs := c.history.leaderLogs[s.term := s.log])
             else c.history;
    Cluster(c.nodes[n := s], c.net, h)
  }

  function CastBallot(h: History, slot: Slot, ballot: Ballot): History {
    if slot in h.ballots then h else h.(ballots := h.ballots[slot := ballot])
  }

  function OnTimeout(members: set<NodeId>, c: Cluster, n: NodeId): Cluster
    requires n in c.nodes
  {
    var s := c.nodes[n];
    var t := StartCampaign(Config(n, members), s);
    var h := c.history.(campaigns := c.history.campaigns[Campaign(t.term, n) := s.log]);
    var started := c.(history := CastBallot(h, Slot(n, t.term), Ballot(n, s.log)),
                      net := c.net + {AskVote(VoteRequest(t.term, n, LastOf(s.log)))});
    Update(started, n, t)
  }

  function OnAskVote(members: set<NodeId>, c: Cluster, n: NodeId, request: VoteRequest): Cluster
    requires n in c.nodes
  {
    var s := c.nodes[n];
    var (t, out) := OnRequestVote(Config(n, members), s, request);
    if !out.VoteAnswer? then Update(c, n, t)
    else
      var h := if out.granted
               then CastBallot(c.history, Slot(n, request.term), Ballot(request.candidate, s.log))
               else c.history;
      Update(c.(history := h, net := c.net + {Voted(request.term, n, request.candidate, out.term, out.granted)}), n, t)
  }

  function OnAppend(members: set<NodeId>, c: Cluster, n: NodeId, request: AppendRequest): Cluster
    requires n in c.nodes
  {
    var (t, out) := OnAppendEntries(Config(n, members), c.nodes[n], request);
    var acks := if out.AppendAnswer? && out.success
                then {Acked(request.term, n, request.prev + |request.entries|)} else {};
    Update(c.(net := c.net + acks), n, t)
  }

  function OnPropose(c: Cluster, n: NodeId, operations: seq<Mutation>): Cluster
    requires n in c.nodes
  {
    var s := c.nodes[n];
    var log := s.log + [Entry(s.term, |s.log| + 1, operations)];
    c.(nodes := c.nodes[n := s.(log := log)], history := c.history.(leaderLogs := c.history.leaderLogs[s.term := log]))
  }

  /** One step. An action whose guard fails changes nothing, so every sequence of actions is a run. */
  function Step(members: set<NodeId>, c: Cluster, a: Action): Cluster {
    if a.node !in members || a.node !in c.nodes then c
    else
      var s := c.nodes[a.node];
      match a
      case Timeout(n) => if s.role == Leader then c else OnTimeout(members, c, n)
      case DeliverAskVote(n, m) =>
        if m in c.net && m.AskVote? then OnAskVote(members, c, n, m.request) else c
      case DeliverVoted(n, m) =>
        if m in c.net && m.Voted? && m.candidate == n && m.voter != n
        then Update(c, n, OnVoteReply(Config(n, members), s, m.sentTerm, m.voter, m.term, m.granted)) else c
      case Propose(n, operations) => if s.role == Leader then OnPropose(c, n, operations) else c
      case Send(n, from, to, commit) =>
        if s.role == Leader && from <= to <= |s.log|
        then c.(net := c.net + {Append(AppendRequest(s.term, n, from, TermAt(s.log, from), s.log[from..to], commit))})
        else c
      case DeliverAppend(n, m) =>
        if m in c.net && m.Append? then OnAppend(members, c, n, m.append) else c
      case Crash(n, keep, watermark) =>
        if s.durable <= keep <= |s.log| then Update(c, n, Restart(s, keep, watermark)) else c
      case CrashInAppend(n, m, cut, keep, watermark) =>
        if m in c.net && m.Append?
        then
          var t := if cut then OnAppendEntries(Config(n, members), s, m.append).0
            else Followed(Config(n, members), s, m.append);
          if CrashFloor(Config(n, members), s, m.append) <= keep <= |t.log|
          then Update(c, n, Restart(t, keep, watermark)) else c
        else c
  }

  function Run(members: set<NodeId>, actions: seq<Action>): Cluster {
    if actions == [] then Init(members)
    else Step(members, Run(members, actions[..|actions| - 1]), actions[|actions| - 1])
  }

  // ---------------------------------------------------------------- the invariant

  ghost predicate BallotFor(h: History, v: NodeId, term: nat, candidate: NodeId) {
    Slot(v, term) in h.ballots && h.ballots[Slot(v, term)].candidate == candidate
  }

  ghost function Supporters(members: set<NodeId>, h: History, term: nat, candidate: NodeId): set<NodeId> {
    set v | v in members && BallotFor(h, v, term, candidate)
  }

  /** Every prefix of the log that ends in an entry of term t is a prefix of the term-t leader's log. */
  ghost predicate Grounded(log: seq<Entry>, leaderLogs: map<nat, seq<Entry>>) {
    forall i :: 0 <= i < |log| ==>
      && log[i].term in leaderLogs
      && i < |leaderLogs[log[i].term]|
      && log[..i + 1] == leaderLogs[log[i].term][..i + 1]
  }

  ghost predicate TermsUpTo(log: seq<Entry>, term: nat) {
    forall i :: 0 <= i < |log| ==> log[i].term <= term
  }

  ghost predicate NodeSane(members: set<NodeId>, n: NodeId, s: Node) {
    && s.term == s.hard.term && s.votedFor == s.hard.votedFor
    && s.votes <= members - {n}
    && Dense(1, s.log) && TermsUpTo(s.log, s.term)
    && s.durable <= |s.log|
  }

  ghost predicate RoleBacked(h: History, n: NodeId, s: Node) {
    && (s.votedFor.Some? ==> Slot(n, s.term) in h.ballots)
    && (s.role == Candidate ==>
          && Campaign(s.term, n) in h.campaigns
          && h.campaigns[Campaign(s.term, n)] == s.log
          && s.votedFor == Some(n)
          && (forall v :: v in s.votes ==> BallotFor(h, v, s.term, n)))
    && (s.role == Leader ==>
          && Win(s.term, n) in h.wins
          && s.term in h.leaderLogs
          && h.leaderLogs[s.term] == s.log)
    && Grounded(s.log, h.leaderLogs)
  }

  /** The recorded past of node n lies at or below its durable term. */
  ghost predicate PastBounded(h: History, n: NodeId, s: Node) {
    && (forall t: nat :: Slot(n, t) in h.ballots ==>
          1 <= t <= s.term && (t == s.term ==> s.votedFor == Some(h.ballots[Slot(n, t)].candidate)))
    && (forall t: nat :: Campaign(t, n) in h.campaigns ==> t <= s.term)
    && (forall t: nat :: Win(t, n) in h.wins ==> t <= s.term && (t == s.term ==> s.role != Candidate))
  }

  /** An acknowledged prefix stays durable while the follower's term lasts. */
  ghost predicate AcksHeld(h: History, net: set<Message>, n: NodeId, s: Node) {
    forall t: nat, m: nat :: Acked(t, n, m) in net ==>
      && t <= s.term
      && (t == s.term ==>
            && t in h.leaderLogs
            && m <= s.durable && m <= |s.log| && m <= |h.leaderLogs[t]|
            && s.log[..m] == h.leaderLogs[t][..m])
  }

  ghost predicate Local(members: set<NodeId>, h: History, net: set<Message>, n: NodeId, s: Node) {
    NodeSane(members, n, s) && RoleBacked(h, n, s) && PastBounded(h, n, s) && AcksHeld(h, net, n, s)
  }

  ghost predicate SliceOfLeader(h: History, r: AppendRequest) {
    && Win(r.term, r.leader) in h.wins
    && r.term in h.leaderLogs
    && var log := h.leaderLogs[r.term];
       && r.prev + |r.entries| <= |log|
       && r.entries == log[r.prev..r.prev + |r.entries|]
       && r.prevTerm == TermAt(log, r.prev)
  }

  ghost predicate MessageBacked(members: set<NodeId>, h: History, m: Message) {
    match m
    case AskVote(r) =>
      Campaign(r.term, r.candidate) in h.campaigns && LastOf(h.campaigns[Campaign(r.term, r.candidate)]) == r.last
    case Voted(sentTerm, voter, candidate, _, granted) =>
      voter in members && (granted ==> BallotFor(h, voter, sentTerm, candidate))
    case Append(r) => SliceOfLeader(h, r)
    case Acked(_, follower, _) => follower in members
  }

  ghost predicate Elected(h: History, term: nat) {
    exists n :: Win(term, n) in h.wins
  }

  /** The log the winner leads with starts as the log it campaigned with. */
  ghost predicate LeadsWhatItCampaignedWith(h: History, w: Win) {
    && Campaign(w.term, w.node) in h.campaigns
    && w.term in h.leaderLogs
    && h.campaigns[Campaign(w.term, w.node)] <= h.leaderLogs[w.term]
  }

  ghost function LastTerm(log: seq<Entry>): nat {
    if log == [] then 0 else log[|log| - 1].term
  }

  /** A log that ends in an earlier term than the other, or in the same term and not after it. */
  ghost predicate NotAfter(log: seq<Entry>, other: seq<Entry>) {
    LastTerm(log) < LastTerm(other) || (LastTerm(log) == LastTerm(other) && |log| <= |other|)
  }

  ghost predicate HistorySound(members: set<NodeId>, h: History) {
    && (forall k :: k in h.campaigns ==> k.candidate in members && k.term >= 1)
    && (forall b :: b in h.ballots ==>
          && b.voter in members
          && Campaign(b.term, h.ballots[b].candidate) in h.campaigns
          && NotAfter(h.ballots[b].own, h.campaigns[Campaign(b.term, h.ballots[b].candidate)]))
    && (forall w :: w in h.wins ==>
          && w.node in members
          && LeadsWhatItCampaignedWith(h, w)
          && 2 * |Supporters(members, h, w.term, w.node)| > |members|)
    && (forall t :: t in h.leaderLogs ==>
          && Elected(h, t)
          && Dense(1, h.leaderLogs[t]) && TermsUpTo(h.leaderLogs[t], t)
          && Grounded(h.leaderLogs[t], h.leaderLogs))
  }

  ghost predicate Inv(members: set<NodeId>, c: Cluster) {
    && c.nodes.Keys == members
    && HistorySound(members, c.history)
    && (forall m :: m in c.net ==> MessageBacked(members, c.history, m))
    && (forall n :: n in members ==> Local(members, c.history, c.net, n, c.nodes[n]))
  }
}
