/** Election Safety, Log Matching and durable acknowledgement over every run of the cluster. */
module RaftSafety {
  import opened Options
  import opened RaftTypes
  import opened RaftNodes
  import opened RaftCluster

  // ---------------------------------------------------------------- quorums

  lemma SubsetSize<T>(a: set<T>, b: set<T>)
    requires a <= b
    ensures |a| <= |b|
  {
    if a != b {
      assert b == a + (b - a);
    }
  }

  /** Two candidates that each hold a majority of the ballots of one term are the same candidate. */
  lemma MajoritiesMeet(members: set<NodeId>, h: History, term: nat, a: NodeId, b: NodeId)
    requires 2 * |Supporters(members, h, term, a)| > |members|
    requires 2 * |Supporters(members, h, term, b)| > |members|
    ensures a == b
  {
    var sa, sb := Supporters(members, h, term, a), Supporters(members, h, term, b);
    if a != b {
      assert sa !! sb;
      assert |sa + sb| == |sa| + |sb|;
      SubsetSize(sa + sb, members);
    }
  }

  // ---------------------------------------------------------------- history only grows

  ghost predicate Grows(h: History, g: History) {
    && (forall k :: k in h.campaigns ==> k in g.campaigns && g.campaigns[k] == h.campaigns[k])
    && (forall k :: k in h.ballots ==> k in g.ballots && g.ballots[k] == h.ballots[k])
    && h.wins <= g.wins
    && (forall t :: t in h.leaderLogs ==> t in g.leaderLogs && h.leaderLogs[t] <= g.leaderLogs[t])
  }

  lemma GroundedGrows(log: seq<Entry>, h: History, g: History)
    requires Grounded(log, h.leaderLogs) && Grows(h, g)
    ensures Grounded(log, g.leaderLogs)
  {
    forall i | 0 <= i < |log|
      ensures log[i].term in g.leaderLogs && i < |g.leaderLogs[log[i].term]|
      ensures log[..i + 1] == g.leaderLogs[log[i].term][..i + 1]
    {
      var old_ := h.leaderLogs[log[i].term];
      assert old_[..i + 1] == g.leaderLogs[log[i].term][..i + 1];
    }
  }

  lemma GroundedPrefix(log: seq<Entry>, leaderLogs: map<nat, seq<Entry>>, k: nat)
    requires Grounded(log, leaderLogs) && k <= |log|
    ensures Grounded(log[..k], leaderLogs)
  {
    var cut := log[..k];
    forall i | 0 <= i < |cut| ensures cut[..i + 1] == leaderLogs[cut[i].term][..i + 1] {
      assert cut[..i + 1] == log[..i + 1];
    }
  }

  lemma SupportersGrow(members: set<NodeId>, h: History, g: History, term: nat, n: NodeId)
    requires Grows(h, g)
    ensures |Supporters(members, h, term, n)| <= |Supporters(members, g, term, n)|
  {
    SubsetSize(Supporters(members, h, term, n), Supporters(members, g, term, n));
  }

  lemma MessageGrows(members: set<NodeId>, h: History, g: History, m: Message)
    requires Grows(h, g) && MessageBacked(members, h, m)
    ensures MessageBacked(members, g, m)
  {
    if m.Append? {
      var r := m.append;
      var was, now := h.leaderLogs[r.term], g.leaderLogs[r.term];
      assert now[r.prev..r.prev + |r.entries|] == was[r.prev..r.prev + |r.entries|];
    }
  }

  /** Nothing recorded about node m is new. */
  ghost predicate Quiet(h: History, g: History, net: set<Message>, more: set<Message>, m: NodeId) {
    && (forall t: nat :: Slot(m, t) in g.ballots ==> Slot(m, t) in h.ballots)
    && (forall t: nat :: Campaign(t, m) in g.campaigns ==> Campaign(t, m) in h.campaigns)
    && (forall t: nat :: Win(t, m) in g.wins ==> Win(t, m) in h.wins)
    && (forall t: nat, k: nat :: Acked(t, m, k) in more ==> Acked(t, m, k) in net)
  }

  lemma LocalGrows(members: set<NodeId>, h: History, g: History, net: set<Message>, more: set<Message>, m: NodeId,
      s: Node)
    requires Local(members, h, net, m, s) && Grows(h, g) && Quiet(h, g, net, more, m)
    requires s.role == Leader ==> g.leaderLogs[s.term] == h.leaderLogs[s.term]
    ensures Local(members, g, more, m, s)
  {
    GroundedGrows(s.log, h, g);
    forall t: nat, k: nat | Acked(t, m, k) in more && t == s.term
      ensures t in g.leaderLogs && k <= |s.log| && k <= |g.leaderLogs[t]| && s.log[..k] == g.leaderLogs[t][..k]
    {
      assert Acked(t, m, k) in net;
      assert h.leaderLogs[t][..k] == g.leaderLogs[t][..k];
    }
  }

  /** One node moves, the history grows, and the other nodes' recorded past is untouched. */
  lemma Assemble(members: set<NodeId>, c: Cluster, d: Cluster, n: NodeId)
    requires Inv(members, c) && n in members
    requires d.nodes.Keys == members && (forall m :: m in members && m != n ==> d.nodes[m] == c.nodes[m])
    requires Grows(c.history, d.history) && HistorySound(members, d.history)
    requires c.net <= d.net && (forall m :: m in d.net ==> m in c.net || MessageBacked(members, d.history, m))
    requires Local(members, d.history, d.net, n, d.nodes[n])
    requires forall m :: m in members && m != n ==> Quiet(c.history, d.history, c.net, d.net, m)
    requires forall m :: m in members && m != n && c.nodes[m].role == Leader ==>
               d.history.leaderLogs[c.nodes[m].term] == c.history.leaderLogs[c.nodes[m].term]
    ensures Inv(members, d)
  {
    forall m | m in d.net ensures MessageBacked(members, d.history, m) {
      if m in c.net { MessageGrows(members, c.history, d.history, m); }
    }
    forall m | m in members ensures Local(members, d.history, d.net, m, d.nodes[m]) {
      if m != n { LocalGrows(members, c.history, d.history, c.net, d.net, m, c.nodes[m]); }
    }
  }

  // ---------------------------------------------------------------- one node's own steps

  /** Following a leader or a higher term keeps everything recorded about the node true. */
  lemma FollowLocal(members: set<NodeId>, h: History, net: set<Message>, n: NodeId, s: Node, term: nat,
      leader: Option<NodeId>)
    requires Local(members, h, net, n, s)
    ensures Local(members, h, net, n, BecomeFollower(s, term, leader))
  {
  }

  /** A restart that keeps every acknowledged prefix of the current term. */
  lemma RestartLocal(members: set<NodeId>, h: History, net: set<Message>, n: NodeId, s: Node, keep: nat, watermark: nat)
    requires Local(members, h, net, n, s) && keep <= |s.log|
    requires forall m: nat :: Acked(s.term, n, m) in net ==> m <= keep
    ensures Local(members, h, net, n, Restart(s, keep, watermark))
  {
    var t := Restart(s, keep, watermark);
    GroundedPrefix(s.log, h.leaderLogs, keep);
    assert Dense(1, t.log) && TermsUpTo(t.log, t.term);
    forall k: nat | k <= keep ensures t.log[..k] == s.log[..k] {}
  }

  // ---------------------------------------------------------------- winning an election

  /** A candidate with a majority is the first winner of its term. */
  lemma FirstWinner(members: set<NodeId>, h: History, n: NodeId, s: Node)
    requires HistorySound(members, h) && PastBounded(h, n, s) && s.role == Candidate
    requires 2 * |Supporters(members, h, s.term, n)| > |members|
    ensures s.term !in h.leaderLogs
  {
    if s.term in h.leaderLogs {
      assert Elected(h, s.term);
      var m :| Win(s.term, m) in h.wins;
      MajoritiesMeet(members, h, s.term, n, m);
    }
  }

  lemma LeadsGrows(h: History, g: History, w: Win)
    requires LeadsWhatItCampaignedWith(h, w) && Grows(h, g)
    ensures LeadsWhatItCampaignedWith(g, w)
  {
  }

  function Crown(h: History, n: NodeId, term: nat, log: seq<Entry>): History {
    h.(wins := h.wins + {Win(term, n)}, leaderLogs := h.leaderLogs[term := log])
  }

  lemma CrownSound(members: set<NodeId>, h: History, n: NodeId, term: nat, log: seq<Entry>)
    requires HistorySound(members, h) && term !in h.leaderLogs && n in members
    requires Campaign(term, n) in h.campaigns && h.campaigns[Campaign(term, n)] == log
    requires 2 * |Supporters(members, h, term, n)| > |members|
    requires Dense(1, log) && TermsUpTo(log, term) && Grounded(log, h.leaderLogs)
    ensures Grows(h, Crown(h, n, term, log)) && HistorySound(members, Crown(h, n, term, log))
  {
    hide Dense, TermsUpTo, Grounded, LastOf, LeadsWhatItCampaignedWith, Supporters, UpToDate;
    var g := Crown(h, n, term, log);
    assert Grows(h, g);
    GroundedGrows(log, h, g);
    CrownLeads(h, n, term, log);
    forall w | w in g.wins
      ensures 2 * |Supporters(members, g, w.term, w.node)| > |members| && LeadsWhatItCampaignedWith(g, w)
    {
      SupportersGrow(members, h, g, w.term, w.node);
      if w in h.wins { LeadsGrows(h, g, w); }
    }
    forall t | t in g.leaderLogs
      ensures Elected(g, t) && Grounded(g.leaderLogs[t], g.leaderLogs)
    {
      if t == term {
        assert Win(t, n) in g.wins;
      } else {
        GroundedGrows(h.leaderLogs[t], h, g);
        assert Elected(h, t);
        var m :| Win(t, m) in h.wins;
        assert Win(t, m) in g.wins;
      }
    }
  }

  lemma CrownLeads(h: History, n: NodeId, term: nat, log: seq<Entry>)
    requires Campaign(term, n) in h.campaigns && h.campaigns[Campaign(term, n)] == log
    ensures LeadsWhatItCampaignedWith(Crown(h, n, term, log), Win(term, n))
  {
  }

  // ---------------------------------------------------------------- every action keeps the invariant

  /** What the invariant says about one node. */
  lemma InvAt(members: set<NodeId>, c: Cluster, n: NodeId)
    requires Inv(members, c) && n in members
    ensures n in c.nodes && c.nodes.Keys == members && HistorySound(members, c.history)
    ensures Local(members, c.history, c.net, n, c.nodes[n])
  {
  }

  lemma InvMail(members: set<NodeId>, c: Cluster, m: Message)
    requires Inv(members, c) && m in c.net
    ensures MessageBacked(members, c.history, m)
  {
  }

  /** Recording a ballot for a known campaign. */
  lemma BallotSound(members: set<NodeId>, h: History, slot: Slot, ballot: Ballot)
    requires HistorySound(members, h) && slot.voter in members
    requires Campaign(slot.term, ballot.candidate) in h.campaigns
    requires NotAfter(ballot.own, h.campaigns[Campaign(slot.term, ballot.candidate)])
    ensures Grows(h, CastBallot(h, slot, ballot)) && HistorySound(members, CastBallot(h, slot, ballot))
  {
    var g := CastBallot(h, slot, ballot);
    assert Grows(h, g);
    forall w | w in g.wins
      ensures 2 * |Supporters(members, g, w.term, w.node)| > |members| && LeadsWhatItCampaignedWith(g, w)
    {
      SupportersGrow(members, h, g, w.term, w.node);
      LeadsGrows(h, g, w);
    }
    forall t | t in g.leaderLogs ensures Elected(g, t) {
      assert Elected(h, t);
    }
  }

  lemma CampaignSound(members: set<NodeId>, h: History, k: Campaign, log: seq<Entry>)
    requires HistorySound(members, h) && k !in h.campaigns && k.candidate in members && k.term >= 1
    ensures var g := h.(campaigns := h.campaigns[k := log]);
            Grows(h, g) && HistorySound(members, g)
  {
    var g := h.(campaigns := h.campaigns[k := log]);
    forall w | w in g.wins
      ensures 2 * |Supporters(members, g, w.term, w.node)| > |members| && LeadsWhatItCampaignedWith(g, w)
    {
      SupportersGrow(members, h, g, w.term, w.node);
      LeadsGrows(h, g, w);
    }
    forall t | t in g.leaderLogs ensures Elected(g, t) {
      assert Elected(h, t);
    }
  }

  /** The history after node n starts a campaign in `term`: the campaign and the self-vote. */
  function Campaigned(h: History, n: NodeId, term: nat, log: seq<Entry>): History {
    CastBallot(h.(campaigns := h.campaigns[Campaign(term, n) := log]), Slot(n, term), Ballot(n, log))
  }

  lemma CampaignedSound(members: set<NodeId>, h: History, n: NodeId, s: Node)
    requires HistorySound(members, h) && PastBounded(h, n, s) && n in members
    ensures var g := Campaigned(h, n, s.term + 1, s.log);
            && Grows(h, g) && HistorySound(members, g)
            && BallotFor(g, n, s.term + 1, n)
  {
    CampaignSound(members, h, Campaign(s.term + 1, n), s.log);
    BallotSound(members, h.(campaigns := h.campaigns[Campaign(s.term + 1, n) := s.log]), Slot(n, s.term + 1),
      Ballot(n, s.log));
  }

  lemma CandidateLocal(members: set<NodeId>, h: History, net: set<Message>, n: NodeId, s: Node, ask: VoteRequest)
    requires Local(members, h, net, n, s)
    requires Grows(h, Campaigned(h, n, s.term + 1, s.log))
    ensures Local(members, Campaigned(h, n, s.term + 1, s.log), net + {AskVote(ask)}, n,
                  BecomeCandidate(Config(n, members), s))
  {
    GroundedGrows(s.log, h, Campaigned(h, n, s.term + 1, s.log));
  }

  lemma CampaignedQuiet(h: History, net: set<Message>, n: NodeId, term: nat, log: seq<Entry>, ask: VoteRequest,
      m: NodeId)
    requires m != n
    ensures Quiet(h, Campaigned(h, n, term, log), net, net + {AskVote(ask)}, m)
  {
  }

  /** A candidate backed by a majority becomes the leader: the history gains a win and a leader log. */
  lemma CrownLocal(members: set<NodeId>, h: History, net: set<Message>, n: NodeId, s: Node)
    requires HistorySound(members, h) && Local(members, h, net, n, s) && n in members && s.role == Candidate
    requires 2 * |Supporters(members, h, s.term, n)| > |members|
    ensures var g := Crown(h, n, s.term, s.log);
            && Grows(h, g) && HistorySound(members, g)
            && Local(members, g, net, n, BecomeLeader(Config(n, members), s))
            && s.term !in h.leaderLogs
            && (forall m :: m != n ==> Quiet(h, g, net, net, m))
  {
    FirstWinner(members, h, n, s);
    CrownSound(members, h, n, s.term, s.log);
    GroundedGrows(s.log, h, Crown(h, n, s.term, s.log));
  }

  lemma AloneIsMajority(members: set<NodeId>, h: History, n: NodeId, term: nat)
    requires n in members && |members| / 2 + 1 <= 1 && BallotFor(h, n, term, n)
    ensures 2 * |Supporters(members, h, term, n)| > |members|
  {
    SubsetSize({n}, Supporters(members, h, term, n));
  }

  /** The cluster after node n has started a campaign. */
  function Campaigning(members: set<NodeId>, c: Cluster, n: NodeId): Cluster
    requires n in c.nodes
  {
    var s := c.nodes[n];
    Cluster(c.nodes[n := BecomeCandidate(Config(n, members), s)],
            c.net + {AskVote(VoteRequest(s.term + 1, n, LastOf(s.log)))}, Campaigned(c.history, n, s.term + 1, s.log))
  }

  lemma CampaignKeeps(members: set<NodeId>, c: Cluster, n: NodeId)
    requires Inv(members, c) && n in members && n in c.nodes
    ensures Inv(members, Campaigning(members, c, n))
    ensures BallotFor(Campaigning(members, c, n).history, n, c.nodes[n].term + 1, n)
  {
    hide Grows, HistorySound, Quiet, Local, MessageBacked, LastOf, Inv;
    InvAt(members, c, n);
    var s, h := c.nodes[n], c.history;
    var ask := VoteRequest(s.term + 1, n, LastOf(s.log));
    LocalPast(members, h, c.net, n, s);
    CampaignedSound(members, h, n, s);
    CandidateLocal(members, h, c.net, n, s, ask);
    var d := Campaigning(members, c, n);
    forall m | m in members && m != n ensures Quiet(h, d.history, c.net, d.net, m) {
      CampaignedQuiet(h, c.net, n, s.term + 1, s.log, ask, m);
    }
    AskBacked(members, h, n, s.term + 1, s.log);
    LeaderLogsKept(members, c, d.history, n, s.term + 1);
    Assemble(members, c, d, n);
  }

  lemma LocalPast(members: set<NodeId>, h: History, net: set<Message>, n: NodeId, s: Node)
    requires Local(members, h, net, n, s)
    ensures PastBounded(h, n, s)
  {
  }

  /** A candidate with a majority behind it may take office. */
  lemma CrownKeeps(members: set<NodeId>, c: Cluster, n: NodeId)
    requires Inv(members, c) && n in members && n in c.nodes && c.nodes[n].role == Candidate
    requires 2 * |Supporters(members, c.history, c.nodes[n].term, n)| > |members|
    ensures Inv(members, Update(c, n, BecomeLeader(Config(n, members), c.nodes[n])))
  {
    hide Grows, HistorySound, Quiet, Local, MessageBacked, LastOf, Inv, Supporters;
    InvAt(members, c, n);
    CrownLocal(members, c.history, c.net, n, c.nodes[n]);
    var d := Update(c, n, BecomeLeader(Config(n, members), c.nodes[n]));
    LeaderLogsKept(members, c, d.history, n, c.nodes[n].term);
    Assemble(members, c, d, n);
  }

  lemma TimeoutKeeps(members: set<NodeId>, c: Cluster, n: NodeId)
    requires Inv(members, c) && n in members && n in c.nodes && c.nodes[n].role != Leader
    ensures Inv(members, OnTimeout(members, c, n))
  {
    hide Inv, Supporters, LastOf;
    CampaignKeeps(members, c, n);
    var d := Campaigning(members, c, n);
    if |members| / 2 + 1 <= 1 {
      AloneIsMajority(members, d.history, n, c.nodes[n].term + 1);
      CrownKeeps(members, d, n);
      assert d.nodes[n := BecomeLeader(Config(n, members), d.nodes[n])]
        == c.nodes[n := BecomeLeader(Config(n, members), d.nodes[n])];
    }
  }

  lemma AskBacked(members: set<NodeId>, h: History, n: NodeId, term: nat, log: seq<Entry>)
    ensures MessageBacked(members, Campaigned(h, n, term, log), AskVote(VoteRequest(term, n, LastOf(log))))
  {
  }

  /** A leader log entered for a term that had none leaves the other leaders' logs alone. */
  lemma LeaderLogsKept(members: set<NodeId>, c: Cluster, g: History, n: NodeId, term: nat)
    requires Inv(members, c)
    requires forall t :: t in c.history.leaderLogs ==> t in g.leaderLogs && (g.leaderLogs[t] == c.history.leaderLogs[t])
    ensures forall m :: m in members && m != n && c.nodes[m].role == Leader ==>
              c.nodes[m].term in c.history.leaderLogs &&
              c.nodes[m].term in g.leaderLogs &&
              g.leaderLogs[c.nodes[m].term] == c.history.leaderLogs[c.nodes[m].term]
  {
    forall m | m in members && m != n && c.nodes[m].role == Leader
      ensures c.nodes[m].term in c.history.leaderLogs
    {
      assert Local(members, c.history, c.net, m, c.nodes[m]);
    }
  }

  lemma GrantedIsNotAfter(f: Node, request: VoteRequest, log: seq<Entry>)
    requires WillGrant(f, request) && request.last == LastOf(log)
    ensures NotAfter(f.log, log)
  {
  }

  lemma VoteLocal(members: set<NodeId>, h: History, net: set<Message>, n: NodeId, f: Node, t: Node,
      request: VoteRequest, answer: Message)
    requires Local(members, h, net, n, f) && HistorySound(members, h) && n in members
    requires Campaign(request.term, request.candidate) in h.campaigns
    requires LastOf(h.campaigns[Campaign(request.term, request.candidate)]) == request.last
    requires WillGrant(f, request) && f.term == request.term != 0 && !answer.Acked?
    requires t == f.(hard := HardState(f.term, Some(request.candidate)), votedFor := Some(request.candidate))
    ensures var g := CastBallot(h, Slot(n, request.term), Ballot(request.candidate, f.log));
            && Grows(h, g) && HistorySound(members, g)
            && Local(members, g, net + {answer}, n, t)
            && BallotFor(g, n, request.term, request.candidate)
            && (forall m :: m != n ==> Quiet(h, g, net, net + {answer}, m))
  {
    var g := CastBallot(h, Slot(n, request.term), Ballot(request.candidate, f.log));
    GrantedIsNotAfter(f, request, h.campaigns[Campaign(request.term, request.candidate)]);
    BallotSound(members, h, Slot(n, request.term), Ballot(request.candidate, f.log));
    GroundedGrows(f.log, h, g);
  }

  lemma SameHistory(members: set<NodeId>, c: Cluster, d: Cluster, n: NodeId)
    requires Inv(members, c) && n in members && d.history == c.history
    requires d.nodes.Keys == members && (forall m :: m in members && m != n ==> d.nodes[m] == c.nodes[m])
    requires c.net <= d.net
    requires forall m :: m in d.net ==>
             m in c.net || (MessageBacked(members, d.history, m) && (m.Acked? ==> m.follower == n))
    requires Local(members, d.history, d.net, n, d.nodes[n])
    ensures Inv(members, d)
  {
    Assemble(members, c, d, n);
  }

  lemma MoreMail(members: set<NodeId>, h: History, net: set<Message>, m: Message, n: NodeId, s: Node)
    requires Local(members, h, net, n, s) && !m.Acked?
    ensures Local(members, h, net + {m}, n, s)
  {
  }

  lemma AskVoteKeeps(members: set<NodeId>, c: Cluster, n: NodeId, request: VoteRequest)
    requires Inv(members, c) && n in members && AskVote(request) in c.net
    ensures Inv(members, OnAskVote(members, c, n, request))
  {
    hide Grows, HistorySound, Quiet, RoleBacked, AcksHeld, NodeSane, PastBounded, LastOf, UpToDate;
    var s, h := c.nodes[n], c.history;
    var cfg := Config(n, members);
    var (t, out) := OnRequestVote(cfg, s, request);
    var d := OnAskVote(members, c, n, request);
    assert Local(members, h, c.net, n, s);
    assert MessageBacked(members, h, AskVote(request));
    if !cfg.IsPeer(request.candidate) {
      SameHistory(members, c, d, n);
    } else if request.term < s.term {
      MoreMail(members, h, c.net, Voted(request.term, n, request.candidate, s.term, false), n, s);
      SameHistory(members, c, d, n);
    } else {
      var f := if request.term > s.term then BecomeFollower(s, request.term, None) else s;
      FollowLocal(members, h, c.net, n, s, request.term, None);
      assert f.log == s.log;
      AskVoteAnswered(members, c, n, request, f);
    }
  }

  lemma AskVoteAnswered(members: set<NodeId>, c: Cluster, n: NodeId, request: VoteRequest, f: Node)
    requires Inv(members, c) && n in members && AskVote(request) in c.net
    requires Config(n, members).IsPeer(request.candidate)
    requires request.term >= c.nodes[n].term
    requires f == if request.term > c.nodes[n].term then BecomeFollower(c.nodes[n], request.term, None) else c.nodes[n]
    requires Local(members, c.history, c.net, n, f)
    ensures Inv(members, OnAskVote(members, c, n, request))
  {
    hide Grows, HistorySound, Quiet, RoleBacked, AcksHeld, NodeSane, PastBounded, LastOf, UpToDate;
    var s, h := c.nodes[n], c.history;
    var (t, out) := OnRequestVote(Config(n, members), s, request);
    var d := OnAskVote(members, c, n, request);
    assert MessageBacked(members, h, AskVote(request));
    if out.VoteThrew? {
      SameHistory(members, c, d, n);
    } else {
      var answer := Voted(request.term, n, request.candidate, out.term, out.granted);
      if out.granted {
        VoteGranted(members, c, n, request, f);
      } else {
        MoreMail(members, h, c.net, answer, n, f);
        SameHistory(members, c, d, n);
      }
    }
  }

  lemma VoteGranted(members: set<NodeId>, c: Cluster, n: NodeId, request: VoteRequest, f: Node)
    requires Inv(members, c) && n in members && AskVote(request) in c.net
    requires Config(n, members).IsPeer(request.candidate)
    requires request.term >= c.nodes[n].term
    requires f == if request.term > c.nodes[n].term then BecomeFollower(c.nodes[n], request.term, None) else c.nodes[n]
    requires Local(members, c.history, c.net, n, f)
    requires OnRequestVote(Config(n, members), c.nodes[n], request).1 == VoteAnswer(request.term, true)
    ensures Inv(members, OnAskVote(members, c, n, request))
  {
    hide Grows, HistorySound, Quiet, Local, LastOf, UpToDate, Inv;
    InvAt(members, c, n);
    InvMail(members, c, AskVote(request));
    var s, h := c.nodes[n], c.history;
    var (t, out) := OnRequestVote(Config(n, members), s, request);
    var d := OnAskVote(members, c, n, request);
    var answer := Voted(request.term, n, request.candidate, out.term, out.granted);
    assert f.log == s.log && WillGrant(f, request);
    assert MessageBacked(members, h, AskVote(request));
    VotedForNonzero(members, h, c.net, n, f);
    assert t == f.(hard := HardState(f.term, Some(request.candidate)), votedFor := Some(request.candidate));
    VoteLocal(members, h, c.net, n, f, t, request, answer);
    LeaderLogsKept(members, c, d.history, n, f.term);
    Assemble(members, c, d, n);
  }

  lemma VotedForNonzero(members: set<NodeId>, h: History, net: set<Message>, n: NodeId, s: Node)
    requires Local(members, h, net, n, s)
    ensures s.votedFor.Some? ==> s.term != 0
    ensures s.hard == HardState(s.term, s.votedFor)
  {
    if s.votedFor.Some? { assert Slot(n, s.term) in h.ballots; }
  }

  lemma CountLocal(members: set<NodeId>, h: History, net: set<Message>, n: NodeId, s: Node, voter: NodeId)
    requires Local(members, h, net, n, s) && s.role == Candidate && BallotFor(h, voter, s.term, n)
    requires voter in members - {n}
    ensures var counted := s.(votes := s.votes + {voter});
            && Local(members, h, net, n, counted)
            && (n in members && |counted.votes| + 1 >= |members| / 2 + 1 ==>
                  2 * |Supporters(members, h, s.term, n)| > |members|)
  {
    var counted := s.(votes := s.votes + {voter});
    if n in members {
      var quorum := counted.votes + {n};
      assert quorum <= Supporters(members, h, s.term, n);
      SubsetSize(quorum, Supporters(members, h, s.term, n));
    }
  }

  /** A granted vote is counted; nothing else changes. */
  lemma CountKeeps(members: set<NodeId>, c: Cluster, n: NodeId, voter: NodeId)
    requires Inv(members, c) && n in members && n in c.nodes && c.nodes[n].role == Candidate
    requires BallotFor(c.history, voter, c.nodes[n].term, n) && voter in members && voter != n
    ensures var counted := c.nodes[n].(votes := c.nodes[n].votes + {voter});
            && Inv(members, Update(c, n, counted))
            && (|counted.votes| + 1 >= |members| / 2 + 1 ==>
                  2 * |Supporters(members, c.history, c.nodes[n].term, n)| > |members|)
  {
    hide Grows, HistorySound, Quiet, Local, MessageBacked, Inv, Supporters;
    InvAt(members, c, n);
    var counted := c.nodes[n].(votes := c.nodes[n].votes + {voter});
    CountLocal(members, c.history, c.net, n, c.nodes[n], voter);
    SameHistory(members, c, Update(c, n, counted), n);
  }

  lemma VotedKeeps(members: set<NodeId>, c: Cluster, n: NodeId, m: Message)
    requires Inv(members, c) && n in members && m in c.net && m.Voted? && m.candidate == n && m.voter != n
    ensures Inv(members, Step(members, c, DeliverVoted(n, m)))
  {
    hide Grows, HistorySound, Quiet, Local, LastOf, Supporters, Inv;
    InvAt(members, c, n);
    InvMail(members, c, m);
    var s, h := c.nodes[n], c.history;
    var cfg := Config(n, members);
    var t := OnVoteReply(cfg, s, m.sentTerm, m.voter, m.term, m.granted);
    var d := Step(members, c, DeliverVoted(n, m));
    if m.term > s.term {
      FollowLocal(members, h, c.net, n, s, m.term, None);
      SameHistory(members, c, d, n);
    } else if m.sentTerm == s.term && s.role == Candidate && m.granted {
      var counted := s.(votes := s.votes + {m.voter});
      CountKeeps(members, c, n, m.voter);
      if t.role == Leader {
        var e := Update(c, n, counted);
        CrownKeeps(members, e, n);
        assert e.nodes[n := t] == c.nodes[n := t];
      }
    } else {
      assert c.nodes[n := s] == c.nodes;
    }
  }

  lemma DurableCoversAcks(h: History, net: set<Message>, n: NodeId, s: Node)
    requires AcksHeld(h, net, n, s)
    ensures forall m: nat :: Acked(s.term, n, m) in net ==> m <= s.durable
  {
  }

  lemma CrashKeeps(members: set<NodeId>, c: Cluster, n: NodeId, keep: nat, watermark: nat)
    requires Inv(members, c) && n in members && c.nodes[n].durable <= keep <= |c.nodes[n].log|
    ensures Inv(members, Step(members, c, Crash(n, keep, watermark)))
  {
    hide HistorySound, RoleBacked, AcksHeld, NodeSane, PastBounded;
    assert Local(members, c.history, c.net, n, c.nodes[n]);
    DurableCoversAcks(c.history, c.net, n, c.nodes[n]);
    RestartLocal(members, c.history, c.net, n, c.nodes[n], keep, watermark);
    SameHistory(members, c, Step(members, c, Crash(n, keep, watermark)), n);
  }

  lemma SendKeeps(members: set<NodeId>, c: Cluster, n: NodeId, from: nat, to: nat, commit: nat)
    requires Inv(members, c) && n in members && c.nodes[n].role == Leader && from <= to <= |c.nodes[n].log|
    ensures Inv(members, Step(members, c, Send(n, from, to, commit)))
  {
    hide HistorySound, AcksHeld, NodeSane, PastBounded;
    var s := c.nodes[n];
    assert Local(members, c.history, c.net, n, s);
    var d := Step(members, c, Send(n, from, to, commit));
    var message := Append(AppendRequest(s.term, n, from, TermAt(s.log, from), s.log[from..to], commit));
    assert MessageBacked(members, c.history, message);
    MoreMail(members, c.history, c.net, message, n, s);
    SameHistory(members, c, d, n);
  }

  lemma ExtendGrounded(log: seq<Entry>, h: History, g: History, entry: Entry)
    requires Grounded(log, h.leaderLogs) && Grows(h, g)
    requires entry.term in g.leaderLogs && g.leaderLogs[entry.term] == log + [entry]
    ensures Grounded(log + [entry], g.leaderLogs)
  {
    var grown := log + [entry];
    GroundedGrows(log, h, g);
    forall i | 0 <= i < |grown|
      ensures grown[i].term in g.leaderLogs && i < |g.leaderLogs[grown[i].term]|
      ensures grown[..i + 1] == g.leaderLogs[grown[i].term][..i + 1]
    {
      if i < |log| { assert grown[..i + 1] == log[..i + 1]; }
    }
  }

  lemma ProposeHistory(members: set<NodeId>, h: History, n: NodeId, term: nat, log: seq<Entry>, entry: Entry)
    requires HistorySound(members, h) && Win(term, n) in h.wins && term in h.leaderLogs && h.leaderLogs[term] == log
    requires entry.term == term && entry.idx == |log| + 1
    ensures var g := h.(leaderLogs := h.leaderLogs[term := log + [entry]]);
            Grows(h, g) && HistorySound(members, g) && Grounded(log + [entry], g.leaderLogs)
  {
    hide Grounded, Supporters, UpToDate, LeadsWhatItCampaignedWith, BallotFor;
    var g := h.(leaderLogs := h.leaderLogs[term := log + [entry]]);
    var grown := log + [entry];
    assert Grows(h, g);
    WinnerTermPositive(members, h, Win(term, n));
    ExtendGrounded(log, h, g, entry);
    assert Dense(1, grown) && TermsUpTo(grown, term);
    forall w | w in g.wins
      ensures 2 * |Supporters(members, g, w.term, w.node)| > |members| && LeadsWhatItCampaignedWith(g, w)
    {
      SupportersGrow(members, h, g, w.term, w.node);
      LeadsGrows(h, g, w);
    }
    forall t | t in g.leaderLogs
      ensures Elected(g, t) && Dense(1, g.leaderLogs[t]) && TermsUpTo(g.leaderLogs[t], t)
      ensures Grounded(g.leaderLogs[t], g.leaderLogs)
    {
      assert t in h.leaderLogs && Elected(h, t);
      if t != term { GroundedGrows(h.leaderLogs[t], h, g); }
    }
  }

  lemma WinnerTermPositive(members: set<NodeId>, h: History, w: Win)
    requires HistorySound(members, h) && w in h.wins
    ensures w.term >= 1
  {
    assert LeadsWhatItCampaignedWith(h, w);
  }

  lemma ProposeLocal(members: set<NodeId>, h: History, g: History, net: set<Message>, n: NodeId, s: Node, entry: Entry)
    requires Local(members, h, net, n, s) && s.role == Leader && HistorySound(members, h)
    requires entry.term == s.term && entry.idx == |s.log| + 1
    requires g == h.(leaderLogs := h.leaderLogs[s.term := s.log + [entry]]) && Grounded(s.log + [entry], g.leaderLogs)
    ensures Local(members, g, net, n, s.(log := s.log + [entry]))
  {
    assert Campaign(s.term, n) in h.campaigns by { assert Win(s.term, n) in h.wins; }
    var grown := s.log + [entry];
    forall t: nat, k: nat | Acked(t, n, k) in net && t == s.term ensures grown[..k] == g.leaderLogs[t][..k] {}
    assert Dense(1, grown) && TermsUpTo(grown, s.term);
  }

  lemma ProposeKeeps(members: set<NodeId>, c: Cluster, n: NodeId, operations: seq<Mutation>)
    requires Inv(members, c) && n in members && c.nodes[n].role == Leader
    ensures Inv(members, OnPropose(c, n, operations))
  {
    hide HistorySound, AcksHeld, NodeSane, PastBounded, Grounded, Grows;
    var s, h := c.nodes[n], c.history;
    assert Local(members, h, c.net, n, s);
    var entry := Entry(s.term, |s.log| + 1, operations);
    var d := OnPropose(c, n, operations);
    ProposeHistory(members, h, n, s.term, s.log, entry);
    ProposeLocal(members, h, d.history, c.net, n, s, entry);
    forall m | m in members && m != n && c.nodes[m].role == Leader
      ensures c.nodes[m].term in h.leaderLogs
      ensures d.history.leaderLogs[c.nodes[m].term] == h.leaderLogs[c.nodes[m].term]
    {
      assert Local(members, h, c.net, m, c.nodes[m]);
      if c.nodes[m].term == s.term { OneLeader(members, h, s.term, n, m); }
    }
    Assemble(members, c, d, n);
  }

  lemma OneLeader(members: set<NodeId>, h: History, term: nat, a: NodeId, b: NodeId)
    requires HistorySound(members, h) && Win(term, a) in h.wins && Win(term, b) in h.wins
    ensures a == b
  {
    assert 2 * |Supporters(members, h, Win(term, a).term, Win(term, a).node)| > |members|;
    assert 2 * |Supporters(members, h, Win(term, b).term, Win(term, b).node)| > |members|;
    MajoritiesMeet(members, h, term, a, b);
  }

  // ---------------------------------------------------------------- replication

  /** Two grounded logs that hold the same term at the same index agree up to that index. */
  lemma GroundedAgree(a: seq<Entry>, b: seq<Entry>, leaderLogs: map<nat, seq<Entry>>, i: nat)
    requires Grounded(a, leaderLogs) && Grounded(b, leaderLogs)
    requires i < |a| && i < |b| && a[i].term == b[i].term
    ensures a[..i + 1] == b[..i + 1]
  {
  }

  lemma SliceWellFormed(h: History, r: AppendRequest)
    requires SliceOfLeader(h, r) && Dense(1, h.leaderLogs[r.term])
    ensures WellFormed(r)
  {
    forall j | 0 <= j < |r.entries| ensures r.entries[j].idx == r.prev + 1 + j && r.entries[j].term != 0 {
      assert r.entries[j] == h.leaderLogs[r.term][r.prev + j];
    }
  }

  /** The part of the log that the handler keeps is the leader's own, although only terms are compared. */
  lemma AgreedPrefix(h: History, log: seq<Entry>, r: AppendRequest)
    requires SliceOfLeader(h, r) && Grounded(log, h.leaderLogs) && Grounded(h.leaderLogs[r.term], h.leaderLogs)
    requires WellFormed(r) && (r.prev > 0 ==> TermAt(log, r.prev) == r.prevTerm)
    ensures var agree := r.prev + FirstNew(log, r.prev, r.entries, 0);
            agree <= |log| && log[..agree] == h.leaderLogs[r.term][..agree]
  {
    hide Grounded, FirstNew, Dense, SliceOfLeader, TermAt;
    var k := FirstNew(log, r.prev, r.entries, 0);
    FirstNewMeaning(log, r.prev, r.entries, 0);
    if k > 0 {
      var i := r.prev + k - 1;
      assert TermAt(log, r.prev + 1 + (k - 1)) == r.entries[k - 1].term != 0;
      TermHeld(log, r.prev + 1 + (k - 1));
      SliceAt(h, r, k - 1);
      GroundedAgree(log, h.leaderLogs[r.term], h.leaderLogs, i);
      assert i + 1 == r.prev + k;
    } else if r.prev > 0 {
      SlicePrev(h, r);
      TermHeld(log, r.prev);
      TermHeld(h.leaderLogs[r.term], r.prev);
      GroundedAgree(log, h.leaderLogs[r.term], h.leaderLogs, r.prev - 1);
    }
  }

  lemma TermHeld(log: seq<Entry>, index: nat)
    requires TermAt(log, index) != 0
    ensures 1 <= index <= |log| && log[index - 1].term == TermAt(log, index)
  {
  }

  lemma SliceAt(h: History, r: AppendRequest, j: nat)
    requires SliceOfLeader(h, r) && j < |r.entries|
    ensures r.term in h.leaderLogs && r.prev + j < |h.leaderLogs[r.term]|
    ensures r.entries[j] == h.leaderLogs[r.term][r.prev + j]
  {
  }

  lemma SliceKnown(h: History, r: AppendRequest)
    requires SliceOfLeader(h, r)
    ensures r.term in h.leaderLogs
  {
  }

  lemma SlicePrev(h: History, r: AppendRequest)
    requires SliceOfLeader(h, r)
    ensures r.term in h.leaderLogs && r.prevTerm == TermAt(h.leaderLogs[r.term], r.prev)
  {
  }

  /** Merging a slice of the leader's log that passes the consistency check gives a grounded log that
      agrees with the leader up to the end of the slice. */
  lemma MergeGrounded(h: History, log: seq<Entry>, r: AppendRequest)
    requires SliceOfLeader(h, r) && Grounded(log, h.leaderLogs) && Grounded(h.leaderLogs[r.term], h.leaderLogs)
    requires Dense(1, h.leaderLogs[r.term])
    requires r.prev > 0 ==> TermAt(log, r.prev) == r.prevTerm
    ensures r.prev <= |log| && WellFormed(r)
    ensures var merged := Merged(log, r.prev, r.entries);
            var last := r.prev + |r.entries|;
            && Grounded(merged, h.leaderLogs)
            && last <= |merged| && merged[..last] == h.leaderLogs[r.term][..last]
            && (merged == log || merged == h.leaderLogs[r.term][..last])
  {
    hide Grounded;
    var ll := h.leaderLogs[r.term];
    var last := r.prev + |r.entries|;
    SliceWellFormed(h, r);
    AgreedPrefix(h, log, r);
    var k := FirstNew(log, r.prev, r.entries, 0);
    var merged := Merged(log, r.prev, r.entries);
    if k < |r.entries| {
      assert r.entries[k..] == ll[r.prev + k..last];
      assert merged == ll[..last];
      GroundedPrefix(ll, h.leaderLogs, last);
    }
  }

  /** An acknowledged prefix of the current term is never cut: the slice agrees with it. */
  lemma AckSurvivesMerge(h: History, log: seq<Entry>, r: AppendRequest, m: nat)
    requires SliceOfLeader(h, r) && Grounded(log, h.leaderLogs) && Grounded(h.leaderLogs[r.term], h.leaderLogs)
    requires Dense(1, log) && Dense(1, h.leaderLogs[r.term])
    requires r.prev > 0 ==> TermAt(log, r.prev) == r.prevTerm
    requires m <= |log| && m <= |h.leaderLogs[r.term]| && log[..m] == h.leaderLogs[r.term][..m]
    ensures m <= Kept(log, r.prev, r.entries)
    ensures var merged := Merged(log, r.prev, r.entries);
            m <= |merged| && merged[..m] == log[..m]
  {
    hide Grounded, FirstNew, Dense, SliceOfLeader, TermAt;
    SliceWellFormed(h, r);
    AgreedPrefix(h, log, r);
    NoAckPastConflict(h, log, r, m);
  }

  /** What agrees with the leader ends before the first conflict. */
  lemma NoAckPastConflict(h: History, log: seq<Entry>, r: AppendRequest, m: nat)
    requires SliceOfLeader(h, r) && Dense(1, log) && m <= |log| && m <= |h.leaderLogs[r.term]|
    requires log[..m] == h.leaderLogs[r.term][..m]
    ensures var k := FirstNew(log, r.prev, r.entries, 0); k < |r.entries| && r.prev + k < |log| ==> m <= r.prev + k
  {
    hide FirstNew, SliceOfLeader;
    var k := FirstNew(log, r.prev, r.entries, 0);
    FirstNewMeaning(log, r.prev, r.entries, 0);
    SliceKnown(h, r);
    forall i | 0 <= i < m ensures log[i] == h.leaderLogs[r.term][i] {
      assert log[i] == log[..m][i] && h.leaderLogs[r.term][i] == h.leaderLogs[r.term][..m][i];
    }
    if k < |r.entries| && r.prev + k < |log| {
      SliceAt(h, r, k);
      assert log[r.prev + k].term != 0;
      assert log[r.prev + k] != h.leaderLogs[r.term][r.prev + k];
    }
  }

  lemma FollowLocal2(members: set<NodeId>, h: History, net: set<Message>, n: NodeId, s: Node, r: AppendRequest)
    requires Local(members, h, net, n, s)
    requires r.term >= s.term && HistorySound(members, h) && Win(r.term, r.leader) in h.wins && r.leader != n
    ensures Local(members, h, net, n, Follow(s, r)) && Follow(s, r).log == s.log && Follow(s, r).durable == s.durable
    ensures Follow(s, r).role == Follower && Follow(s, r).term == r.term
  {
    FollowLocal(members, h, net, n, s, r.term, Some(r.leader));
  }

  /** What the handler leaves of the node apart from the log, its durable part and the commit index. */
  ghost predicate OnlyLogMoved(s: Node, t: Node, r: AppendRequest) {
    && t == s.(log := t.log, durable := t.durable, commit := t.commit)
    && t.log == Merged(s.log, r.prev, r.entries)
    && Min(s.durable, Kept(s.log, r.prev, r.entries)) <= t.durable <= |t.log|
    && r.prev + |r.entries| <= t.durable
  }

  lemma MergedSane(members: set<NodeId>, n: NodeId, s: Node, r: AppendRequest, t: Node)
    requires NodeSane(members, n, s) && OnlyLogMoved(s, t, r) && WellFormed(r) && r.prev <= |s.log|
    requires TermsUpTo(r.entries, s.term)
    ensures NodeSane(members, n, t)
  {
    hide FirstNew, Merged;
    MergedMeaning(s.log, r.prev, r.entries);
  }

  lemma MergedAcks(members: set<NodeId>, h: History, net: set<Message>, n: NodeId, s: Node, t: Node, r: AppendRequest)
    requires AcksHeld(h, net, n, s) && HistorySound(members, h) && SliceOfLeader(h, r) && s.term == r.term
    requires Grounded(s.log, h.leaderLogs) && Dense(1, s.log)
    requires r.prev > 0 ==> TermAt(s.log, r.prev) == r.prevTerm
    requires OnlyLogMoved(s, t, r)
    ensures AcksHeld(h, net + {Acked(r.term, n, r.prev + |r.entries|)}, n, t)
  {
    hide Grounded, FirstNew, Dense, TermAt, Kept, Merged;
    var last := r.prev + |r.entries|;
    MergeGrounded(h, s.log, r);
    forall tt: nat, m: nat | Acked(tt, n, m) in net + {Acked(r.term, n, last)} && tt == t.term
      ensures m <= t.durable && m <= |t.log| && m <= |h.leaderLogs[tt]| && t.log[..m] == h.leaderLogs[tt][..m]
    {
      if Acked(tt, n, m) in net {
        AckSurvivesMerge(h, s.log, r, m);
      }
    }
  }

  lemma ReplicateLocal(members: set<NodeId>, h: History, net: set<Message>, n: NodeId, s: Node, r: AppendRequest)
    requires Local(members, h, net, n, s) && HistorySound(members, h) && SliceOfLeader(h, r)
    requires s.role == Follower && s.term == r.term
    requires r.prev > 0 ==> TermAt(s.log, r.prev) == r.prevTerm
    ensures var (t, out) := Replicate(s, r);
            && out == AppendAnswer(s.term, true)
            && Local(members, h, net + {Acked(r.term, n, r.prev + |r.entries|)}, n, t)
            && OnlyLogMoved(s, t, r)
  {
    hide Grounded, FirstNew, Dense, TermAt, Kept, Merged;
    var (t, out) := Replicate(s, r);
    var last := r.prev + |r.entries|;
    MergeGrounded(h, s.log, r);
    ReplicateSucceeds(s, r);
    SliceTermsUpTo(members, h, r);
    MergedSane(members, n, s, r, t);
    assert RoleBacked(h, n, t);
    MergedAcks(members, h, net, n, s, t, r);
  }

  lemma SliceTermsUpTo(members: set<NodeId>, h: History, r: AppendRequest)
    requires HistorySound(members, h) && SliceOfLeader(h, r)
    ensures TermsUpTo(r.entries, r.term)
  {
    hide Grounded, Dense, Supporters, NotAfter, LeadsWhatItCampaignedWith, TermAt;
    forall i | 0 <= i < |r.entries| ensures r.entries[i].term <= r.term {
      assert r.entries[i] == h.leaderLogs[r.term][r.prev + i];
    }
  }

  lemma AppendKeeps(members: set<NodeId>, c: Cluster, n: NodeId, r: AppendRequest)
    requires Inv(members, c) && n in members && Append(r) in c.net
    ensures Inv(members, OnAppend(members, c, n, r))
    ensures !OnAppendEntries(Config(n, members), c.nodes[n], r).1.AppendThrew?
  {
    hide HistorySound, RoleBacked, AcksHeld, NodeSane, PastBounded, OnlyLogMoved, Replicate, TermAt;
    var s, h := c.nodes[n], c.history;
    var cfg := Config(n, members);
    var d := OnAppend(members, c, n, r);
    assert Local(members, h, c.net, n, s);
    assert MessageBacked(members, h, Append(r));
    if cfg.IsPeer(r.leader) && r.term >= s.term {
      FollowLocal2(members, h, c.net, n, s, r);
      if PassesCheck(cfg, s, r) {
        ReplicateLocal(members, h, c.net, n, Follow(s, r), r);
        ReplicateRole(Follow(s, r), r);
      } else {
        assert c.net + {} == c.net;
      }
    } else {
      assert c.net + {} == c.net;
    }
    SameHistory(members, c, d, n);
  }

  lemma ReplicateRole(s: Node, r: AppendRequest)
    ensures Replicate(s, r).0.role == s.role && Replicate(s, r).0.term == s.term
  {
  }

  /** After a crash inside the handler the node restarts from a prefix of what the handler was writing or, if the crash
      came before a synced truncation, from a prefix of its old log under the new term. */
  lemma CrashInAppendKeeps(members: set<NodeId>, c: Cluster, n: NodeId, r: AppendRequest, cut: bool, keep: nat,
      watermark: nat)
    requires Inv(members, c) && n in members && Append(r) in c.net
    requires var t := if cut then OnAppendEntries(Config(n, members), c.nodes[n], r).0
             else Followed(Config(n, members), c.nodes[n], r);
             CrashFloor(Config(n, members), c.nodes[n], r) <= keep <= |t.log|
    ensures Inv(members, Step(members, c, CrashInAppend(n, Append(r), cut, keep, watermark)))
  {
    hide HistorySound, RoleBacked, AcksHeld, NodeSane, PastBounded, OnlyLogMoved, Replicate, TermAt, Kept;
    var s, h := c.nodes[n], c.history;
    var cfg := Config(n, members);
    var t := if cut then OnAppendEntries(cfg, s, r).0 else Followed(cfg, s, r);
    var d := Step(members, c, CrashInAppend(n, Append(r), cut, keep, watermark));
    assert Local(members, h, c.net, n, s);
    assert MessageBacked(members, h, Append(r));
    DurableCoversAcks(h, c.net, n, s);
    if cfg.IsPeer(r.leader) && r.term >= s.term {
      FollowLocal2(members, h, c.net, n, s, r);
      DurableCoversAcks(h, c.net, n, Follow(s, r));
      if PassesCheck(cfg, s, r) {
        ReplicateLocal(members, h, c.net, n, Follow(s, r), r);
        ReplicateRole(Follow(s, r), r);
        AcksKept(members, h, c.net, n, Follow(s, r), r);
        if cut { FewerAcks(members, h, c.net, n, t, Acked(r.term, n, r.prev + |r.entries|)); }
      }
    }
    RestartLocal(members, h, c.net, n, t, keep, watermark);
    SameHistory(members, c, d, n);
  }

  lemma FewerAcks(members: set<NodeId>, h: History, net: set<Message>, n: NodeId, s: Node, m: Message)
    requires Local(members, h, net + {m}, n, s)
    ensures Local(members, h, net, n, s)
  {
    assert AcksHeld(h, net, n, s) by {
      forall t: nat, k: nat | Acked(t, n, k) in net ensures Acked(t, n, k) in net + {m} {}
    }
  }

  lemma AcksKept(members: set<NodeId>, h: History, net: set<Message>, n: NodeId, s: Node, r: AppendRequest)
    requires Local(members, h, net, n, s) && HistorySound(members, h) && SliceOfLeader(h, r) && s.term == r.term
    requires r.prev > 0 ==> TermAt(s.log, r.prev) == r.prevTerm
    ensures forall m: nat :: Acked(s.term, n, m) in net ==> m <= Min(s.durable, Kept(s.log, r.prev, r.entries))
  {
    hide Grounded, FirstNew, Dense, TermAt, Kept, Merged;
    forall m: nat | Acked(s.term, n, m) in net ensures m <= Min(s.durable, Kept(s.log, r.prev, r.entries)) {
      AckSurvivesMerge(h, s.log, r, m);
    }
  }

  // ---------------------------------------------------------------- runs

  lemma StepKeeps(members: set<NodeId>, c: Cluster, a: Action)
    requires Inv(members, c)
    ensures Inv(members, Step(members, c, a))
  {
    hide Inv, OnTimeout, OnAskVote, OnAppend, OnPropose;
    if a.node in members && a.node in c.nodes {
      var s := c.nodes[a.node];
      match a
      case Timeout(n) => if s.role != Leader { TimeoutKeeps(members, c, n); }
      case DeliverAskVote(n, m) => if m in c.net && m.AskVote? { AskVoteKeeps(members, c, n, m.request); }
      case DeliverVoted(n, m) =>
        if m in c.net && m.Voted? && m.candidate == n && m.voter != n { VotedKeeps(members, c, n, m); }
      case Propose(n, operations) => if s.role == Leader { ProposeKeeps(members, c, n, operations); }
      case Send(n, from, to, commit) =>
        if s.role == Leader && from <= to <= |s.log| { SendKeeps(members, c, n, from, to, commit); }
      case DeliverAppend(n, m) => if m in c.net && m.Append? { AppendKeeps(members, c, n, m.append); }
      case Crash(n, keep, watermark) => if s.durable <= keep <= |s.log| { CrashKeeps(members, c, n, keep, watermark); }
      case CrashInAppend(n, m, cut, keep, watermark) =>
        if m in c.net && m.Append? {
          var t := if cut then OnAppendEntries(Config(n, members), s, m.append).0
            else Followed(Config(n, members), s, m.append);
          if CrashFloor(Config(n, members), s, m.append) <= keep <= |t.log| {
            CrashInAppendKeeps(members, c, n, m.append, cut, keep, watermark);
          }
        }
    }
  }

  lemma {:induction false} RunInv(members: set<NodeId>, actions: seq<Action>)
    ensures Inv(members, Run(members, actions))
  {
    if actions == [] {
    } else {
      RunInv(members, actions[..|actions| - 1]);
      StepKeeps(members, Run(members, actions[..|actions| - 1]), actions[|actions| - 1]);
    }
  }

  /** Election Safety. In every run, over its whole past: at most one node ever wins a term; every node
      that leads has won; and each winner was elected by a majority of voters, each of whose logs ended,
      when it voted, in an earlier term than the log the winner campaigned with and then led with, or in
      the same term at an index that is not greater. */
  lemma ElectionSafety(members: set<NodeId>, actions: seq<Action>)
    ensures var c := Run(members, actions);
            && c.nodes.Keys == members
            && (forall v, w :: v in c.history.wins && w in c.history.wins && v.term == w.term ==> v == w)
            && (forall n :: n in members && c.nodes[n].role == Leader ==> Win(c.nodes[n].term, n) in c.history.wins)
            && (forall w :: w in c.history.wins ==>
                  && Campaign(w.term, w.node) in c.history.campaigns
                  && w.term in c.history.leaderLogs
                  && c.history.campaigns[Campaign(w.term, w.node)] <= c.history.leaderLogs[w.term]
                  && 2 * |Supporters(members, c.history, w.term, w.node)| > |members|
                  && (forall v :: v in Supporters(members, c.history, w.term, w.node) ==>
                        var own := c.history.ballots[Slot(v, w.term)].own;
                        var led := c.history.campaigns[Campaign(w.term, w.node)];
                        || LastTerm(own) < LastTerm(led)
                        || (LastTerm(own) == LastTerm(led) && |own| <= |led|)))
  {
    hide Run, Local, MessageBacked, HistorySound;
    RunInv(members, actions);
    var c := Run(members, actions);
    forall w | w in c.history.wins
      ensures LeadsWhatItCampaignedWith(c.history, w)
      ensures 2 * |Supporters(members, c.history, w.term, w.node)| > |members|
      ensures forall v :: v in Supporters(members, c.history, w.term, w.node) ==>
                NotAfter(c.history.ballots[Slot(v, w.term)].own, c.history.campaigns[Campaign(w.term, w.node)])
    {
      WinIsSound(members, c.history, w);
    }
    forall v, w | v in c.history.wins && w in c.history.wins && v.term == w.term ensures v == w {
      OneLeader(members, c.history, v.term, v.node, w.node);
    }
    forall n | n in members && c.nodes[n].role == Leader ensures Win(c.nodes[n].term, n) in c.history.wins {
      LeaderHasWon(members, c.history, c.net, n, c.nodes[n]);
    }
  }

  lemma WinIsSound(members: set<NodeId>, h: History, w: Win)
    requires HistorySound(members, h) && w in h.wins
    ensures LeadsWhatItCampaignedWith(h, w) && 2 * |Supporters(members, h, w.term, w.node)| > |members|
    ensures forall v :: v in Supporters(members, h, w.term, w.node) ==>
              NotAfter(h.ballots[Slot(v, w.term)].own, h.campaigns[Campaign(w.term, w.node)])
  {
  }

  lemma LeaderHasWon(members: set<NodeId>, h: History, net: set<Message>, n: NodeId, s: Node)
    requires Local(members, h, net, n, s) && s.role == Leader
    ensures Win(s.term, n) in h.wins
  {
  }

  /** Log Matching. In every run, two logs that hold an entry of the same term at the same index are
      identical up to and including that index, operations included. */
  lemma LogMatching(members: set<NodeId>, actions: seq<Action>, a: NodeId, b: NodeId, i: nat)
    requires a in members && b in members
    ensures var c := Run(members, actions);
            && c.nodes.Keys == members
            && (i < |c.nodes[a].log| && i < |c.nodes[b].log| && c.nodes[a].log[i].term == c.nodes[b].log[i].term ==>
                  c.nodes[a].log[..i + 1] == c.nodes[b].log[..i + 1])
  {
    RunInv(members, actions);
    var c := Run(members, actions);
    assert Local(members, c.history, c.net, a, c.nodes[a]);
    assert Local(members, c.history, c.net, b, c.nodes[b]);
    if i < |c.nodes[a].log| && i < |c.nodes[b].log| && c.nodes[a].log[i].term == c.nodes[b].log[i].term {
      GroundedAgree(c.nodes[a].log, c.nodes[b].log, c.history.leaderLogs, i);
    }
  }

  /** In every run, delivering any AppendEntries request ever sent never throws; when it succeeds the
      follower's log is the leader's slice up to the end of the batch, and that prefix is durable. */
  lemma AppendDelivers(members: set<NodeId>, actions: seq<Action>, n: NodeId, r: AppendRequest)
    requires n in members && Append(r) in Run(members, actions).net
    requires Run(members, actions).nodes.Keys == members
    ensures var c := Run(members, actions);
            var (t, out) := OnAppendEntries(Config(n, members), c.nodes[n], r);
            && !out.AppendThrew?
            && (out.AppendAnswer? && out.success ==>
                  var last := r.prev + |r.entries|;
                  && r.term in c.history.leaderLogs && last <= |c.history.leaderLogs[r.term]|
                  && last <= t.durable && last <= |t.log|
                  && t.log[..last] == c.history.leaderLogs[r.term][..last])
  {
    hide HistorySound, RoleBacked, NodeSane, PastBounded, Replicate, OnAppendEntries, Run, MessageBacked;
    RunInv(members, actions);
    var c := Run(members, actions);
    var cfg := Config(n, members);
    var d := OnAppend(members, c, n, r);
    AppendKeeps(members, c, n, r);
    var (t, out) := OnAppendEntries(cfg, c.nodes[n], r);
    if out.AppendAnswer? && out.success {
      AnswerTerm(cfg, c.nodes[n], r);
      assert Local(members, d.history, d.net, n, d.nodes[n]);
      assert Acked(r.term, n, r.prev + |r.entries|) in d.net;
      assert d.history == c.history;
      assert d.nodes[n] == t;
      SaneDurable(members, d.history, d.net, n, t);
      assert AcksHeld(d.history, d.net, n, t);
    }
  }

  lemma SaneDurable(members: set<NodeId>, h: History, net: set<Message>, n: NodeId, s: Node)
    requires Local(members, h, net, n, s)
    ensures s.durable <= |s.log|
  {
  }

  lemma AnswerTerm(cfg: Config, s: Node, r: AppendRequest)
    ensures var (t, out) := OnAppendEntries(cfg, s, r);
            out.AppendAnswer? && out.success ==> t.term == r.term && t.role == Follower
  {
  }

  /** In every run, a prefix a follower has acknowledged to the leader of term t stays in its log, durable
      and equal to that leader's log, until the follower moves to a later term: across duplicated and
      reordered requests and across crashes. */
  lemma AcknowledgedStays(members: set<NodeId>, actions: seq<Action>, n: NodeId, term: nat, upTo: nat)
    requires Acked(term, n, upTo) in Run(members, actions).net
    ensures var c := Run(members, actions);
            && n in members && c.nodes.Keys == members
            && term <= c.nodes[n].term
            && (term == c.nodes[n].term ==>
                  && term in c.history.leaderLogs && upTo <= |c.history.leaderLogs[term]|
                  && upTo <= c.nodes[n].durable <= |c.nodes[n].log|
                  && c.nodes[n].log[..upTo] == c.history.leaderLogs[term][..upTo])
  {
    RunInv(members, actions);
    var c := Run(members, actions);
    assert MessageBacked(members, c.history, Acked(term, n, upTo));
    assert Local(members, c.history, c.net, n, c.nodes[n]);
  }
}
