/** What the handlers promise, with terms and indexes spelled out, and the commit index over every run. */
module RaftLaws {
  import opened Options
  import opened RaftTypes
  import opened RaftNodes
  import opened RaftCluster
  import opened RaftSafety

  // ---------------------------------------------------------------- votes

  ghost predicate SameLog(s: Node, t: Node) {
    && t.log == s.log && t.durable == s.durable && t.commit == s.commit && t.applied == s.applied
    && t.sendNext == s.sendNext && t.replicated == s.replicated
  }

  /** A current request from a peer gets the vote if and only if no other candidate holds the vote of that term and the
      candidate's log does not end before the voter's: its last term is later, or the same with an index at least as
      great. The vote is in the hard state when the answer is given. Term zero has no votes to give. */
  lemma VoteLaw(cfg: Config, s: Node, r: VoteRequest)
    requires s.hard == HardState(s.term, s.votedFor)
    ensures var (t, out) := OnRequestVote(cfg, s, r);
            var peer := r.candidate in cfg.members && r.candidate != cfg.self;
            var free := r.term > s.term || s.votedFor.None? || s.votedFor.value == r.candidate;
            var ownTerm := if s.log == [] then 0 else s.log[|s.log| - 1].term;
            var ahead := ownTerm < r.last.term || (ownTerm == r.last.term && |s.log| <= r.last.index);
            && (!peer ==> (t, out) == (s, VoteInvalid))
            && (peer && r.term < s.term ==> (t, out) == (s, VoteAnswer(s.term, false)))
            && (peer && r.term >= s.term ==>
                  && SameLog(s, t) && t.term == r.term && t.hard == HardState(t.term, t.votedFor)
                  && (out == VoteThrew <==> free && ahead && r.term == 0 && s.votedFor.None?)
                  && (out != VoteThrew ==> out == VoteAnswer(r.term, free && ahead))
                  && t.votedFor == (if out == VoteAnswer(r.term, true) then Some(r.candidate)
                                    else if r.term > s.term then None else s.votedFor)
                  && (if r.term > s.term then t.role == Follower && t.leader.None? && t.votes == {}
                      else t.role == s.role && t.leader == s.leader && t.votes == s.votes))
  {
  }

  /** A campaign moves to the next term, votes for itself and persists both before anything is sent. */
  lemma CampaignLaw(cfg: Config, s: Node)
    ensures var t := StartCampaign(cfg, s);
            && t.term == s.term + 1 && t.votedFor == Some(cfg.self) && t.hard == HardState(t.term, t.votedFor)
            && t.log == s.log && t.votes == {}
            && t.role == if 2 > |cfg.members| then Leader else Candidate
  {
  }

  /** A reply of a later term deposes. A reply counts if it answers the current campaign and grants the vote, and it
      makes the candidate leader if and only if the votes counted and its own are more than half of the members. */
  lemma VoteReplyLaw(cfg: Config, s: Node, sentTerm: nat, voter: NodeId, term: nat, granted: bool)
    ensures var t := OnVoteReply(cfg, s, sentTerm, voter, term, granted);
            var counts := term <= s.term && sentTerm == s.term && s.role == Candidate && granted;
            && (term > s.term ==>
                  && SameLog(s, t) && t.role == Follower && t.leader.None? && t.votes == {}
                  && t.term == term && t.votedFor.None? && t.hard == HardState(term, None))
            && (term <= s.term && !counts ==> t == s)
            && (counts ==>
                  && t.votes == s.votes + {voter} && t.log == s.log && t.commit == s.commit
                  && t.term == s.term && t.votedFor == s.votedFor && t.hard == s.hard
                  && t.role == if 2 * (|s.votes + {voter}| + 1) > |cfg.members| then Leader else Candidate)
  {
  }

  // ---------------------------------------------------------------- replication

  /** A current request is followed whether or not it succeeds, and succeeds if and only if the log holds the entry
      before the batch with the term the leader names. */
  lemma AppendLaw(cfg: Config, s: Node, r: AppendRequest)
    requires WellFormed(r) && Dense(1, s.log) && s.hard == HardState(s.term, s.votedFor)
    ensures var (t, out) := OnAppendEntries(cfg, s, r);
            var peer := r.leader in cfg.members && r.leader != cfg.self;
            var holds := r.prev == 0 || (r.prev <= |s.log| && s.log[r.prev - 1].term == r.prevTerm);
            && (!peer ==> (t, out) == (s, AppendInvalid))
            && (peer && r.term < s.term ==> (t, out) == (s, AppendAnswer(s.term, false)))
            && (peer && r.term >= s.term ==>
                  && out == AppendAnswer(r.term, holds)
                  && t.term == r.term && t.role == Follower && t.leader == Some(r.leader)
                  && t.votedFor == (if r.term > s.term then None else s.votedFor)
                  && t.hard == HardState(t.term, t.votedFor)
                  && (!holds ==> SameLog(s, t))
                  && (holds ==> t.log == Merged(s.log, r.prev, r.entries)))
  {
    hide FirstNew, Merged, Replicate, Dense;
    var f := Follow(s, r);
    if r.prev == 0 || TermAt(s.log, r.prev) == r.prevTerm {
      ReplicateSucceeds(f, r);
      OnlyTheLog(f, r);
    }
  }

  lemma OnlyTheLog(s: Node, r: AppendRequest)
    ensures var t := Replicate(s, r).0;
            t == s.(log := t.log, durable := t.durable, commit := t.commit)
  {
    hide FirstNew, Kept, Dense;
  }

  ghost predicate Succeeds(out: AppendOutcome) {
    out.AppendAnswer? && out.success
  }

  /** The commit index moves only on success, never back, never past the end of the batch nor past the leader's own, and
      on success reaches the nearer of the two. */
  lemma CommitLaw(cfg: Config, s: Node, r: AppendRequest)
    ensures var (t, out) := OnAppendEntries(cfg, s, r);
            var last := r.prev + |r.entries|;
            && s.commit <= t.commit && t.applied == s.applied
            && (t.commit != s.commit ==> Succeeds(out) && t.commit <= last && t.commit <= r.commit)
            && (Succeeds(out) ==> last <= t.commit || r.commit <= t.commit)
  {
    hide FirstNew, Kept, Dense, TermAt;
  }

  /** The commit index stays inside the log exactly unless a batch that brings something new ends before it: then the
      code cuts the log below its own commit index. */
  lemma CommitStaysInLog(s: Node, r: AppendRequest)
    requires WellFormed(r) && Dense(1, s.log) && s.commit <= |s.log|
    requires r.prev > 0 ==> TermAt(s.log, r.prev) == r.prevTerm
    ensures var t := Replicate(s, r).0;
            t.commit <= |t.log| <==>
              s.commit <= r.prev + |r.entries| || FirstNew(s.log, r.prev, r.entries, 0) == |r.entries|
  {
    hide FirstNew, Kept, Dense, TermAt;
    ReplicateSucceeds(s, r);
    NewFits(s.log, r);
  }

  /** One new entry in place of two committed ones. */
  lemma CommitOutrunsLog()
    ensures var s := FRESH.(hard := HardState(2, None), term := 2, commit := 2,
                            log := [Entry(1, 1, []), Entry(1, 2, [])], durable := 2);
            var r := AppendRequest(2, 2, 0, 0, [Entry(2, 1, [])], 0);
            var (t, out) := OnAppendEntries(Config(1, {1, 2, 3}), s, r);
            out == AppendAnswer(2, true) && |t.log| == 1 && t.commit == 2
  {
    var log := [Entry(1, 1, []), Entry(1, 2, [])];
    assert FirstNew(log, 0, [Entry(2, 1, [])], 0) == 0;
    assert log[..0] == [] && [Entry(2, 1, [])][0..] == [Entry(2, 1, [])];
  }

  /** In every run, what a handler newly marks as committed is at most what the leader has committed, is the sending
      leader's log up to that index, and is durable. */
  lemma CommitIsConfirmed(members: set<NodeId>, actions: seq<Action>, n: NodeId, r: AppendRequest)
    requires n in members && Append(r) in Run(members, actions).net
    requires Run(members, actions).nodes.Keys == members
    ensures var c := Run(members, actions);
            var s := c.nodes[n];
            var (t, out) := OnAppendEntries(Config(n, members), s, r);
            && s.commit <= t.commit
            && (s.commit < t.commit ==>
                  && Succeeds(out) && t.commit <= r.commit && t.commit <= r.prev + |r.entries|
                  && t.commit <= t.durable <= |t.log|
                  && r.term in c.history.leaderLogs && t.commit <= |c.history.leaderLogs[r.term]|
                  && t.log[..t.commit] == c.history.leaderLogs[r.term][..t.commit])
  {
    hide Run, OnAppendEntries;
    var c := Run(members, actions);
    var s := c.nodes[n];
    var (t, out) := OnAppendEntries(Config(n, members), s, r);
    CommitLaw(Config(n, members), s, r);
    AppendDelivers(members, actions, n, r);
    if s.commit < t.commit {
      var last, led := r.prev + |r.entries|, c.history.leaderLogs[r.term];
      assert t.log[..t.commit] == t.log[..last][..t.commit] && led[..t.commit] == led[..last][..t.commit];
      DurableHeld(members, actions, n, r);
    }
  }

  lemma DurableHeld(members: set<NodeId>, actions: seq<Action>, n: NodeId, r: AppendRequest)
    requires n in members && Append(r) in Run(members, actions).net
    requires Run(members, actions).nodes.Keys == members
    ensures var t := OnAppendEntries(Config(n, members), Run(members, actions).nodes[n], r).0; t.durable <= |t.log|
  {
    hide Run, OnAppendEntries, Inv, Local;
    var c := Run(members, actions);
    RunInv(members, actions);
    AppendKeeps(members, c, n, r);
    var d := OnAppend(members, c, n, r);
    InvAt(members, d, n);
    SaneDurable(members, d.history, d.net, n, d.nodes[n]);
  }

  // ---------------------------------------------------------------- between restarts

  predicate Restarts(a: Action, n: NodeId) {
    (a.Crash? || a.CrashInAppend?) && a.node == n
  }

  /** Only a restart moves the commit index back or the applied index at all. */
  lemma StepCommit(members: set<NodeId>, c: Cluster, a: Action, n: NodeId)
    requires n in c.nodes && !Restarts(a, n)
    ensures n in Step(members, c, a).nodes
    ensures c.nodes[n].commit <= Step(members, c, a).nodes[n].commit
    ensures c.nodes[n].applied == Step(members, c, a).nodes[n].applied
  {
    hide OnAppendEntries, Restart, CrashFloor, Followed, LastOf, TermAt;
    if a.DeliverAppend? && a.message.Append? && a.node in c.nodes {
      CommitLaw(Config(a.node, members), c.nodes[a.node], a.message.append);
    }
  }

  lemma {:induction false} MembersStay(members: set<NodeId>, actions: seq<Action>)
    ensures Run(members, actions).nodes.Keys == members
  {
    hide Step, Run;
    RunInv(members, actions);
  }

  /** In every run the commit index of a node never falls between two restarts of that node. */
  lemma {:induction false} CommitNeverFalls(members: set<NodeId>, actions: seq<Action>, more: seq<Action>, n: NodeId)
    requires n in members && (forall i :: 0 <= i < |more| ==> !Restarts(more[i], n))
    ensures n in Run(members, actions).nodes && n in Run(members, actions + more).nodes
    ensures Run(members, actions).nodes[n].commit <= Run(members, actions + more).nodes[n].commit
    decreases |more|
  {
    hide Step, Restarts;
    MembersStay(members, actions);
    if more == [] {
      assert actions + more == actions;
    } else {
      var init, last := more[..|more| - 1], more[|more| - 1];
      CommitNeverFalls(members, actions, init, n);
      assert (actions + more)[..|actions + more| - 1] == actions + init;
      StepCommit(members, Run(members, actions + init), last, n);
    }
  }

  /** In every run, and in every state of it, no node has applied more than it knows to be committed. */
  lemma {:induction false} AppliedIsCommitted(members: set<NodeId>, actions: seq<Action>, n: NodeId)
    requires n in members
    ensures n in Run(members, actions).nodes
    ensures Run(members, actions).nodes[n].applied <= Run(members, actions).nodes[n].commit
  {
    hide Step;
    if actions != [] {
      var init, last := actions[..|actions| - 1], actions[|actions| - 1];
      AppliedIsCommitted(members, init, n);
      if Restarts(last, n) { RestartIndexes(members, Run(members, init), last, n); }
      else { StepCommit(members, Run(members, init), last, n); }
    }
  }

  lemma RestartIndexes(members: set<NodeId>, c: Cluster, a: Action, n: NodeId)
    requires n in c.nodes && c.nodes[n].applied <= c.nodes[n].commit && Restarts(a, n)
    ensures n in Step(members, c, a).nodes
    ensures Step(members, c, a).nodes[n].applied <= Step(members, c, a).nodes[n].commit
  {
    hide OnAppendEntries, CrashFloor, Followed;
  }

  /** In every run a crash costs a node neither its term nor its vote nor a durable entry. Both watermarks are the
      recovered one, and lie inside the log if and only if that does. */
  lemma RestartRemembers(members: set<NodeId>, actions: seq<Action>, n: NodeId, keep: nat, watermark: nat)
    requires n in members && Run(members, actions).nodes.Keys == members
    requires var s := Run(members, actions).nodes[n]; s.durable <= keep <= |s.log|
    ensures var s := Run(members, actions).nodes[n];
            var d := Step(members, Run(members, actions), Crash(n, keep, watermark));
            && d.nodes.Keys == members
            && var t := d.nodes[n];
               && t.term == s.term && t.votedFor == s.votedFor && t.role == Follower && t.leader.None?
               && s.durable <= |t.log| && t.log[..s.durable] == s.log[..s.durable] && t.log <= s.log
               && t.applied == t.commit == watermark && (t.commit <= |t.log| <==> watermark <= keep)
  {
    hide Run, Inv, HistorySound;
    RunInv(members, actions);
    InvAt(members, Run(members, actions), n);
  }

  // ---------------------------------------------------------------- office

  /** A leader knows of no replicated entry until it is told, and starts sending after the log it was elected with. */
  ghost predicate InOffice(members: set<NodeId>, h: History, n: NodeId, s: Node) {
    s.role == Leader ==>
      && s.leader == Some(n) && Campaign(s.term, n) in h.campaigns
      && s.replicated.Keys == members - {n} && s.sendNext.Keys == members - {n}
      && (forall p :: p in members - {n} ==>
            s.replicated[p] == 0 && s.sendNext[p] == |h.campaigns[Campaign(s.term, n)]| + 1)
  }

  lemma BecomesInOffice(members: set<NodeId>, h: History, n: NodeId, s: Node)
    ensures Campaign(s.term, n) in h.campaigns && h.campaigns[Campaign(s.term, n)] == s.log ==>
              InOffice(members, h, n, BecomeLeader(Config(n, members), s))
    ensures BecomeLeader(Config(n, members), s).term == s.term
  {
  }

  /** Nothing that bears on the office moved. */
  ghost predicate SameOffice(s: Node, t: Node) {
    t.role == s.role && t.leader == s.leader && t.term == s.term && t.replicated == s.replicated
      && t.sendNext == s.sendNext
  }

  lemma StepOffice(members: set<NodeId>, c: Cluster, a: Action, n: NodeId)
    requires Inv(members, c) && n in members && n in c.nodes && InOffice(members, c.history, n, c.nodes[n])
    ensures n in Step(members, c, a).nodes
    ensures InOffice(members, Step(members, c, a).history, n, Step(members, c, a).nodes[n])
  {
    hide Inv, Local, HistorySound, Step;
    InvAt(members, c, n);
    var d := Step(members, c, a);
    CampaignsStay(members, c, a, n);
    if a.node == n && a.node in members {
      if c.nodes[n].role == Candidate { CandidateCampaigned(members, c.history, c.net, n, c.nodes[n]); }
      OwnMove(members, c, a, n);
    }
  }

  lemma CandidateCampaigned(members: set<NodeId>, h: History, net: set<Message>, n: NodeId, s: Node)
    requires Local(members, h, net, n, s) && s.role == Candidate
    ensures Campaign(s.term, n) in h.campaigns && h.campaigns[Campaign(s.term, n)] == s.log
  {
  }

  /** Another node's step touches neither this node nor its campaigns; its own step adds at most a campaign of the next
      term. */
  lemma CampaignsStay(members: set<NodeId>, c: Cluster, a: Action, n: NodeId)
    requires n in c.nodes
    ensures var d := Step(members, c, a);
            && n in d.nodes && (a.node != n ==> d.nodes[n] == c.nodes[n])
            && (forall t: nat :: Campaign(t, n) in c.history.campaigns && t <= c.nodes[n].term ==>
                  && Campaign(t, n) in d.history.campaigns
                  && d.history.campaigns[Campaign(t, n)] == c.history.campaigns[Campaign(t, n)])
  {
    hide OnAppendEntries, CrashFloor, Followed, LastOf, TermAt, OnRequestVote, OnVoteReply, Restart;
  }

  /** A node's own step leaves the office alone, leaves it, or takes it with the log of its campaign. */
  lemma OwnMove(members: set<NodeId>, c: Cluster, a: Action, n: NodeId)
    requires n in c.nodes && n in members && a.node == n
    requires c.nodes[n].role == Candidate ==>
               Campaign(c.nodes[n].term, n) in c.history.campaigns
               && c.history.campaigns[Campaign(c.nodes[n].term, n)] == c.nodes[n].log
    ensures var d := Step(members, c, a);
            && n in d.nodes
            && (d.nodes[n].role == Leader ==>
                  || SameOffice(c.nodes[n], d.nodes[n])
                  || InOffice(members, d.history, n, d.nodes[n]))
  {
    hide OnAppendEntries, CrashFloor, Followed, LastOf, TermAt, BecomeLeader, InOffice;
    if a.DeliverAppend? && a.message.Append? {
      AppendRole(Config(n, members), c.nodes[n], a.message.append);
    }
    if a.Timeout? {
      var t := BecomeCandidate(Config(n, members), c.nodes[n]);
      BecomesInOffice(members, OnTimeout(members, c, n).history, n, t);
    }
    if a.DeliverVoted? && a.message.Voted? {
      var t := c.nodes[n].(votes := c.nodes[n].votes + {a.message.voter});
      BecomesInOffice(members, Step(members, c, a).history, n, t);
    }
  }

  lemma AppendRole(cfg: Config, s: Node, r: AppendRequest)
    ensures var t := OnAppendEntries(cfg, s, r).0;
            t == s || t.role == Follower
  {
    hide FirstNew, Kept, Dense, TermAt;
  }

  lemma {:induction false} LeaderStartsBlank(members: set<NodeId>, actions: seq<Action>, n: NodeId)
    requires n in members
    ensures n in Run(members, actions).nodes
    ensures InOffice(members, Run(members, actions).history, n, Run(members, actions).nodes[n])
  {
    hide Step, InOffice, Inv;
    if actions == [] {
      assert InOffice(members, Init(members).history, n, FRESH) by { FreshInOffice(members, n); }
    } else {
      var init := actions[..|actions| - 1];
      LeaderStartsBlank(members, init, n);
      RunInv(members, init);
      StepOffice(members, Run(members, init), actions[|actions| - 1], n);
    }
  }

  lemma FreshInOffice(members: set<NodeId>, n: NodeId)
    ensures InOffice(members, Init(members).history, n, FRESH)
  {
  }
}
