/** The imperative server: hard-state store, segmented log and in-memory state, refining the node functions. */
module RaftServers {
  import opened Options
  import opened RaftTypes
  import opened RaftNodes
  import RaftLogs

  class HardStateStore {
    var state: HardState

    constructor (loaded: HardState)
      ensures state == loaded
    {
      state := loaded;
    }

    /** Accepted exactly if the term does not go back, a vote of that term stays, and term zero gets no vote. */
    method Persist(term: nat, votedFor: Option<NodeId>) returns (ok: bool)
      modifies this
      ensures ok <==> && old(state).term <= term
                      && (old(state).term == term && old(state).votedFor.Some? ==> votedFor == old(state).votedFor)
                      && (term == 0 ==> votedFor.None?)
      ensures state == if ok then HardState(term, votedFor) else old(state)
    {
      if term < state.term { return false; }
      if term == state.term && state.votedFor.Some? && state.votedFor != votedFor { return false; }
      if term == 0 && votedFor.Some? { return false; }
      state := HardState(term, votedFor);
      return true;
    }
  }

  class RaftServer {
    const cfg: Config
    const store: HardStateStore
    const log: RaftLogs.RaftLog
    var term: nat
    var votedFor: Option<NodeId>
    var role: Role
    var leader: Option<NodeId>
    var votes: set<NodeId>
    var commit: nat
    var applied: nat
    var sendNext: map<NodeId, nat>
    var replicated: map<NodeId, nat>

    ghost predicate Valid()
      reads this, store, log
    {
      log.Valid() && store.state == HardState(term, votedFor)
    }

    ghost function View(): Node
      reads this, store, log
    {
      Node(store.state, term, votedFor, role, leader, votes, log.Flat(), log.durableIndex, commit, applied, sendNext,
        replicated)
    }

    /** Restart: term and vote come from the hard state, both watermarks from recovery. */
    constructor (cfg: Config, store: HardStateStore, log: RaftLogs.RaftLog, watermark: nat)
      requires log.Valid() && log.durableIndex == |log.Flat()|
      ensures Valid() && this.cfg == cfg && this.store == store && this.log == log
      ensures View() == Restart(FRESH.(hard := store.state, log := log.Flat()), |log.Flat()|, watermark)
    {
      this.cfg, this.store, this.log := cfg, store, log;
      term, votedFor := store.state.term, store.state.votedFor;
      role, leader, votes := Follower, None, {};
      commit, applied := watermark, watermark;
      sendNext, replicated := map[], map[];
      new;
      assert log.Flat()[..|log.Flat()|] == log.Flat();
    }

    /** The only way to change the term; the hard state is written first. A term that does not advance is refused. */
    method AdvanceTermTo(newTerm: nat, vote: Option<NodeId>) returns (ok: bool)
      requires Valid()
      modifies this, store
      ensures Valid() && (ok <==> newTerm > old(term))
      ensures View() == if ok then AdvanceTerm(old(View()), newTerm, vote) else old(View())
    {
      if newTerm <= term { return false; }
      ok := store.Persist(newTerm, vote);
      assert ok;
      votedFor, votes, leader := vote, {}, None;
      term := newTerm;
    }

    method FollowAs(newTerm: nat, newLeader: Option<NodeId>)
      requires Valid()
      modifies this, store
      ensures Valid() && View() == BecomeFollower(old(View()), newTerm, newLeader)
    {
      if newTerm > term { var _ := AdvanceTermTo(newTerm, None); }
      leader, role := newLeader, Follower;
    }

    method LeadFrom(lastIndex: nat)
      requires Valid() && lastIndex == |log.Flat()|
      modifies this
      ensures Valid() && View() == BecomeLeader(cfg, old(View()))
    {
      sendNext := map p | p in cfg.Peers() :: lastIndex + 1;
      replicated := map p | p in cfg.Peers() :: 0;
      leader, role := Some(cfg.self), Leader;
    }

    method LastEntry() returns (last: Last)
      requires Valid()
      ensures last == LastOf(log.Flat())
    {
      last := Last(log.nextIndex - 1, log.lastTerm);
    }

    method RequestVote(request: VoteRequest) returns (out: VoteOutcome)
      requires Valid()
      modifies this, store
      ensures Valid()
      ensures (View(), out) == OnRequestVote(cfg, old(View()), request)
    {
      if !cfg.IsPeer(request.candidate) { return VoteInvalid; }
      if request.term < term { return VoteAnswer(term, false); }
      if request.term > term { FollowAs(request.term, None); }

      if votedFor.Some? && votedFor.value != request.candidate { return VoteAnswer(term, false); }
      var own := LastEntry();
      if !UpToDate(request.last, own) { return VoteAnswer(term, false); }
      if votedFor != Some(request.candidate) {
        var ok := store.Persist(term, Some(request.candidate));
        if !ok { return VoteThrew; }
        votedFor := Some(request.candidate);
      }
      return VoteAnswer(term, true);
    }

    /** The locked opening of a campaign. Nothing is sent unless `request` is returned. */
    method Campaign() returns (request: Option<VoteRequest>)
      requires Valid()
      modifies this, store
      ensures Valid()
      ensures old(role) == Leader ==> request.None? && View() == old(View())
      ensures old(role) != Leader ==>
                && View() == StartCampaign(cfg, old(View()))
                && request == if cfg.Majority() <= 1 then None
                              else Some(VoteRequest(old(term) + 1, cfg.self, LastOf(old(log.Flat()))))
    {
      if role == Leader { return None; }
      var _ := AdvanceTermTo(term + 1, Some(cfg.self));
      role := Candidate;
      var last := LastEntry();
      if cfg.Majority() <= 1 {
        LeadFrom(last.index);
        return None;
      }
      return Some(VoteRequest(term, cfg.self, last));
    }

    method VoteReply(sentTerm: nat, voter: NodeId, replyTerm: nat, granted: bool)
      requires Valid()
      modifies this, store
      ensures Valid() && View() == OnVoteReply(cfg, old(View()), sentTerm, voter, replyTerm, granted)
    {
      if replyTerm > term {
        FollowAs(replyTerm, None);
        return;
      }
      if sentTerm != term || role != Candidate { return; }
      if !granted { return; }
      votes := votes + {voter};
      if |votes| + 1 >= cfg.Majority() {
        var last := LastEntry();
        LeadFrom(last.index);
      }
    }

    /** The conflict scan: stops at the first index the log lacks or holds with another term. */
    method FindNew(prev: nat, entries: seq<Entry>) returns (k: nat, conflict: bool)
      requires log.Valid()
      ensures k == FirstNew(log.Flat(), prev, entries, 0)
      ensures conflict <==> k < |entries| && TermAt(log.Flat(), prev + 1 + k) != 0
    {
      k, conflict := 0, false;
      while k < |entries|
        invariant 0 <= k <= |entries|
        invariant FirstNew(log.Flat(), prev, entries, 0) == FirstNew(log.Flat(), prev, entries, k)
      {
        var existing := log.TermOf(prev + 1 + k);
        if existing == 0 { return; }
        if existing != entries[k].term { return k, true; }
        k := k + 1;
      }
    }

    /** Truncates at a genuine conflict and appends what is new. */
    method MergeEntries(prev: nat, entries: seq<Entry>) returns (ok: bool)
      requires log.Valid()
      modifies log
      ensures log.Valid()
      ensures var flat := old(log.Flat());
              var k := FirstNew(flat, prev, entries, 0);
              var kept := Kept(flat, prev, entries);
              && (ok <==> entries[k..] == [] || (prev + k == kept && Dense(prev + 1 + k, entries[k..])))
              && log.Flat() == flat[..kept] + (if ok then entries[k..] else [])
              && log.durableIndex == Min(old(log.durableIndex), kept)
    {
      hide RaftLogs.Flatten, RaftLogs.Contiguous, RaftLogs.WellNumbered, RaftLogs.Covered, FirstNew, Dense;
      var k, conflict := FindNew(prev, entries);
      ghost var flat := log.Flat();
      ghost var kept := Kept(flat, prev, entries);
      assert kept == if conflict then prev + k else |flat|;
      assert log.durableIndex <= |flat|;
      if conflict {
        var cut := log.TruncateSuffix(prev + 1 + k);
      }
      assert log.Flat() == flat[..kept];
      ok := true;
      if k < |entries| {
        ok := log.AppendFromLeader(prev + 1 + k, entries[k..]);
      } else {
        assert flat[..kept] + entries[k..] == flat[..kept];
      }
    }

    /** Truncate at a genuine conflict, append, sync, advance the commit index. The log may be made
        durable further than asked, up to the end of a segment. */
    method ReplicateEntries(request: AppendRequest) returns (out: AppendOutcome)
      requires Valid()
      modifies this, log
      ensures Valid()
      ensures var (t, o) := Replicate(old(View()), request);
              && out == o
              && View() == t.(durable := log.durableIndex)
              && log.durableIndex >= t.durable
    {
      hide RaftLogs.Flatten, RaftLogs.Sound, FirstNew, Dense, Kept, TermAt;
      var ok := MergeEntries(request.prev, request.entries);
      if !ok { return AppendThrew; }
      var last := request.prev + |request.entries|;
      if last > 0 {
        var synced := log.SyncThrough(last);
        if !synced { return AppendThrew; }
      }
      var bound := Min(request.commit, last);
      if bound > commit { commit := bound; }
      return AppendAnswer(term, true);
    }

    method AppendEntries(request: AppendRequest) returns (out: AppendOutcome)
      requires Valid()
      modifies this, store, log
      ensures Valid()
      ensures var (t, o) := OnAppendEntries(cfg, old(View()), request);
              && out == o
              && View() == t.(durable := log.durableIndex)
              && log.durableIndex >= t.durable
    {
      if !cfg.IsPeer(request.leader) { return AppendInvalid; }
      if request.term < term { return AppendAnswer(term, false); }
      if request.term > term || role != Follower {
        FollowAs(request.term, Some(request.leader));
      } else {
        leader := Some(request.leader);
      }
      if request.prev > 0 {
        var held := log.TermOf(request.prev);
        if held != request.prevTerm { return AppendAnswer(term, false); }
      }
      out := ReplicateEntries(request);
    }
  }
}
