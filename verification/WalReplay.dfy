/** Replaying a recovery plan into sessions (core/session_wal.go): rows go into one
    session a table, a commit record flushes and commits every session, moves the
    checkpoint and releases the sessions. */
module WalReplay {
  import opened Prelude
  import opened WalFormat
  import opened LocalWal
  import opened WalRecovery

  /** The backend: what it holds in memory and what it has persisted. */
  class Storage {
    var durable: Store
    var cache: Store

    constructor (durable: Store)
      ensures this.durable == durable && this.cache == durable
    {
      this.durable, this.cache := durable, durable;
    }

    /** BitmapIndex.Commit: persist the cache. A failure leaves the cells `part`
        persisted. */
    method Commit(ok: bool, part: set<Cell>)
      requires part <= cache.Keys
      modifies this`durable
      ensures durable == if ok then old(durable) + cache else old(durable) + (map c | c in part :: cache[c])
    {
      durable := durable + if ok then cache else map c | c in part :: cache[c];
    }
  }

  /** Where a replay is cut short: the context is cancelled (or a row is refused, or
      a session cannot be borrowed or flushed) before record `at` takes effect, or
      the storage commit or the checkpoint of the commit record `at` fails. */
  datatype Interrupt =
    | Never
    | Cancelled(at: nat)
    | CommitFails(at: nat, part: set<Cell>)
    | RenameFails(at: nat)

  datatype Summary = Summary(commits: nat, lastReplayedLsn: u64, checkpointLsn: u64)

  /** Storage and checkpoint between two records of a replay: `k` records are at or
      below the checkpoint, and replaying the others would reach `goal`. */
  ghost predicate Resumable(g: Config, durable: Store, replay: seq<Record>, k: nat, goal: Store) {
    k <= |replay| && durable + Net(g, replay[k..]) == goal
  }

  lemma {:induction false} NetOfSlice(g: Config, replay: seq<Record>, k: nat, i: nat)
    requires k <= i <= |replay|
    ensures Net(g, replay[k..]) == Net(g, replay[k..i]) + Net(g, replay[i..])
  {
    assert replay[k..] == replay[k..i] + replay[i..];
    NetConcat(g, replay[k..i], replay[i..]);
  }

  /** Writing over part of the cache still lets the rest of the replay reach the goal. */
  lemma PartialPersist(g: Config, durable: Store, cache: Store, part: Store, replay: seq<Record>, k: nat, i: nat,
                       goal: Store)
    requires k <= i <= |replay| && Resumable(g, durable, replay, k, goal)
    requires cache + Net(g, replay[i..]) == goal
    requires part.Keys <= cache.Keys && forall c | c in part :: part[c] == cache[c]
    ensures Resumable(g, durable + part, replay, k, goal)
  {
    hide Net;
    NetOfSlice(g, replay, k, i);
    var rest := Net(g, replay[k..]);
    forall c | c in part ensures c in rest || (c in goal && part[c] == goal[c]) {
      assert c in cache + Net(g, replay[i..]);
    }
    assert durable + part + rest == goal;
  }

  /** The cells of one session are the rows of one table, so the order in which the
      sessions are flushed does not matter. */
  method FlushAll(g: Config, storage: Storage, sessions: map<string, Store>, ghost rest: Store, ghost goal: Store)
    requires Covers(g, true, Memory(storage.cache, sessions, map[]), rest, goal)
    modifies storage`cache
    ensures storage.cache + rest == goal
    ensures old(storage.cache).Keys <= storage.cache.Keys
    ensures sessions == map[] ==> storage.cache == old(storage.cache)
  {
    hide Covers;
    var left := sessions;
    while left != map[]
      invariant Covers(g, true, Memory(storage.cache, left, map[]), rest, goal)
      invariant old(storage.cache).Keys <= storage.cache.Keys
      invariant sessions == map[] ==> storage.cache == old(storage.cache) && left == map[]
      decreases left.Keys
    {
      var table :| table in left;
      FlushedSession(g, Memory(storage.cache, left, map[]), table, rest, goal);
      storage.cache := storage.cache + left[table];
      left := left - {table};
    }
    IdleCovers(g, true, Memory(storage.cache, left, map[]), rest, goal);
  }

  /** A flushed session can be dropped. */
  lemma FlushedSession(g: Config, m: Memory, session: string, rest: Store, goal: Store)
    requires Covers(g, true, m, rest, goal) && session in m.buffers && m.inflight == map[]
    ensures Covers(g, true, Memory(m.cache + m.buffers[session], m.buffers - {session}, map[]), rest, goal)
  {
    hide Covers;
    var m' := Memory(m.cache + m.buffers[session], m.buffers - {session}, map[]);
    assert forall k | k != session :: Held(g, m', k) == Held(g, m, k);
    assert Held(g, m', session) == map[] && Held(g, m, session) == m.buffers[session];
    GivenUp(g, true, m, m', session, rest, goal);
  }

  /** A replay before record `i`, whose rows since record `k` are in the sessions. */
  ghost predicate Replaying(g: Config, durable: Store, cache: Store, sessions: map<string, Store>,
                            replay: seq<Record>, k: nat, i: nat, goal: Store)
  {
    && k <= i <= |replay| && Resumable(g, durable, replay, k, goal)
    && Covers(g, true, Memory(cache, sessions, map[]), Net(g, replay[i..]), goal)
    && durable.Keys <= cache.Keys
    && (sessions == map[] ==> cache == durable)
  }

  /** Flush every session, then commit: each session commits the same backend, and
      with no session there is nothing to commit. */
  method PersistSessions(g: Config, storage: Storage, sessions: map<string, Store>, commitOk: bool, part: set<Cell>,
                         ghost replay: seq<Record>, ghost k: nat, ghost i: nat, ghost goal: Store)
    returns (ok: bool)
    requires Replaying(g, storage.durable, storage.cache, sessions, replay, k, i, goal)
    modifies storage
    ensures ok <==> commitOk || sessions == map[]
    ensures Resumable(g, storage.durable, replay, k, goal)
    ensures ok ==> storage.durable == storage.cache && Resumable(g, storage.durable, replay, i, goal)
  {
    hide Net, Covers;
    FlushAll(g, storage, sessions, Net(g, replay[i..]), goal);
    if sessions == map[] {
      return true;
    }
    ghost var durable, cache := storage.durable, storage.cache;
    var written := part * storage.cache.Keys;
    PartialPersist(g, durable, cache, map c | c in written :: cache[c], replay, k, i, goal);
    PartialPersist(g, durable, cache, cache, replay, k, i, goal);
    storage.Commit(commitOk, written);
    assert durable + cache == cache;
    return commitOk;
  }

  /** The commitBoundary closure of the replay: the checkpoint moves only once the
      flushed cache is durable. */
  method CommitSessions(g: Config, storage: Storage, wal: LocalWal, sessions: map<string, Store>, record: Record,
                        commitOk: bool, part: set<Cell>, renamed: bool,
                        ghost replay: seq<Record>, ghost k: nat, ghost i: nat, ghost goal: Store)
    returns (ok: bool)
    requires wal.Valid() && wal.isOpen && IsCommit(record) && wal.checkpointLsn < record.lsn
    requires Replaying(g, storage.durable, storage.cache, sessions, replay, k, i, goal)
    requires LawfulConfig(g) && i < |replay| && record == replay[i]
    modifies storage, wal`checkpoint, wal`checkpointLsn
    ensures wal.Valid()
    ensures ok <==> (commitOk || sessions == map[]) && renamed
    ensures ok ==> wal.checkpointLsn == record.lsn
                   && Replaying(g, storage.durable, storage.cache, map[], replay, i + 1, i + 1, goal)
    ensures !ok ==> wal.checkpointLsn == old(wal.checkpointLsn) && Resumable(g, storage.durable, replay, k, goal)
  {
    hide Net, Covers, LawfulConfig, Resumable, LocalWal.Valid, LocalWal.Reopenable;
    ok := PersistSessions(g, storage, sessions, commitOk, part, replay, k, i, goal);
    if ok {
      ok := wal.CheckpointCommittedRecord(record, false, renamed);
      ReplayedCommit(g, storage.durable, replay, i, goal);
    }
  }

  /** A planned replay: the records are above the checkpoint, in LSN order. */
  ghost predicate Planned(replay: seq<Record>, checkpointLsn: u64) {
    && Increasing(replay)
    && (forall r | r in replay :: checkpointLsn < r.lsn)
  }

  /** The checkpoint after the first `k` records of a replay that began at `start`. */
  ghost function CheckpointAfter(replay: seq<Record>, k: nat, start: u64): u64
    requires k <= |replay|
  {
    if k == 0 then start else replay[k - 1].lsn
  }

  /** `k` ends the last commit among the first `i` records. */
  ghost predicate LastCommitAt(replay: seq<Record>, k: nat, i: nat) {
    && k <= i <= |replay| && (k > 0 ==> IsCommit(replay[k - 1]))
    && (forall j | k <= j < i :: !IsCommit(replay[j]))
  }

  /** ReplayLocalWALRecoveryPlanToSessionPool. However it ends, the checkpoint is at
      a commit record of the plan and replaying what follows it reaches the same
      storage; when it ends well, everything up to the last commit is replayed and
      durable. It writes nothing to the log. */
  method ReplayToSessions(g: Config, storage: Storage, wal: LocalWal, replay: seq<Record>, interrupt: Interrupt)
    returns (ok: bool, summary: Summary, ghost k: nat)
    requires LawfulConfig(g) && wal.Valid() && wal.isOpen
    requires storage.cache == storage.durable && Planned(replay, wal.checkpointLsn)
    modifies storage, wal`checkpoint, wal`checkpointLsn
    ensures wal.Valid()
    ensures Resumable(g, storage.durable, replay, k, old(storage.durable) + Net(g, replay))
    ensures k > 0 ==> IsCommit(replay[k - 1])
    ensures wal.checkpointLsn == CheckpointAfter(replay, k, old(wal.checkpointLsn))
    ensures interrupt.Never? && (forall r | r in replay :: IsRowKind(r) || IsCommit(r)) ==> ok
    ensures ok ==> forall r | r in replay :: IsRowKind(r) || IsCommit(r)
    ensures ok ==> LastCommitAt(replay, k, |replay|) && summary.commits == CountCommits(replay)
                   && summary.checkpointLsn == wal.checkpointLsn && summary.lastReplayedLsn == LastLsn(replay)
  {
    hide Net, Covers, LawfulConfig, CountCommits, Replaying, Resumable, LastCommitAt, LocalWal.Valid,
         LocalWal.Reopenable;
    ghost var goal := storage.durable + Net(g, replay);
    summary := Summary(0, 0, wal.checkpointLsn);
    var sessions: map<string, Store> := map[];
    k := 0;
    ReplayStarts(g, storage.durable, replay);
    for i := 0 to |replay|
      invariant wal.Valid() && LastCommitAt(replay, k, i)
      invariant Replaying(g, storage.durable, storage.cache, sessions, replay, k, i, goal)
      invariant k <= i && wal.checkpointLsn == CheckpointAfter(replay, k, old(wal.checkpointLsn))
      invariant forall r | r in replay[..i] :: IsRowKind(r) || IsCommit(r)
      invariant summary == Summary(CountCommits(replay[..i]), LastLsn(replay[..i]), wal.checkpointLsn)
    {
      ReplayingResumable(g, storage.durable, storage.cache, sessions, replay, k, i, goal);
      if interrupt.Cancelled? && interrupt.at == i {
        return false, summary, k;
      }
      var record := replay[i];
      OneMore(replay, k, i);
      if !IsCommit(record) && !IsRowKind(record) {
        return false, summary, k;
      }
      if !IsCommit(record) {
        ReplayedRow(g, storage.durable, storage.cache, sessions, replay, k, i, goal);
        sessions := sessions[record.table := Get(sessions, record.table) + g.writes(record)];
        summary := summary.(lastReplayedLsn := record.lsn);
      } else {
        var commitOk := !(interrupt.CommitFails? && interrupt.at == i);
        var renamed := !(interrupt.RenameFails? && interrupt.at == i);
        var part := if interrupt.CommitFails? then interrupt.part else {};
        AboveCheckpoint(replay, k, i, old(wal.checkpointLsn));
        var done := CommitSessions(g, storage, wal, sessions, record, commitOk, part, renamed, replay, k, i, goal);
        if !done {
          return false, summary, k;
        }
        sessions, k := map[], i + 1;
        summary := Summary(summary.commits + 1, record.lsn, record.lsn);
      }
    }
    assert replay[..|replay|] == replay;
    ReplayingResumable(g, storage.durable, storage.cache, sessions, replay, k, |replay|, goal);
    ok := true;
  }

  /** A replay that ends with its last record being a commit, which is how every
      plan ends, has made the whole plan durable. */
  lemma ReplayEnds(g: Config, durable: Store, replay: seq<Record>, k: nat, goal: Store)
    requires Resumable(g, durable, replay, k, goal) && LastCommitAt(replay, k, |replay|)
    requires replay != [] ==> IsCommit(replay[|replay| - 1])
    ensures k == |replay| && durable == goal
  {
    hide Net;
    assert replay[k..] == [];
    NetNothing(g);
    assert durable + map[] == durable;
  }

  /** The states in which a recovery of the machine begins to replay are those in which
      ReplayToSessions is called: the plan is as it asks, nothing is in the cache that is
      not durable, and the plan leads to what the committed log describes. */
  lemma MachineBeginsReplay(g: Config, s: State)
    requires Inv(g, s) && s.phase == WalRecovery.Replaying(0)
    ensures Planned(s.plan, CheckpointLsn(s.checkpoint)) && s.mem.cache == s.durable
    ensures forall r | r in s.plan :: IsRowKind(r) || IsCommit(r)
    ensures s.plan != [] ==> IsCommit(s.plan[|s.plan| - 1])
    ensures s.durable + Net(g, s.plan) == Net(g, Committed(s.log))
  {
    hide Net, Covers, Repairable, LawfulConfig, CommittedLen, CutInv, DiskInv, Planned, Committed, Increasing;
    LogIncreasing(g, s);
    RepairGoal(g, s.durable, s.log, s.cut);
    var n := CommittedLen(s.log);
    assert s.cut == n - |s.plan| && s.plan == s.log[s.cut..n];
    SlicePlanned(s.log, s.cut, n, s.checkpoint, s.promised);
  }

  lemma SlicePlanned(log: seq<Record>, cut: nat, n: nat, checkpoint: Option<u64>, promised: seq<Record>)
    requires CutInv(log, cut, checkpoint, promised) && Increasing(log) && cut <= n <= |log|
    ensures Planned(log[cut..n], CheckpointLsn(checkpoint))
    ensures forall r | r in log[cut..n] :: IsRowKind(r) || IsCommit(r)
  {
    hide CommittedLen;
    forall r | r in log[cut..n] ensures CheckpointLsn(checkpoint) < r.lsn && r in log {
      var i :| 0 <= i < n - cut && log[cut..n][i] == r;
      assert log[cut + i] == r;
    }
  }

  lemma ReplayingResumable(g: Config, durable: Store, cache: Store, sessions: map<string, Store>,
                           replay: seq<Record>, k: nat, i: nat, goal: Store)
    requires Replaying(g, durable, cache, sessions, replay, k, i, goal)
    requires LastCommitAt(replay, k, i)
    ensures Resumable(g, durable, replay, k, goal)
    ensures k > 0 ==> IsCommit(replay[k - 1])
  {
    hide Net, Covers, Resumable;
  }

  lemma OneMore(replay: seq<Record>, k: nat, i: nat)
    requires i < |replay| && LastCommitAt(replay, k, i)
    ensures CountCommits(replay[..i + 1]) == CountCommits(replay[..i]) + if IsCommit(replay[i]) then 1 else 0
    ensures LastLsn(replay[..i + 1]) == replay[i].lsn
    ensures LastCommitAt(replay, if IsCommit(replay[i]) then i + 1 else k, i + 1)
  {
    assert replay[..i + 1][..i] == replay[..i];
  }

  lemma AboveCheckpoint(replay: seq<Record>, k: nat, i: nat, start: u64)
    requires k <= i < |replay| && Planned(replay, start)
    ensures CheckpointAfter(replay, k, start) < replay[i].lsn
  {
    assert replay[i] in replay;
  }

  lemma ReplayStarts(g: Config, durable: Store, replay: seq<Record>)
    ensures Replaying(g, durable, durable, map[], replay, 0, 0, durable + Net(g, replay))
    ensures LastCommitAt(replay, 0, 0)
    ensures CountCommits(replay[..0]) == 0 && LastLsn(replay[..0]) == 0
  {
    hide Net, Covers;
    assert replay[0..] == replay;
    IdleCovers(g, true, Memory(durable, map[], map[]), Net(g, replay[0..]), durable + Net(g, replay));
  }

  lemma ReplayedRow(g: Config, durable: Store, cache: Store, sessions: map<string, Store>,
                    replay: seq<Record>, k: nat, i: nat, goal: Store)
    requires LawfulConfig(g) && i < |replay| && Replaying(g, durable, cache, sessions, replay, k, i, goal)
    ensures var r := replay[i];
            Replaying(g, durable, cache, sessions[r.table := Get(sessions, r.table) + g.writes(r)], replay, k, i + 1,
                      goal)
  {
    hide Net, Covers, Resumable, LawfulConfig;
    var r := replay[i];
    var m := Memory(cache, sessions, map[]);
    assert replay[i..] == [r] + replay[i + 1..];
    NetConcat(g, [r], replay[i + 1..]);
    NetOne(g, r);
    WritesOwnTable(g, r);
    CoversReplayed(g, m, r, Net(g, replay[i + 1..]), goal);
    assert r.table in sessions[r.table := Get(sessions, r.table) + g.writes(r)];
  }

  lemma ReplayedCommit(g: Config, durable: Store, replay: seq<Record>, i: nat, goal: Store)
    requires LawfulConfig(g) && i < |replay| && IsCommit(replay[i]) && Resumable(g, durable, replay, i, goal)
    ensures Replaying(g, durable, durable, map[], replay, i + 1, i + 1, goal)
  {
    hide Net, Covers, LawfulConfig;
    SkipCommit(g, replay, i);
    IdleCovers(g, true, Memory(durable, map[], map[]), Net(g, replay[i + 1..]), goal);
  }
}
