/** Stretches of runs of the machine in `WalRecovery`, built from the code's own steps: log
    rows, flush sessions, commit and move the checkpoint, crash and reopen, finish a
    recovery. */
module WalSchedules {
  import opened Prelude
  import opened WalFormat
  import opened LocalWal
  import opened WalRecovery

  /** The code can take these steps from one state, and they lead to the other. */
  ghost predicate Reaches(g: Config, s: State, acts: seq<Action>, s': State)
    decreases |acts|
  {
    if acts == [] then s' == s
    else Possible(g, s, acts[0]) && Reaches(g, Step(g, s, acts[0]), acts[1..], s')
  }

  lemma ReachesNothing(g: Config, s: State)
    ensures Reaches(g, s, [], s)
  {
  }

  lemma ReachesOne(g: Config, s: State, a: Action)
    requires Possible(g, s, a)
    ensures Reaches(g, s, [a], Step(g, s, a))
  {
    hide Possible, Step;
    assert [a][1..] == [];
  }

  lemma {:induction false} ReachesConcat(g: Config, s: State, a: seq<Action>, s1: State, b: seq<Action>, s2: State)
    requires Reaches(g, s, a, s1) && Reaches(g, s1, b, s2)
    ensures Reaches(g, s, a + b, s2)
    decreases |a|
  {
    hide Possible, Step;
    if a == [] {
      assert a + b == b;
    } else {
      assert (a + b)[1..] == a[1..] + b;
      ReachesConcat(g, Step(g, s, a[0]), a[1..], s1, b, s2);
    }
  }

  lemma ReachesThen(g: Config, s: State, a: seq<Action>, s1: State, b: Action)
    requires Reaches(g, s, a, s1) && Possible(g, s1, b)
    ensures Reaches(g, s, a + [b], Step(g, s1, b))
  {
    hide Possible, Step, Reaches;
    ReachesOne(g, s1, b);
    ReachesConcat(g, s, a, s1, [b], Step(g, s1, b));
  }

  /** Every guarded run is a run of the code. */
  lemma {:induction false} RunReaches(g: Config, s: State, acts: seq<Action>)
    requires Runs(g, s, acts)
    ensures Reaches(g, s, acts, After(g, s, acts))
    decreases |acts|
  {
    hide Possible, Step;
    if acts != [] {
      RunReaches(g, Step(g, s, acts[0]), acts[1..]);
    }
  }

  /** Steps of a recovery carry no guard. */
  lemma {:induction false} RecoveryReaches(g: Config, s: State, acts: seq<Action>, s': State)
    requires Reaches(g, s, acts, s') && forall a | a in acts :: IsRecovery(a)
    ensures Runs(g, s, acts) && After(g, s, acts) == s'
    decreases |acts|
  {
    hide Possible, Step;
    if acts != [] {
      assert IsRecovery(acts[0]);
      RecoveryReaches(g, Step(g, s, acts[0]), acts[1..], s');
    }
  }

  // ----- Persisting the cache -----

  ghost function Persisted(durable: Store, cache: Store, cells: set<Cell>): Store
    requires cells <= cache.Keys
  {
    durable + map c | c in cells :: cache[c]
  }

  lemma {:induction false} PersistCells(g: Config, s: State, cells: set<Cell>) returns (acts: seq<Action>)
    requires (s.phase.Persisting? || s.phase.ReplayPersisting?) && cells <= s.mem.cache.Keys
    ensures Reaches(g, s, acts, s.(durable := Persisted(s.durable, s.mem.cache, cells)))
    ensures forall a | a in acts :: a.PersistCell?
    decreases cells
  {
    hide Reaches;
    ReachesNothing(g, s);
    if cells == {} {
      assert Persisted(s.durable, s.mem.cache, cells) == s.durable;
      return [];
    }
    var c :| c in cells;
    var front := PersistCells(g, s, cells - {c});
    var s1 := s.(durable := Persisted(s.durable, s.mem.cache, cells - {c}));
    ReachesThen(g, s, front, s1, PersistCell(c));
    assert s1.durable[c := s.mem.cache[c]] == Persisted(s.durable, s.mem.cache, cells);
    acts := front + [PersistCell(c)];
  }

  /** Persist everything and finish. */
  lemma PersistAll(g: Config, s: State) returns (acts: seq<Action>)
    requires s.phase.Persisting? || s.phase.ReplayPersisting?
    ensures Reaches(g, s, acts,
                    s.(durable := s.durable + s.mem.cache,
                       phase := if s.phase.Persisting? then Checkpointing else ReplayCheckpointing(s.phase.next)))
    ensures forall a | a in acts :: a.PersistCell? || a.PersistDone?
  {
    var front := PersistCells(g, s, s.mem.cache.Keys);
    assert Persisted(s.durable, s.mem.cache, s.mem.cache.Keys) == s.durable + s.mem.cache;
    var s1 := s.(durable := s.durable + s.mem.cache);
    ReachesThen(g, s, front, s1, PersistDone);
    acts := front + [PersistDone];
  }

  // ----- Flushing sessions -----

  /** The memory after the sessions were flushed in this order. */
  ghost function FlushedMemory(m: Memory, ks: seq<string>): (m': Memory)
    requires forall k | k in ks :: k in m.buffers
    ensures m'.inflight == m.inflight && m'.buffers.Keys == m.buffers.Keys
    decreases |ks|
  {
    if ks == [] then m
    else
      var n := |ks| - 1;
      assert ks[n] in ks;
      FlushSession(FlushedMemory(m, ks[..n]), ks[n])
  }

  lemma {:induction false} FlushInOrder(g: Config, s: State, ks: seq<string>) returns (acts: seq<Action>)
    requires Up(s.phase) || AtReplayCommit(s)
    requires forall k | k in ks :: k in s.mem.buffers
    ensures Reaches(g, s, acts, s.(mem := FlushedMemory(s.mem, ks)))
    ensures forall a | a in acts :: a.Flush?
    decreases |ks|
  {
    hide Reaches;
    ReachesNothing(g, s);
    if ks == [] {
      return [];
    }
    var n := |ks| - 1;
    assert ks[n] in ks;
    var front := FlushInOrder(g, s, ks[..n]);
    ReachesThen(g, s, front, s.(mem := FlushedMemory(s.mem, ks[..n])), Flush(ks[n]));
    acts := front + [Flush(ks[n])];
  }

  lemma {:induction false} FlushedEmpty(m: Memory, ks: seq<string>, k: string)
    requires (forall k | k in ks :: k in m.buffers) && k in m.buffers
    ensures FlushedMemory(m, ks).buffers[k] == if k in ks then map[] else m.buffers[k]
    decreases |ks|
  {
    hide FlushedMemory;
    FlushedNothing(m);
    if ks != [] {
      var n := |ks| - 1;
      FlushedLast(m, ks);
      FlushedEmpty(m, ks[..n], k);
      assert ks == ks[..n] + [ks[n]];
    }
  }

  /** The cache after distinct sessions were flushed in this order. */
  ghost function CacheAfter(cache: Store, buffers: map<string, Store>, ks: seq<string>): Store {
    if ks == [] then cache else CacheAfter(cache, buffers, ks[..|ks| - 1]) + Get(buffers, ks[|ks| - 1])
  }

  lemma {:induction false} FlushedCache(m: Memory, ks: seq<string>)
    requires forall k | k in ks :: k in m.buffers
    requires forall i, j | 0 <= i < j < |ks| :: ks[i] != ks[j]
    ensures FlushedMemory(m, ks).cache == CacheAfter(m.cache, m.buffers, ks)
    decreases |ks|
  {
    hide FlushedMemory;
    FlushedNothing(m);
    if ks != [] {
      var n := |ks| - 1;
      assert ks[n] in ks && ks[n] !in ks[..n];
      FlushedLast(m, ks);
      FlushedCache(m, ks[..n]);
      FlushedEmpty(m, ks[..n], ks[n]);
    }
  }

  lemma FlushedNothing(m: Memory)
    ensures FlushedMemory(m, []) == m
  {
  }

  lemma FlushedLast(m: Memory, ks: seq<string>)
    requires ks != [] && forall k | k in ks :: k in m.buffers
    ensures ks[|ks| - 1] in m.buffers
    ensures FlushedMemory(m, ks) == FlushSession(FlushedMemory(m, ks[..|ks| - 1]), ks[|ks| - 1])
  {
    assert ks[|ks| - 1] in ks;
  }

  /** Some order of the sessions. */
  lemma {:induction false} SomeOrder(keys: set<string>) returns (ks: seq<string>)
    ensures forall k :: k in ks <==> k in keys
    ensures forall i, j | 0 <= i < j < |ks| :: ks[i] != ks[j]
    decreases keys
  {
    if keys == {} {
      return [];
    }
    var k :| k in keys;
    var front := SomeOrder(keys - {k});
    ks := front + [k];
  }

  // ----- Logging -----

  /** The log is open and continues after its last record. */
  ghost predicate Ready(g: Config, s: State) {
    && LawfulConfig(g) && s.phase.Serving? && Holds(g.codec, s.file, s.log)
    && s.nextLsn == NextLsn(s.log) && CheckpointLsn(s.checkpoint) <= LastLsn(s.log)
  }

  /** The state once a record is in the log, before anything is done about it. */
  ghost function Logged(g: Config, s: State, r: Record): State {
    s.(file := s.file + Frame(g.codec, r), log := s.log + [r], nextLsn := (s.nextLsn + 1) % U64)
  }

  lemma LoggedReady(g: Config, s: State, r: Record)
    requires Ready(g, s) && ValidRecord(g.codec, r) && r.lsn == s.nextLsn
    ensures Ready(g, Logged(g, s, r)) && LastLsn(s.log) < r.lsn == LastLsn(s.log + [r])
  {
    hide Holds, Frame, NextLsn, ValidRecord, Lawful;
    NextLsnAbove(g.codec, s.log, r);
    ReadAppend(g.codec, s.file, s.log, r);
    NextAfter(g, s.log, r);
  }

  lemma NextAfter(g: Config, log: seq<Record>, r: Record)
    ensures NextLsn(log + [r]) == (r.lsn + 1) % U64
  {
  }

  /** Begin, write the frame, acknowledge. */
  lemma AppendRow(g: Config, s: State, session: string, r: Record) returns (acts: seq<Action>)
    requires s.phase.Serving? && session !in s.mem.inflight
    requires IsRowKind(r) && r.lsn == s.nextLsn && ValidRecord(g.codec, r)
    ensures Reaches(g, s, acts, Logged(g, s, r).(mem := s.mem.(inflight := s.mem.inflight[session := r])))
  {
    hide ValidRecord, Reaches;
    var n := |Frame(g.codec, r)|;
    var a, b, c := BeginAppend(session, r), WriteTo(n), Acknowledge;
    ReachesOne(g, s, a);
    var s1 := Step(g, s, a);
    ReachesThen(g, s, [a], s1, b);
    var s2 := Step(g, s1, b);
    ReachesThen(g, s, [a] + [b], s2, c);
    assert Frame(g.codec, r)[..n] == Frame(g.codec, r);
    acts := [a] + [b] + [c];
  }

  lemma AppendCommit(g: Config, s: State, r: Record) returns (acts: seq<Action>)
    requires s.phase.Serving? && IsCommit(r) && r.lsn == s.nextLsn && ValidRecord(g.codec, r)
    ensures Reaches(g, s, acts, Logged(g, s, r).(phase := Persisting))
  {
    hide ValidRecord, Reaches;
    var n := |Frame(g.codec, r)|;
    var a, b, c := BeginCommit(r), WriteTo(n), Acknowledge;
    ReachesOne(g, s, a);
    var s1 := Step(g, s, a);
    ReachesThen(g, s, [a], s1, b);
    var s2 := Step(g, s1, b);
    ReachesThen(g, s, [a] + [b], s2, c);
    assert Frame(g.codec, r)[..n] == Frame(g.codec, r);
    acts := [a] + [b] + [c];
  }

  /** A row that is logged and applied at once. */
  lemma LogRow(g: Config, s: State, session: string, r: Record) returns (acts: seq<Action>)
    requires s.phase.Serving? && session !in s.mem.inflight
    requires IsRowKind(r) && r.lsn == s.nextLsn && ValidRecord(g.codec, r)
    ensures Reaches(g, s, acts, Logged(g, s, r).(mem := ApplyRow(s.mem, session, g.writes(r))))
  {
    hide ValidRecord, Reaches, Logged;
    acts := AppendRow(g, s, session, r);
    var s1 := Logged(g, s, r).(mem := s.mem.(inflight := s.mem.inflight[session := r]));
    assert s1.phase.Serving? by { LoggedPhase(g, s, r); }
    ReachesThen(g, s, acts, s1, Apply(session));
    assert s.mem.inflight[session := r] - {session} == s.mem.inflight;
    acts := acts + [Apply(session)];
  }

  lemma LoggedPhase(g: Config, s: State, r: Record)
    ensures Logged(g, s, r).phase == s.phase && Logged(g, s, r).mem == s.mem
  {
  }

  /** A row and the session that logs it. */
  datatype Row = Row(session: string, record: Record)

  /** The state after these rows were logged and applied, one after the other. */
  ghost function RowsState(g: Config, s: State, rows: seq<Row>): State
    decreases |rows|
  {
    if rows == [] then s
    else
      var n := |rows| - 1;
      var s1 := RowsState(g, s, rows[..n]);
      Logged(g, s1, rows[n].record).(mem := ApplyRow(s1.mem, rows[n].session, g.writes(rows[n].record)))
  }

  /** They are rows with the LSNs that come up. */
  ghost predicate CanLog(g: Config, s: State, rows: seq<Row>)
    decreases |rows|
  {
    if rows == [] then true
    else
      var n := |rows| - 1;
      && CanLog(g, s, rows[..n]) && rows[n].session !in s.mem.inflight
      && IsRowKind(rows[n].record) && ValidRecord(g.codec, rows[n].record)
      && rows[n].record.lsn == RowsState(g, s, rows[..n]).nextLsn
  }

  function RecordsOf(rows: seq<Row>): (rs: seq<Record>) {
    if rows == [] then [] else RecordsOf(rows[..|rows| - 1]) + [rows[|rows| - 1].record]
  }

  /** What one session has written among these rows. */
  function WrittenBy(g: Config, rows: seq<Row>, k: string): (w: Store) {
    if rows == [] then map[]
    else
      var n := |rows| - 1;
      WrittenBy(g, rows[..n], k) + if rows[n].session == k then g.writes(rows[n].record) else map[]
  }

  /** Only the log and the buffers change. */
  ghost predicate OnlyLogged(g: Config, s: State, rows: seq<Row>, s': State) {
    && Ready(g, s') && s'.log == s.log + RecordsOf(rows)
    && s'.durable == s.durable && Buffered(g, s.mem, rows, s'.mem)
  }

  function SessionsOf(rows: seq<Row>): (ks: set<string>) {
    if rows == [] then {} else SessionsOf(rows[..|rows| - 1]) + {rows[|rows| - 1].session}
  }

  /** The rows are in their sessions' buffers, over what was there. */
  ghost predicate Buffered(g: Config, m: Memory, rows: seq<Row>, m': Memory) {
    && m'.cache == m.cache && m'.inflight == m.inflight
    && m'.buffers.Keys == m.buffers.Keys + SessionsOf(rows)
    && (forall k :: Get(m'.buffers, k) == Get(m.buffers, k) + WrittenBy(g, rows, k))
  }

  lemma {:induction false} LogRows(g: Config, s: State, rows: seq<Row>) returns (acts: seq<Action>)
    requires Ready(g, s) && CanLog(g, s, rows)
    ensures Reaches(g, s, acts, RowsState(g, s, rows)) && OnlyLogged(g, s, rows, RowsState(g, s, rows))
    decreases |rows|
  {
    hide Reaches, ValidRecord, LawfulConfig, OnlyLogged, Ready;
    if rows == [] {
      NothingLogged(g, s);
      ReachesNothing(g, s);
      return [];
    }
    var n := |rows| - 1;
    var front := LogRows(g, s, rows[..n]);
    var s1, row := RowsState(g, s, rows[..n]), rows[n];
    OnlyLoggedParts(g, s, rows[..n], s1);
    var back := LogRow(g, s1, row.session, row.record);
    ReachesConcat(g, s, front, s1, back, RowsState(g, s, rows));
    assert rows[..n] + [row] == rows;
    LoggedOneMore(g, s, rows[..n], row, s1);
    acts := front + back;
  }

  lemma NothingLogged(g: Config, s: State)
    requires Ready(g, s)
    ensures OnlyLogged(g, s, [], s)
  {
    hide Holds, LawfulConfig, NextLsn;
    assert s.log + [] == s.log;
    assert forall k :: Get(s.mem.buffers, k) + map[] == Get(s.mem.buffers, k);
  }

  lemma OnlyLoggedParts(g: Config, s: State, rows: seq<Row>, s': State)
    requires OnlyLogged(g, s, rows, s')
    ensures Ready(g, s') && s'.phase.Serving? && s'.mem.inflight == s.mem.inflight
  {
    hide Holds, LawfulConfig, NextLsn;
  }

  lemma LoggedOneMore(g: Config, s: State, rows: seq<Row>, row: Row, s1: State)
    requires OnlyLogged(g, s, rows, s1) && ValidRecord(g.codec, row.record) && row.record.lsn == s1.nextLsn
    ensures OnlyLogged(g, s, rows + [row],
                       Logged(g, s1, row.record).(mem := ApplyRow(s1.mem, row.session, g.writes(row.record))))
  {
    hide Ready, ValidRecord, Frame, Buffered;
    var m := ApplyRow(s1.mem, row.session, g.writes(row.record));
    LoggedReady(g, s1, row.record);
    ReadyMemory(g, Logged(g, s1, row.record), m);
    assert (rows + [row])[..|rows|] == rows;
    assert s.log + RecordsOf(rows) + [row.record] == s.log + RecordsOf(rows + [row]);
    BufferedOneMore(g, s.mem, rows, row, s1.mem);
  }

  lemma BufferedOneMore(g: Config, m: Memory, rows: seq<Row>, row: Row, m1: Memory)
    requires Buffered(g, m, rows, m1)
    ensures Buffered(g, m, rows + [row], ApplyRow(m1, row.session, g.writes(row.record)))
  {
    hide Get;
    var m2, all := ApplyRow(m1, row.session, g.writes(row.record)), rows + [row];
    assert all[..|rows|] == rows;
    forall k ensures Get(m2.buffers, k) == Get(m.buffers, k) + WrittenBy(g, all, k) {
      var more := if row.session == k then g.writes(row.record) else map[];
      GetApplied(m1, row.session, g.writes(row.record), k);
      OverrideAssociative(Get(m.buffers, k), WrittenBy(g, rows, k), more);
    }
  }

  lemma GetApplied(m: Memory, session: string, w: Store, k: string)
    ensures Get(ApplyRow(m, session, w).buffers, k) == Get(m.buffers, k) + if session == k then w else map[]
  {
    assert Get(m.buffers, k) + map[] == Get(m.buffers, k);
  }

  lemma ReadyMemory(g: Config, s: State, m: Memory)
    requires Ready(g, s)
    ensures Ready(g, s.(mem := m))
  {
  }

  // ----- Commit, crash, recover -----

  /** The state after a commit that met no fault. */
  ghost function CommittedState(g: Config, s: State, r: Record): State {
    Logged(g, s, r).(durable := s.durable + s.mem.cache, checkpoint := Some(r.lsn),
                     cut := |s.log| + 1, promised := s.log + [r])
  }

  lemma Commit(g: Config, s: State, r: Record) returns (acts: seq<Action>)
    requires Ready(g, s) && IsCommit(r) && r.lsn == s.nextLsn && ValidRecord(g.codec, r)
    ensures Reaches(g, s, acts, CommittedState(g, s, r)) && Ready(g, CommittedState(g, s, r))
  {
    hide ValidRecord, Reaches, Holds, Frame, NextLsn, LawfulConfig;
    LoggedReady(g, s, r);
    var front := AppendCommit(g, s, r);
    var s1 := Logged(g, s, r).(phase := Persisting);
    var middle := PersistAll(g, s1);
    var s2 := s1.(durable := s.durable + s.mem.cache, phase := Checkpointing);
    ReachesConcat(g, s, front, s1, middle, s2);
    ReachesThen(g, s, front + middle, s2, WriteCheckpoint);
    acts := front + middle + [WriteCheckpoint];
  }

  /** A crash in a committed state leaves nothing to replay. */
  lemma CrashAndReopen(g: Config, s: State) returns (acts: seq<Action>, s': State)
    requires Ready(g, s) && CommittedLen(s.log) == |s.log| && CheckpointLsn(s.checkpoint) == LastLsn(s.log)
    ensures Reaches(g, s, acts, s') && RecoveryDone(s')
    ensures s'.log == s.log && s'.durable == s.durable && s'.promised == s.promised && s'.checkpoint == s.checkpoint
  {
    hide Reaches, CommittedLen, CheckpointedCount;
    var a, b := Crash(0), Reopen;
    ReachesOne(g, s, a);
    var s1 := Step(g, s, a);
    ReachesThen(g, s, [a], s1, b);
    HoldsIncreasing(g.codec, s.file, s.log);
    CountIs(s.log, |s.log|, CheckpointLsn(s.checkpoint));
    return [a] + [b], Step(g, s1, b);
  }

  /** Commit, crash and recover: what is durable then is what was durable or cached. */
  lemma CommitThenCrash(g: Config, s: State, r: Record) returns (acts: seq<Action>, s': State)
    requires Ready(g, s) && IsCommit(r) && r.lsn == s.nextLsn && ValidRecord(g.codec, r)
    ensures Reaches(g, s, acts, s') && RecoveryDone(s')
    ensures s'.log == s'.promised == s.log + [r] && CommittedLen(s'.log) == |s'.log|
    ensures s'.durable == s.durable + s.mem.cache
  {
    hide Reaches, Ready, CommittedLen, ValidRecord;
    CommittedAppend(s.log, r);
    LoggedReady(g, s, r);
    var front := Commit(g, s, r);
    var s1 := CommittedState(g, s, r);
    var back, s2 := CrashAndReopen(g, s1);
    ReachesConcat(g, s, front, s1, back, s2);
    return front + back, s2;
  }

  // ----- Finishing a recovery -----

  /** Replay the next record of the plan. */
  lemma ReplayNext(g: Config, s: State) returns (acts: seq<Action>, s': State)
    requires Inv(g, s) && s.phase.Replaying? && s.phase.next < |s.plan|
    ensures Reaches(g, s, acts, s') && forall a | a in acts :: IsRecovery(a)
    ensures s'.phase == Replaying(s.phase.next + 1) && s'.plan == s.plan
  {
    hide Reaches, Inv;
    PlanKinds(g, s);
    if IsRowKind(s.plan[s.phase.next]) {
      ReachesOne(g, s, ReplayRow);
      return [ReplayRow], Step(g, s, ReplayRow);
    }
    acts, s' := ReplayCommitted(g, s);
  }

  lemma PlanKinds(g: Config, s: State)
    requires Inv(g, s) && s.phase.Replaying? && s.phase.next < |s.plan|
    ensures IsRowKind(s.plan[s.phase.next]) || IsCommit(s.plan[s.phase.next])
    ensures s.mem.inflight == map[]
  {
    hide DiskInv, Repairable, Covers, Net, CommittedLen, LawfulConfig;
    assert s.plan[s.phase.next] in s.log;
  }

  /** Flush every session, persist, and move the checkpoint. */
  lemma ReplayCommitted(g: Config, s: State) returns (acts: seq<Action>, s': State)
    requires AtReplayCommit(s) && s.mem.inflight == map[]
    ensures Reaches(g, s, acts, s') && forall a | a in acts :: IsRecovery(a)
    ensures s'.phase == Replaying(s.phase.next + 1) && s'.plan == s.plan
  {
    hide Reaches, FlushedMemory, CheckpointedCount, Advance;
    var ks := SomeOrder(s.mem.buffers.Keys);
    acts := FlushInOrder(g, s, ks);
    var s1 := s.(mem := FlushedMemory(s.mem, ks));
    forall k | k in s1.mem.buffers ensures s1.mem.buffers[k] == map[] {
      FlushedEmpty(s.mem, ks, k);
    }
    ReachesThen(g, s, acts, s1, ReplayCommit);
    acts := acts + [ReplayCommit];
    var s2 := Step(g, s1, ReplayCommit);
    if s2.phase.ReplayPersisting? {
      var more := PersistAll(g, s2);
      var s3 := s2.(durable := s2.durable + s2.mem.cache, phase := ReplayCheckpointing(s2.phase.next));
      ReachesConcat(g, s, acts, s2, more, s3);
      acts, s2 := acts + more, s3;
    }
    ReachesThen(g, s, acts, s2, WriteCheckpoint);
    acts, s' := acts + [WriteCheckpoint], Step(g, s2, WriteCheckpoint);
  }

  /** From every state of a replay it can go on to the end of its plan. */
  lemma {:induction false} ReplayGoesOn(g: Config, s: State) returns (acts: seq<Action>)
    requires Inv(g, s) && s.phase.Replaying? && s.phase.next <= |s.plan|
    ensures Runs(g, s, acts) && RecoveryDone(After(g, s, acts)) && forall a | a in acts :: IsRecovery(a)
    decreases |s.plan| - s.phase.next
  {
    hide Reaches, Inv, Runs, After;
    if s.phase.next == |s.plan| {
      RunsNothing(g, s);
      return [];
    }
    var front, s1 := ReplayNext(g, s);
    RecoveryReaches(g, s, front, s1);
    RunInv(g, s, front);
    var back := ReplayGoesOn(g, s1);
    RunsConcat(g, s, front, back);
    acts := front + back;
  }

  lemma RunsNothing(g: Config, s: State)
    ensures Runs(g, s, []) && After(g, s, []) == s
  {
  }

  lemma {:induction false} RunsConcat(g: Config, s: State, a: seq<Action>, b: seq<Action>)
    requires Runs(g, s, a) && Runs(g, After(g, s, a), b)
    ensures Runs(g, s, a + b) && After(g, s, a + b) == After(g, After(g, s, a), b)
    decreases |a|
  {
    hide Possible, Guarded, Step;
    if a == [] {
      assert a + b == b;
    } else {
      assert (a + b)[1..] == a[1..] + b;
      RunsConcat(g, Step(g, s, a[0]), a[1..], b);
    }
  }

  /** From every crashed state of every run there are steps of a recovery that finish it. */
  lemma RecoveryCanFinish(g: Config, s: State) returns (acts: seq<Action>)
    requires Inv(g, s) && s.phase.Down?
    ensures Runs(g, s, acts) && RecoveryDone(After(g, s, acts)) && forall a | a in acts :: IsRecovery(a)
  {
    hide Reaches, Inv, Runs, After;
    AlwaysReopens(g, s);
    ReachesOne(g, s, Reopen);
    var s1 := Step(g, s, Reopen);
    RecoveryReaches(g, s, [Reopen], s1);
    StepInv(g, s, Reopen);
    var back := ReplayGoesOn(g, s1);
    RunsConcat(g, s, [Reopen], back);
    acts := [Reopen] + back;
  }
}
