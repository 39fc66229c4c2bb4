/** The guards of the recovery theorem, one by one: runs of the code that break each of
    them, and exactly when that loses something. */
module WalBoundary {
  import opened Prelude
  import opened WalFormat
  import opened LocalWal
  import opened WalRecovery
  import opened WalSchedules

  /** What is durable is in the cache too, perhaps with a newer value. */
  predicate Cached(s: State) {
    s.durable.Keys <= s.mem.cache.Keys
  }

  lemma CachedStep(g: Config, s: State, a: Action)
    requires Cached(s) && Possible(g, s, a)
    ensures Cached(Step(g, s, a))
  {
    hide Readable, ReadOf, Holds, Frame, ValidRecord, ReplayPart, PendingPart, NextLsn, Advance, CheckpointedCount;
  }

  lemma {:induction false} CachedRun(g: Config, s: State, acts: seq<Action>, s': State)
    requires Cached(s) && Reaches(g, s, acts, s')
    ensures Cached(s')
    decreases |acts|
  {
    hide Possible, Step, Cached;
    if acts != [] {
      CachedStep(g, s, acts[0]);
      CachedRun(g, Step(g, s, acts[0]), acts[1..], s');
    }
  }

  // ----- Flush before commit -----

  /** Every cell that a session holds has that value in the cache already. */
  ghost predicate NothingToFlush(g: Config, m: Memory) {
    forall k, c | c in Held(g, m, k) :: Look(m.cache, c) == Some(Held(g, m, k)[c])
  }

  lemma CacheIsGoalIff(g: Config, m: Memory, goal: Store)
    requires Covers(g, false, m, map[], goal)
    ensures m.cache == goal <==> NothingToFlush(g, m)
  {
    hide Held, Apart;
    if NothingToFlush(g, m) {
      forall c ensures Look(m.cache, c) == Look(goal, c) {
        if !Free(g, m, c) {
          var k :| c in Held(g, m, k);
        }
      }
      StoresAgree(m.cache, goal);
    }
  }

  /** A serving state of a guarded run. */
  lemma ServingReady(g: Config, s: State)
    requires Inv(g, s) && s.phase.Serving?
    ensures Ready(g, s) && Covers(g, false, s.mem, map[], Net(g, s.log))
  {
    hide Holds, NextLsn, Covers, Repairable, LawfulConfig, Net, CommittedLen, CheckpointedCount, ReplayPart,
         PendingPart;
    HoldsIncreasing(g.codec, s.file, s.log);
    PlanParts(s.log, s.cut, s.checkpoint, s.promised);
  }

  /** In every serving state of every guarded run a commit can be made at once, whatever
      the sessions still hold. When the process then crashes and recovers, storage is what
      the committed log describes exactly if there was nothing to flush. */
  lemma CommitSafeIffFlushed(g: Config, s0: State, run: seq<Action>, r: Record) returns (acts: seq<Action>, s': State)
    requires LawfulConfig(g) && Initial(s0) && Runs(g, s0, run) && After(g, s0, run).phase.Serving?
    requires IsCommit(r) && r.lsn == After(g, s0, run).nextLsn && ValidRecord(g.codec, r)
    ensures var s := After(g, s0, run);
            && Reaches(g, s, acts, s') && RecoveryDone(s') && s'.log == s'.promised == s.log + [r]
            && (s'.durable == Net(g, Committed(s'.log)) <==> NothingToFlush(g, s.mem))
  {
    hide Runs, After, Reaches, Initial, Ready, Covers, NothingToFlush, CommittedLen, ValidRecord, Net, LawfulConfig,
         Inv;
    var s := After(g, s0, run);
    InitialInv(g, s0);
    RunInv(g, s0, run);
    ServingReady(g, s);
    InitialCached(s0);
    RunReaches(g, s0, run);
    CachedRun(g, s0, run, s);
    acts, s' := CommitThenCrash(g, s, r);
    assert s.durable + s.mem.cache == s.mem.cache;
    CommittedWhole(s'.log);
    CommitAddsNothing(g, s.log, r);
    CacheIsGoalIff(g, s.mem, Net(g, s.log));
  }

  lemma InitialCached(s: State)
    requires Initial(s)
    ensures Cached(s)
  {
  }

  lemma CommitAddsNothing(g: Config, log: seq<Record>, r: Record)
    requires LawfulConfig(g) && IsCommit(r)
    ensures Net(g, log + [r]) == Net(g, log)
  {
    hide Net;
    NetAppend(g, log, r);
    assert Net(g, log) + map[] == Net(g, log);
  }

  lemma InitialReady(g: Config, s: State)
    requires LawfulConfig(g) && Initial(s)
    ensures Ready(g, s)
  {
    hide LawfulConfig;
    ReadEmpty(g.codec);
  }

  /** The smallest run that loses a row: log it, commit while it is still in its session's
      buffer, crash. The commit was acknowledged, and the recovered storage lacks every
      cell of the row. */
  lemma UnflushedRowIsLost(g: Config, s0: State, session: string, put: Record, r: Record, cell: Cell)
    returns (acts: seq<Action>, s': State)
    requires LawfulConfig(g) && Initial(s0) && cell in g.writes(put)
    requires IsRowKind(put) && put.lsn == 1 && ValidRecord(g.codec, put)
    requires IsCommit(r) && r.lsn == 2 && ValidRecord(g.codec, r)
    ensures Reaches(g, s0, acts, s') && RecoveryDone(s') && s'.promised == s'.log == [put, r]
    ensures cell in Net(g, Committed(s'.log)) && cell !in s'.durable
  {
    hide Reaches, Ready, CommittedLen, ValidRecord, Net, LawfulConfig;
    InitialReady(g, s0);
    LoggedReady(g, s0, put);
    var front := LogRow(g, s0, session, put);
    var s1 := Logged(g, s0, put).(mem := ApplyRow(s0.mem, session, g.writes(put)));
    ReadyMemory(g, Logged(g, s0, put), s1.mem);
    var back, s2 := CommitThenCrash(g, s1, r);
    ReachesConcat(g, s0, front, s1, back, s2);
    CommittedWhole(s2.log);
    CommitAddsNothing(g, [put], r);
    NetOne(g, put);
    assert [] + [put] == [put] && [put] + [r] == [put, r];
    return front + back, s2;
  }

  // ----- One session a cell -----

  /** The session that logged the cell last. */
  function LastWriter(g: Config, rows: seq<Row>, c: Cell): (k: Option<string>) {
    if rows == [] then None
    else if c in g.writes(rows[|rows| - 1].record) then Some(rows[|rows| - 1].session)
    else LastWriter(g, rows[..|rows| - 1], c)
  }

  /** The session that flushed the cell last. */
  function LastFlusher(g: Config, rows: seq<Row>, ks: seq<string>, c: Cell): (k: Option<string>) {
    if ks == [] then None
    else if c in WrittenBy(g, rows, ks[|ks| - 1]) then Some(ks[|ks| - 1])
    else LastFlusher(g, rows, ks[..|ks| - 1], c)
  }

  /** On this cell the order of the flushes agrees with the order of the log: the last
      session to flush it is the last to have logged it, or wrote the same value. */
  predicate OrderAgrees(g: Config, rows: seq<Row>, ks: seq<string>, c: Cell) {
    var w, f := LastWriter(g, rows, c), LastFlusher(g, rows, ks, c);
    w.Some? && f.Some? ==> Look(WrittenBy(g, rows, w.value), c) == Look(WrittenBy(g, rows, f.value), c)
  }

  lemma {:induction false} LoggedLook(g: Config, log: seq<Record>, rows: seq<Row>, c: Cell)
    ensures var w := LastWriter(g, rows, c);
            && Look(Net(g, log + RecordsOf(rows)), c) ==
               (if w.Some? then Look(WrittenBy(g, rows, w.value), c) else Look(Net(g, log), c))
            && (w.Some? ==> w.value in SessionsOf(rows) && c in WrittenBy(g, rows, w.value))
            && (w.None? ==> forall k :: c !in WrittenBy(g, rows, k))
    decreases |rows|
  {
    hide Net;
    if rows == [] {
      assert log + [] == log;
    } else {
      var n := |rows| - 1;
      LoggedLook(g, log, rows[..n], c);
      assert log + RecordsOf(rows) == log + RecordsOf(rows[..n]) + [rows[n].record];
      NetAppend(g, log + RecordsOf(rows[..n]), rows[n].record);
    }
  }

  lemma {:induction false} FlushedLook(g: Config, cache: Store, buffers: map<string, Store>, rows: seq<Row>,
                                       ks: seq<string>, c: Cell)
    requires forall k | k in ks :: Get(buffers, k) == WrittenBy(g, rows, k)
    ensures var f := LastFlusher(g, rows, ks, c);
            && Look(CacheAfter(cache, buffers, ks), c) ==
               (if f.Some? then Look(WrittenBy(g, rows, f.value), c) else Look(cache, c))
            && (f.None? <==> forall k | k in ks :: c !in WrittenBy(g, rows, k))
    decreases |ks|
  {
    hide WrittenBy, Get;
    if ks != [] {
      var n := |ks| - 1;
      assert ks == ks[..n] + [ks[n]];
      FlushedLook(g, cache, buffers, rows, ks[..n], c);
    }
  }

  /** The state has no rows under way and storage's cache is the log. */
  ghost predicate Settled(g: Config, s: State) {
    Ready(g, s) && Idle(s.mem) && s.mem.cache == Net(g, s.log) && Cached(s)
  }

  lemma SettledState(g: Config, s0: State, run: seq<Action>)
    requires LawfulConfig(g) && Initial(s0) && Runs(g, s0, run)
    requires After(g, s0, run).phase.Serving? && Idle(After(g, s0, run).mem)
    ensures Settled(g, After(g, s0, run))
  {
    hide Runs, After, Reaches, Initial, Ready, Covers, Net, LawfulConfig, Inv, Idle;
    var s := After(g, s0, run);
    InitialInv(g, s0);
    RunInv(g, s0, run);
    ServingReady(g, s);
    InitialCached(s0);
    RunReaches(g, s0, run);
    CachedRun(g, s0, run, s);
    IdleCovers(g, false, s.mem, map[], Net(g, s.log));
    assert s.mem.cache + map[] == s.mem.cache;
  }

  /** From every idle serving state of every guarded run: any rows may be logged by any
      sessions and the sessions then flushed in any order. After a commit, a crash and a
      recovery a cell is what the committed log says exactly if the order of the flushes
      agrees with the order of the log on it. */
  lemma FlushOrderSafeIff(g: Config, s0: State, run: seq<Action>, rows: seq<Row>, ks: seq<string>, r: Record)
    returns (acts: seq<Action>, s': State)
    requires LawfulConfig(g) && Initial(s0) && Runs(g, s0, run)
    requires var s := After(g, s0, run);
             && s.phase.Serving? && Idle(s.mem) && CanLog(g, s, rows)
             && IsCommit(r) && r.lsn == RowsState(g, s, rows).nextLsn && ValidRecord(g.codec, r)
    requires forall i, j | 0 <= i < j < |ks| :: ks[i] != ks[j]
    requires forall k :: k in ks <==> k in SessionsOf(rows)
    ensures var s := After(g, s0, run);
            && Reaches(g, s, acts, s') && RecoveryDone(s')
            && s'.log == s'.promised == s.log + RecordsOf(rows) + [r]
            && forall c :: Look(s'.durable, c) == Look(Net(g, Committed(s'.log)), c) <==> OrderAgrees(g, rows, ks, c)
  {
    hide Runs, After, Reaches, Initial, Ready, CommittedLen, ValidRecord, Net, LawfulConfig, CanLog, RowsState,
         OrderAgrees, FlushedMemory;
    var s := After(g, s0, run);
    SettledState(g, s0, run);
    acts, s' := LogFlushCommit(g, s, rows, ks, r);
    CommittedWhole(s'.log);
    CommitAddsNothing(g, s.log + RecordsOf(rows), r);
    forall c ensures Look(s'.durable, c) == Look(Net(g, Committed(s'.log)), c) <==> OrderAgrees(g, rows, ks, c) {
      OrderDecides(g, s, rows, ks, c);
    }
  }

  /** Log the rows, flush the sessions, commit, crash and recover. */
  lemma LogFlushCommit(g: Config, s: State, rows: seq<Row>, ks: seq<string>, r: Record)
    returns (acts: seq<Action>, s': State)
    requires Ready(g, s) && Idle(s.mem) && Cached(s) && CanLog(g, s, rows)
    requires IsCommit(r) && r.lsn == RowsState(g, s, rows).nextLsn && ValidRecord(g.codec, r)
    requires forall i, j | 0 <= i < j < |ks| :: ks[i] != ks[j]
    requires forall k :: k in ks <==> k in SessionsOf(rows)
    ensures Reaches(g, s, acts, s') && RecoveryDone(s') && CommittedLen(s'.log) == |s'.log|
    ensures s'.log == s'.promised == s.log + RecordsOf(rows) + [r]
    ensures s'.durable == CacheAfter(s.mem.cache, RowsState(g, s, rows).mem.buffers, ks)
    ensures forall k :: Get(RowsState(g, s, rows).mem.buffers, k) == WrittenBy(g, rows, k)
  {
    hide Reaches, CommittedLen, ValidRecord, Net, LawfulConfig, CanLog, RowsState, Ready, FlushedMemory, CacheAfter,
         WrittenBy, SessionsOf;
    var front := LogRows(g, s, rows);
    var s1 := RowsState(g, s, rows);
    OnlyLoggedParts(g, s, rows, s1);
    var middle := FlushInOrder(g, s1, ks);
    var s2 := s1.(mem := FlushedMemory(s1.mem, ks));
    ReachesConcat(g, s, front, s1, middle, s2);
    CachedRun(g, s, front + middle, s2);
    ReadyMemory(g, s1, s2.mem);
    var back, s3 := CommitThenCrash(g, s2, r);
    ReachesConcat(g, s, front + middle, s2, back, s3);
    FlushedCache(s1.mem, ks);
    assert s2.durable + s2.mem.cache == s2.mem.cache;
    assert forall k :: Get(s.mem.buffers, k) + WrittenBy(g, rows, k) == WrittenBy(g, rows, k);
    return front + middle + back, s3;
  }

  lemma OrderDecides(g: Config, s: State, rows: seq<Row>, ks: seq<string>, c: Cell)
    requires s.mem.cache == Net(g, s.log)
    requires forall k :: Get(RowsState(g, s, rows).mem.buffers, k) == WrittenBy(g, rows, k)
    requires forall k :: k in ks <==> k in SessionsOf(rows)
    ensures Look(CacheAfter(s.mem.cache, RowsState(g, s, rows).mem.buffers, ks), c) ==
            Look(Net(g, s.log + RecordsOf(rows)), c)
            <==> OrderAgrees(g, rows, ks, c)
  {
    hide WrittenBy, Net, CacheAfter, RowsState, SessionsOf, LastWriter, LastFlusher, Get;
    LoggedLook(g, s.log, rows, c);
    FlushedLook(g, s.mem.cache, RowsState(g, s, rows).mem.buffers, rows, ks, c);
    var w, f := LastWriter(g, rows, c), LastFlusher(g, rows, ks, c);
    assert w.Some? ==> w.value in ks;
  }

  /** The smallest such run: A logs a cell, then B logs it, B flushes, then A flushes. The
      commit is acknowledged, and the recovered cell has A's value where the log has B's. */
  lemma LateFlushWins(g: Config, s0: State, ra: Record, rb: Record, r: Record, c: Cell)
    returns (acts: seq<Action>, s': State)
    requires LawfulConfig(g) && Initial(s0)
    requires IsRowKind(ra) && ValidRecord(g.codec, ra) && ra.lsn == 1
    requires IsRowKind(rb) && ValidRecord(g.codec, rb) && rb.lsn == 2
    requires IsCommit(r) && ValidRecord(g.codec, r) && r.lsn == 3
    requires c in g.writes(ra) && c in g.writes(rb) && g.writes(ra)[c] != g.writes(rb)[c]
    ensures Reaches(g, s0, acts, s') && RecoveryDone(s') && s'.log == s'.promised == [ra, rb, r]
    ensures Look(s'.durable, c) != Look(Net(g, Committed(s'.log)), c)
  {
    hide Reaches, CommittedLen, ValidRecord, Net, LawfulConfig, CanLog, RowsState, SessionsOf, RecordsOf, OrderAgrees;
    var rows, ks := [Row("A", ra), Row("B", rb)], ["B", "A"];
    RunsNothing(g, s0);
    TwoRows(g, s0, ra, rb);
    acts, s' := FlushOrderSafeIff(g, s0, [], rows, ks, r);
    TwoOrders(g, ra, rb, c);
    assert [] + [ra, rb] + [r] == [ra, rb, r];
  }

  lemma TwoRows(g: Config, s: State, ra: Record, rb: Record)
    requires s.mem.inflight == map[] && s.nextLsn == 1
    requires IsRowKind(ra) && ValidRecord(g.codec, ra) && ra.lsn == 1
    requires IsRowKind(rb) && ValidRecord(g.codec, rb) && rb.lsn == 2
    ensures var rows := [Row("A", ra), Row("B", rb)];
            && CanLog(g, s, rows) && RowsState(g, s, rows).nextLsn == 3
            && SessionsOf(rows) == {"A", "B"} && RecordsOf(rows) == [ra, rb]
  {
    hide ValidRecord;
    var one, rows := [Row("A", ra)], [Row("A", ra), Row("B", rb)];
    assert one[..0] == [] && rows[..1] == one;
    assert CanLog(g, s, one) && RowsState(g, s, one).nextLsn == 2;
    assert SessionsOf(one) == {"A"} && RecordsOf(one) == [ra];
  }

  lemma TwoOrders(g: Config, ra: Record, rb: Record, c: Cell)
    requires c in g.writes(ra) && c in g.writes(rb) && g.writes(ra)[c] != g.writes(rb)[c]
    ensures !OrderAgrees(g, [Row("A", ra), Row("B", rb)], ["B", "A"], c)
  {
    var one, rows := [Row("A", ra)], [Row("A", ra), Row("B", rb)];
    assert one[..0] == [] && rows[..1] == one;
    assert WrittenBy(g, one, "A") == map[] + g.writes(ra);
    assert WrittenBy(g, rows, "A") == WrittenBy(g, one, "A") + map[];
    assert WrittenBy(g, rows, "B") == WrittenBy(g, one, "B") + g.writes(rb);
  }

  // ----- A flush that fails -----

  /** The writes of a session's row that is logged and not yet applied. */
  function InFlight(g: Config, m: Memory, session: string): Store {
    if session in m.inflight then g.writes(m.inflight[session]) else map[]
  }

  /** In every serving state of every guarded run: if a session's flush fails after
      delivering `part`, a commit still succeeds. After a crash and a recovery storage is
      what the committed log describes exactly if every cell that was not delivered, and is
      not written again by the session's row under way, had its value before, and no
      session holds anything else that the commit would miss. */
  lemma FailedFlushSafeIff(g: Config, s0: State, run: seq<Action>, session: string, part: set<Cell>, r: Record)
    returns (acts: seq<Action>, s': State)
    requires LawfulConfig(g) && Initial(s0) && Runs(g, s0, run)
    requires var s := After(g, s0, run);
             && s.phase.Serving? && session in s.mem.buffers
             && IsCommit(r) && r.lsn == s.nextLsn && ValidRecord(g.codec, r)
    ensures var s := After(g, s0, run);
            && Reaches(g, s, acts, s') && RecoveryDone(s') && s'.log == s'.promised == s.log + [r]
            && (s'.durable == Net(g, Committed(s'.log)) <==>
                && UndeliveredWasThere(g, s.mem, session, part)
                && NothingToFlush(g, DropSession(s.mem, session, part)))
  {
    hide Runs, After, Reaches, Initial, Ready, Covers, CommittedLen, ValidRecord, Net, LawfulConfig, Inv,
         UndeliveredWasThere, NothingToFlush;
    var s := After(g, s0, run);
    InitialInv(g, s0);
    RunInv(g, s0, run);
    ServingReady(g, s);
    InitialCached(s0);
    RunReaches(g, s0, run);
    CachedRun(g, s0, run, s);
    var a := FlushFails(session, part);
    ReachesOne(g, s, a);
    var s1 := Step(g, s, a);
    CachedStep(g, s, a);
    ReadyMemory(g, s, s1.mem);
    var back, s2 := CommitThenCrash(g, s1, r);
    ReachesConcat(g, s, [a], s1, back, s2);
    assert s1.durable + s1.mem.cache == s1.mem.cache;
    CommittedWhole(s2.log);
    CommitAddsNothing(g, s.log, r);
    DroppedIff(g, s.mem, session, part, Net(g, s.log));
    return [a] + back, s2;
  }

  /** The cells that the failed flush took away had their values in the cache. */
  ghost predicate UndeliveredWasThere(g: Config, m: Memory, session: string, part: set<Cell>)
    requires session in m.buffers
  {
    forall c | c in m.buffers[session] && c !in part && c !in InFlight(g, m, session) ::
      Look(m.cache, c) == Some(m.buffers[session][c])
  }

  /** What sessions hold, and what the cache has, after the failed flush. */
  lemma HeldDropped(g: Config, m: Memory, session: string, part: set<Cell>)
    requires session in m.buffers
    ensures var m' := DropSession(m, session, part);
            && (forall k :: Held(g, m', k) == if k == session then InFlight(g, m, session) else Held(g, m, k))
            && Held(g, m, session) == m.buffers[session] + InFlight(g, m, session)
            && (forall c :: Look(m'.cache, c) == if c in m.buffers[session] && c in part
                                                 then Some(m.buffers[session][c]) else Look(m.cache, c))
  {
    var m' := DropSession(m, session, part);
    assert Held(g, m', session) == map[] + InFlight(g, m, session);
    assert map[] + InFlight(g, m, session) == InFlight(g, m, session);
  }

  lemma DroppedIff(g: Config, m: Memory, session: string, part: set<Cell>, goal: Store)
    requires Covers(g, false, m, map[], goal) && session in m.buffers
    ensures DropSession(m, session, part).cache == goal <==>
            UndeliveredWasThere(g, m, session, part) && NothingToFlush(g, DropSession(m, session, part))
  {
    var m' := DropSession(m, session, part);
    HeldDropped(g, m, session, part);
    hide Held, DropSession, InFlight;
    StoresAgree(m'.cache, goal);
    if m'.cache == goal {
      forall c | c in m.buffers[session] && c !in part && c !in InFlight(g, m, session)
        ensures Look(m.cache, c) == Some(m.buffers[session][c])
      {
        assert c in Held(g, m, session);
      }
      forall k, c | c in Held(g, m', k) ensures Look(m'.cache, c) == Some(Held(g, m', k)[c]) {
        assert c in Held(g, m, k);
      }
    } else {
      var c :| Look(m'.cache, c) != Look(goal, c);
      if UndeliveredWasThere(g, m, session, part) && NothingToFlush(g, m') {
        DroppedCell(g, m, session, part, goal, c);
      }
    }
  }

  lemma DroppedCell(g: Config, m: Memory, session: string, part: set<Cell>, goal: Store, c: Cell)
    requires Covers(g, false, m, map[], goal) && session in m.buffers
    requires UndeliveredWasThere(g, m, session, part) && NothingToFlush(g, DropSession(m, session, part))
    ensures Look(DropSession(m, session, part).cache, c) == Look(goal, c)
  {
    var m' := DropSession(m, session, part);
    HeldDropped(g, m, session, part);
    hide Held, DropSession, InFlight;
    if !Free(g, m, c) {
      var k :| c in Held(g, m, k);
      if k != session {
        assert c in Held(g, m', k);
      } else if c in InFlight(g, m, session) {
        assert c in Held(g, m', session);
      }
    } else {
      assert c !in Held(g, m, session);
    }
  }

  // ----- An append that fails -----

  /** The log can no longer be read, and the process has not noticed, or is down. */
  ghost predicate Lost(g: Config, s: State) {
    match s.phase
    case Appending(_, r, base, k) =>
      Broken(g.codec, base) && k <= |Frame(g.codec, r)| && s.file == base + Frame(g.codec, r)[..k]
    case _ => (Up(s.phase) || s.phase.Down?) && Broken(g.codec, s.file)
  }

  /** Such a process never comes back once it is down. */
  lemma LostStep(g: Config, s: State, a: Action)
    requires Lost(g, s) && Possible(g, s, a)
    ensures Lost(g, Step(g, s, a)) && !s.phase.Down?
  {
    hide ReadOf, Holds, ValidRecord, ReplayPart, PendingPart, NextLsn, Advance, CheckpointedCount, Broken, Readable,
         Frame;
    forall f, g0: seq<byte> | Broken(g.codec, f) ensures Broken(g.codec, f + g0) && !Readable(g.codec, f + g0) {
      BrokenStays(g.codec, f, g0);
    }
    assert s.file + [] == s.file;
  }

  lemma {:induction false} LostForGood(g: Config, s: State, acts: seq<Action>, s': State)
    requires Lost(g, s) && Reaches(g, s, acts, s')
    ensures Lost(g, s') && !Possible(g, s', Reopen)
    decreases |acts|
  {
    hide Step, Lost;
    if acts == [] {
      if Possible(g, s', Reopen) {
        LostStep(g, s', Reopen);
      }
    } else {
      LostStep(g, s, acts[0]);
      LostForGood(g, Step(g, s, acts[0]), acts[1..], s');
    }
  }

  /** An append of this record that was refused after `k` bytes. */
  ghost function Refused(g: Config, s: State, r: Record, k: nat): State
    requires k <= |Frame(g.codec, r)|
  {
    s.(file := s.file + Frame(g.codec, r)[..k], log := if k == |Frame(g.codec, r)| then s.log + [r] else s.log)
  }

  predicate BeginsAppend(a: Action) {
    a.BeginAppend? || a.BeginCommit?
  }

  lemma RefusedRun(g: Config, s: State, a: Action, k: nat) returns (acts: seq<Action>)
    requires s.phase.Serving? && BeginsAppend(a) && Possible(g, s, a) && k <= |Frame(g.codec, a.record)|
    ensures Reaches(g, s, acts, Refused(g, s, a.record, k))
  {
    hide Reaches, ValidRecord;
    ReachesOne(g, s, a);
    var s1 := Step(g, s, a);
    acts := [a];
    if k > 0 {
      ReachesThen(g, s, acts, s1, WriteTo(k));
      acts, s1 := acts + [WriteTo(k)], Step(g, s1, WriteTo(k));
    } else {
      assert s.file + Frame(g.codec, a.record)[..0] == s.file;
      FrameNotEmpty(g.codec, a.record);
    }
    ReachesThen(g, s, acts, s1, AppendFails);
    acts := acts + [AppendFails];
  }

  lemma FrameNotEmpty(c: Codec, r: Record)
    ensures |Frame(c, r)| > 0
  {
  }

  /** One more append, acknowledged. */
  lemma AcknowledgedRun(g: Config, s: State, a: Action) returns (acts: seq<Action>, s': State)
    requires s.phase.Serving? && BeginsAppend(a) && Possible(g, s, a)
    ensures Reaches(g, s, acts, s') && s'.file == s.file + Frame(g.codec, a.record) && s'.log == s.log + [a.record]
    ensures (s'.phase.Serving? || s'.phase.Persisting?) && s'.checkpoint == s.checkpoint
  {
    hide Reaches, ValidRecord;
    if a.BeginCommit? {
      acts := AppendCommit(g, s, a.record);
      return acts, Logged(g, s, a.record).(phase := Persisting);
    }
    acts := AppendRow(g, s, a.session, a.record);
    return acts, Logged(g, s, a.record).(mem := s.mem.(inflight := s.mem.inflight[a.session := a.record]));
  }

  /** In every serving state of every guarded run an append, of a row or of a commit, may be
      refused after any number of bytes, and the code goes on. Once one more append is
      acknowledged, the log reopens after a crash exactly if the refused one left no byte.
      Otherwise no steps of the code at all lead to a process that could reopen it. */
  lemma FailedAppendSafeIff(g: Config, s0: State, run: seq<Action>, a: Action, k: nat, b: Action)
    returns (acts: seq<Action>, s': State)
    requires LawfulConfig(g) && LinesDoNotMerge(g.codec) && Initial(s0) && Runs(g, s0, run)
    requires var s := After(g, s0, run);
             && s.phase.Serving? && BeginsAppend(a) && BeginsAppend(b) && Possible(g, s, a) && Possible(g, s, b)
             && k <= |Frame(g.codec, a.record)|
    ensures var s := After(g, s0, run);
            && Reaches(g, s, acts, s')
            && s'.file == s.file + Frame(g.codec, a.record)[..k] + Frame(g.codec, b.record)
            && Possible(g, s', Crash(0)) && (Possible(g, Step(g, s', Crash(0)), Reopen) <==> k == 0)
            && (k > 0 ==> forall more, s'' | Reaches(g, s', more, s'') :: !Possible(g, s'', Reopen))
  {
    hide Runs, After, Reaches, Initial, LawfulConfig, Inv, Ready, Covers, Readable, ReadOf, Broken, ValidRecord, Lost;
    var s := After(g, s0, run);
    InitialInv(g, s0);
    RunInv(g, s0, run);
    ServingReady(g, s);
    var front := RefusedRun(g, s, a, k);
    var s1 := Refused(g, s, a.record, k);
    var back: seq<Action>;
    back, s' := AcknowledgedRun(g, s1, b);
    ReachesConcat(g, s, front, s1, back, s');
    acts := front + back;
    GoesOnIff(g, s, a.record, k, b.record, s');
  }

  lemma GoesOnIff(g: Config, s: State, r: Record, k: nat, r': Record, s': State)
    requires LinesDoNotMerge(g.codec) && Ready(g, s) && k <= |Frame(g.codec, r)|
    requires ValidRecord(g.codec, r) && ValidRecord(g.codec, r') && r.lsn == r'.lsn == s.nextLsn
    requires s'.file == s.file + Frame(g.codec, r)[..k] + Frame(g.codec, r') && s'.checkpoint == s.checkpoint
    requires s'.phase.Serving? || s'.phase.Persisting?
    ensures Possible(g, Step(g, s', Crash(0)), Reopen) <==> k == 0
    ensures k > 0 ==> forall more, s'' | Reaches(g, s', more, s'') :: !Possible(g, s'', Reopen)
  {
    hide Reaches, Ready, Readable, ReadOf, Broken, ValidRecord, Lost, Frame;
    ReadyLog(g, s);
    AppendAfterFailure(g.codec, s.file, s.log, r, k, r');
    if k == 0 {
      assert s.file + Frame(g.codec, r)[..0] == s.file;
      ReopensAfter(g, s, r');
    } else {
      LostHere(g, s');
      forall more, s'' | Reaches(g, s', more, s'') ensures !Possible(g, s'', Reopen) {
        LostForGood(g, s', more, s'');
      }
      LostStep(g, s', Crash(0));
      ReachesNothing(g, Step(g, s', Crash(0)));
      LostForGood(g, Step(g, s', Crash(0)), [], Step(g, s', Crash(0)));
    }
  }

  lemma ReadyLog(g: Config, s: State)
    requires Ready(g, s)
    ensures Lawful(g.codec) && Holds(g.codec, s.file, s.log) && s.nextLsn == NextLsn(s.log)
  {
  }

  lemma ReopensAfter(g: Config, s: State, r: Record)
    requires Ready(g, s) && ValidRecord(g.codec, r) && r.lsn == s.nextLsn
    ensures var f := s.file + Frame(g.codec, r);
            Readable(g.codec, f) && CheckpointLsn(s.checkpoint) <= LastLsn(ReadOf(g.codec, f).records)
  {
    hide ValidRecord, LawfulConfig, NextLsn;
    LoggedReady(g, s, r);
    HoldsIncreasing(g.codec, s.file + Frame(g.codec, r), s.log + [r]);
  }

  lemma LostHere(g: Config, s: State)
    requires (s.phase.Serving? || s.phase.Persisting?) && Broken(g.codec, s.file)
    ensures Lost(g, s)
  {
  }

  // ----- A pending tail -----

  lemma BlockedParts(g: Config, s: State)
    requires Inv(g, s) && s.phase.Blocked?
    ensures s.log == Committed(s.log) + s.pending && s.mem == Memory(s.durable, map[], map[])
    ensures s.durable == Net(g, Committed(s.log)) && Ready(g, s.(pending := [], phase := Serving))
  {
    hide Holds, NextLsn, Repairable, LawfulConfig, Net, CommittedLen, CheckpointedCount, ReplayPart, PendingPart,
         CutInv, Committed;
    HoldsIncreasing(g.codec, s.file, s.log);
    PlanParts(s.log, s.cut, s.checkpoint, s.promised);
    CommittedRest(s.log);
  }

  lemma CommittedRest(log: seq<Record>)
    ensures log == Committed(log) + log[CommittedLen(log)..]
  {
    hide CommittedLen;
  }

  /** What becomes of a cell when these rows are logged behind a pending tail that was never
      applied: if they write it, their flush order must agree with their log order on it;
      if only the tail does, storage must have had the tail's value. */
  ghost predicate TailHarmless(g: Config, durable: Store, pending: seq<Record>, rows: seq<Row>, ks: seq<string>,
                               c: Cell) {
    if LastWriter(g, rows, c).Some? then OrderAgrees(g, rows, ks, c)
    else c in Net(g, pending) ==> Look(durable, c) == Look(Net(g, pending), c)
  }

  /** In every state of every guarded run where recovery has found a pending tail: the
      code leaves the tail in the log and goes on. Any rows may then be logged by any
      sessions, and these flushed in any order. After a commit, a crash and a recovery the
      checkpoint covers the tail although it was never applied, and a cell is what the
      committed log says exactly if the tail is harmless to it. */
  lemma PendingTailSafeIff(g: Config, s0: State, run: seq<Action>, rows: seq<Row>, ks: seq<string>, r: Record)
    returns (acts: seq<Action>, s': State)
    requires LawfulConfig(g) && Initial(s0) && Runs(g, s0, run) && After(g, s0, run).phase.Blocked?
    requires var s := After(g, s0, run).(pending := [], phase := Serving);
             && CanLog(g, s, rows)
             && IsCommit(r) && r.lsn == RowsState(g, s, rows).nextLsn && ValidRecord(g.codec, r)
    requires forall i, j | 0 <= i < j < |ks| :: ks[i] != ks[j]
    requires forall k :: k in ks <==> k in SessionsOf(rows)
    ensures var s := After(g, s0, run);
            && Reaches(g, s, acts, s') && RecoveryDone(s')
            && s'.log == s'.promised == s.log + RecordsOf(rows) + [r]
            && forall c :: Look(s'.durable, c) == Look(Net(g, Committed(s'.log)), c)
                           <==> TailHarmless(g, s.durable, s.pending, rows, ks, c)
  {
    hide Runs, After, Reaches, Initial, Ready, CommittedLen, ValidRecord, Net, LawfulConfig, Inv, CanLog, RowsState,
         TailHarmless, SessionsOf, RecordsOf, CacheAfter, WrittenBy, Get;
    var s := After(g, s0, run);
    InitialInv(g, s0);
    RunInv(g, s0, run);
    BlockedParts(g, s);
    ReachesOne(g, s, KeepPending);
    var s1 := s.(pending := [], phase := Serving);
    var back: seq<Action>;
    back, s' := LogFlushCommit(g, s1, rows, ks, r);
    ReachesConcat(g, s, [KeepPending], s1, back, s');
    acts := [KeepPending] + back;
    CommittedWhole(s'.log);
    CommitAddsNothing(g, s.log + RecordsOf(rows), r);
    forall c ensures Look(s'.durable, c) == Look(Net(g, Committed(s'.log)), c)
                     <==> TailHarmless(g, s.durable, s.pending, rows, ks, c) {
      TailDecides(g, s1, s.pending, rows, ks, c);
    }
  }

  lemma TailDecides(g: Config, s: State, pending: seq<Record>, rows: seq<Row>, ks: seq<string>, c: Cell)
    requires s.mem.cache == s.durable == Net(g, Committed(s.log)) && s.log == Committed(s.log) + pending
    requires forall k :: Get(RowsState(g, s, rows).mem.buffers, k) == WrittenBy(g, rows, k)
    requires forall k :: k in ks <==> k in SessionsOf(rows)
    ensures Look(CacheAfter(s.mem.cache, RowsState(g, s, rows).mem.buffers, ks), c) ==
            Look(Net(g, s.log + RecordsOf(rows)), c)
            <==> TailHarmless(g, s.durable, pending, rows, ks, c)
  {
    hide WrittenBy, Net, CacheAfter, RowsState, SessionsOf, LastWriter, LastFlusher, Get, Committed;
    LoggedLook(g, s.log, rows, c);
    FlushedLook(g, s.mem.cache, RowsState(g, s, rows).mem.buffers, rows, ks, c);
    NetConcat(g, Committed(s.log), pending);
    var w, f := LastWriter(g, rows, c), LastFlusher(g, rows, ks, c);
    assert w.Some? ==> w.value in ks;
  }

  /** Such a state is reached: log a row, crash before any commit, reopen, and finish the
      recovery. Committing then loses the row for good, although it was acknowledged and
      stands before the commit in the log. */
  lemma PendingRowIsLost(g: Config, s0: State, session: string, put: Record, r: Record, cell: Cell)
    returns (acts: seq<Action>, s': State)
    requires LawfulConfig(g) && Initial(s0) && cell in g.writes(put)
    requires IsRowKind(put) && put.lsn == 1 && ValidRecord(g.codec, put)
    requires IsCommit(r) && r.lsn == 2 && ValidRecord(g.codec, r)
    ensures Reaches(g, s0, acts, s') && RecoveryDone(s') && s'.promised == s'.log == [put, r]
    ensures cell in Net(g, Committed(s'.log)) && cell !in s'.durable
  {
    hide Reaches, Ready, CommittedLen, ValidRecord, Net, LawfulConfig, CheckpointedCount;
    InitialReady(g, s0);
    LoggedReady(g, s0, put);
    var front := LogRow(g, s0, session, put);
    var s1 := Logged(g, s0, put).(mem := ApplyRow(s0.mem, session, g.writes(put)));
    ReadyMemory(g, Logged(g, s0, put), s1.mem);
    var middle, s2 := CrashWithTail(g, s1, put);
    ReachesConcat(g, s0, front, s1, middle, s2);
    var back, s3 := CommitThenCrash(g, s2, r);
    ReachesConcat(g, s0, front + middle, s2, back, s3);
    CommittedWhole(s3.log);
    CommitAddsNothing(g, [put], r);
    NetOne(g, put);
    assert [] + [put] == [put] && [put] + [r] == [put, r];
    return front + middle + back, s3;
  }

  /** Crash, reopen, finish with the row pending, and go on. */
  lemma CrashWithTail(g: Config, s: State, put: Record) returns (acts: seq<Action>, s': State)
    requires Ready(g, s) && s.log == [put] && IsRowKind(put) && s.checkpoint == None && s.durable == map[]
    ensures Reaches(g, s, acts, s') && Ready(g, s') && s'.log == s.log && s'.nextLsn == s.nextLsn
    ensures s'.durable == map[] && s'.mem.cache == map[]
  {
    hide Reaches, LawfulConfig, Holds, Readable, ReadOf, ReplayPart, PendingPart, NextLsn, Frame, ValidRecord,
         CheckpointedCount;
    HoldsIncreasing(g.codec, s.file, s.log);
    TruncateThenRead(g.codec, s.file);
    KeptWhole(g.codec, s.file, s.log);
    TailParts(put);
    var a, b := Crash(0), Reopen;
    ReachesOne(g, s, a);
    var s1 := Step(g, s, a);
    ReachesThen(g, s, [a], s1, b);
    var s2 := Step(g, s1, b);
    assert s2 == s1.(plan := [], pending := [put], phase := Replaying(0));
    ReachesThen(g, s, [a] + [b], s2, FinishRecovery);
    var s3 := Step(g, s2, FinishRecovery);
    ReachesThen(g, s, [a] + [b] + [FinishRecovery], s3, KeepPending);
    return [a] + [b] + [FinishRecovery] + [KeepPending], Step(g, s3, KeepPending);
  }

  lemma TailParts(put: Record)
    requires IsRowKind(put)
    ensures put.lsn > 0 ==> ReplayPart([put], 0) == [] && PendingPart([put], 0) == [put]
  {
    assert [put][..0] == [];
    assert CommittedLen([put]) == 0;
  }
}
