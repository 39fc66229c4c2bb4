/** Crash recovery as a step machine. Sessions log, apply and flush row writes;
    a commit appends its record, persists the backend's cache and moves the
    checkpoint; a crash may come between any two steps, inside a frame write or
    inside a storage commit; recovery reads the file, plans and replays, and may
    itself be cut short (core/local_wal.go, core/session_wal.go, core/session.go).

    `Possible` says which steps the code can take, `Guarded` what the recovery theorem
    asks of them: every logged write is flushed before a commit begins; while a session
    holds a cell no other session logs it; a flush succeeds; a pending tail is cleared
    before new writes are accepted; an append that fails has written nothing. A logged row
    applies. */
module WalRecovery {
  import opened Prelude
  import opened WalFormat
  import opened LocalWal

  /** One stored value: a field of a row of a table. */
  datatype Cell = Cell(table: string, row: nat, field: string)

  type Store = map<Cell, int>

  datatype Config = Config(
    codec: Codec,
    /** The cells a logged row writes. It is a function of the record alone: a
        put in verify-existing mode and an update by column ID write the same
        cells again when they are replayed. */
    writes: Record -> Store)

  ghost predicate LawfulConfig(g: Config) {
    && Lawful(g.codec)
    && (forall r :: IsCommit(r) ==> g.writes(r) == map[])
    && (forall r, c :: c in g.writes(r) ==> c.table == r.table)
  }

  // ----- Folding a log -----

  /** The storage a log describes: its writes, later ones over earlier ones. */
  function Net(g: Config, rs: seq<Record>): (m: Store)
  {
    if rs == [] then map[] else Net(g, rs[..|rs| - 1]) + g.writes(rs[|rs| - 1])
  }

  lemma {:induction false} NetConcat(g: Config, a: seq<Record>, b: seq<Record>)
    ensures Net(g, a + b) == Net(g, a) + Net(g, b)
    decreases |b|
  {
    if b == [] {
      assert a + b == a;
    } else {
      assert (a + b)[..|a + b| - 1] == a + b[..|b| - 1];
      NetConcat(g, a, b[..|b| - 1]);
      OverrideAssociative(Net(g, a), Net(g, b[..|b| - 1]), g.writes(b[|b| - 1]));
    }
  }

  lemma NetOne(g: Config, r: Record)
    ensures Net(g, [r]) == g.writes(r)
  {
    assert [r][..0] == [];
  }

  /** The length of the log up to and including its last commit. */
  function CommittedLen(rs: seq<Record>): (n: nat)
    ensures n <= |rs|
    ensures n > 0 ==> IsCommit(rs[n - 1])
    ensures forall i | n <= i < |rs| :: !IsCommit(rs[i])
  {
    if rs == [] then 0
    else if IsCommit(rs[|rs| - 1]) then |rs|
    else CommittedLen(rs[..|rs| - 1])
  }

  function Committed(rs: seq<Record>): (c: seq<Record>) {
    rs[..CommittedLen(rs)]
  }

  lemma CommittedAppend(rs: seq<Record>, r: Record)
    ensures CommittedLen(rs + [r]) == if IsCommit(r) then |rs| + 1 else CommittedLen(rs)
  {
    assert (rs + [r])[..|rs|] == rs;
  }

  /** Storage from which replaying the committed records after the first `cut`
      gives exactly what the committed log describes. */
  ghost predicate Repairable(g: Config, durable: Store, log: seq<Record>, cut: nat) {
    && cut <= CommittedLen(log)
    && durable + Net(g, log[cut..CommittedLen(log)]) == Net(g, Committed(log))
  }

  lemma RepairableGrows(g: Config, durable: Store, log: seq<Record>, cut: nat, r: Record)
    requires LawfulConfig(g) && Repairable(g, durable, log, cut)
    ensures Repairable(g, durable, log + [r], cut)
  {
    hide CommittedLen, Net;
    CommittedAppend(log, r);
    var n := CommittedLen(log);
    var log' := log + [r];
    if IsCommit(r) {
      assert log'[cut..|log'|] == log[cut..n] + log'[n..];
      assert log'[..|log'|] == log[..n] + log'[n..];
      NetConcat(g, log[cut..n], log'[n..]);
      NetConcat(g, log[..n], log'[n..]);
      OverrideAssociative(durable, Net(g, log[cut..n]), Net(g, log'[n..]));
    } else {
      assert log'[cut..n] == log[cut..n];
      assert log'[..n] == log[..n];
    }
  }

  // ----- State -----

  datatype Phase =
    | Serving
    /** Part of a frame is written; `session` is None for a commit record. */
    | Appending(session: Option<string>, record: Record, base: seq<byte>, written: nat)
    | Persisting
    | Checkpointing
    | Down
    | Replaying(next: nat)
    | ReplayPersisting(next: nat)
    | ReplayCheckpointing(next: nat)
    | Blocked

  /** What the processes hold in memory: the backend's cache, a batch buffer for
      each session, and rows that are logged but not yet in a buffer. */
  datatype Memory = Memory(cache: Store, buffers: map<string, Store>, inflight: map<string, Record>)

  datatype State = State(
    // What survives a crash.
    file: seq<byte>,
    checkpoint: Option<u64>,
    durable: Store,
    // The processes.
    mem: Memory,
    nextLsn: u64,
    plan: seq<Record>,
    pending: seq<Record>,
    phase: Phase,
    // History: the records of the file, how many of them the checkpoint covers,
    // and the log as it was when the last commit was acknowledged.
    log: seq<Record>,
    cut: nat,
    promised: seq<Record>)

  ghost predicate Initial(s: State) {
    && s.file == [] && s.checkpoint == None && s.durable == map[]
    && s.mem == Memory(map[], map[], map[])
    && s.nextLsn == 1 && s.plan == [] && s.pending == []
    && s.phase == Serving && s.log == [] && s.cut == 0 && s.promised == []
  }

  datatype Action =
    | BeginAppend(session: string, record: Record)
    | BeginCommit(record: Record)
    | WriteTo(written: nat)
    | Acknowledge
    | AppendFails
    | Apply(session: string)
    | Flush(session: string)
    | FlushFails(session: string, part: set<Cell>)
    | PersistCell(cell: Cell)
    | PersistDone
    | CommitFailed
    | WriteCheckpoint
    | CheckpointFailed
    | Crash(lost: nat)
    | Reopen
    | ReplayRow
    | ReplayCommit
    | FinishRecovery
    | DiscardPending(keep: nat)
    | KeepPending

  function Get(m: map<string, Store>, k: string): (v: Store) {
    if k in m then m[k] else map[]
  }

  /** What a session holds: its buffered writes and, over them, those of a row that is
      logged and not yet applied. */
  function Held(g: Config, m: Memory, k: string): (h: Store) {
    Get(m.buffers, k) + if k in m.inflight then g.writes(m.inflight[k]) else map[]
  }

  /** No other session holds a cell of these. */
  ghost predicate Exclusive(g: Config, m: Memory, session: string, w: Store) {
    forall k, c | k != session && c in Held(g, m, k) :: c !in w
  }

  /** Nothing logged is still on its way to the backend. */
  predicate Idle(m: Memory) {
    m.inflight == map[] && forall k | k in m.buffers :: m.buffers[k] == map[]
  }

  function ApplyRow(m: Memory, session: string, w: Store): (m': Memory) {
    m.(buffers := m.buffers[session := Get(m.buffers, session) + w])
  }

  function FlushSession(m: Memory, session: string): (m': Memory)
    requires session in m.buffers
  {
    m.(cache := m.cache + m.buffers[session], buffers := m.buffers[session := map[]])
  }

  /** A flush that fails: the buffer was replaced before it was sent, so what was not
      delivered is gone (core/session.go). */
  function DropSession(m: Memory, session: string, part: set<Cell>): (m': Memory)
    requires session in m.buffers
  {
    m.(cache := m.cache + (map c | c in m.buffers[session] && c in part :: m.buffers[session][c]),
       buffers := m.buffers[session := map[]])
  }

  predicate IsRowKind(r: Record) {
    r.kind == KIND_PUT_ROW || r.kind == KIND_UPDATE_ROW
  }

  /** The number of records at or below the checkpoint. */
  function CheckpointedCount(rs: seq<Record>, lsn: u64): (n: nat)
    ensures n <= |rs|
  {
    if rs == [] || lsn < rs[0].lsn then 0 else 1 + CheckpointedCount(rs[1..], lsn)
  }

  function ReplayPart(rs: seq<Record>, lsn: u64): (p: seq<Record>) {
    var n := CheckpointedCount(rs, lsn);
    if CommittedLen(rs) <= n then [] else rs[n..CommittedLen(rs)]
  }

  function PendingPart(rs: seq<Record>, lsn: u64): (p: seq<Record>) {
    var n := CheckpointedCount(rs, lsn);
    if CommittedLen(rs) <= n then rs[n..] else rs[CommittedLen(rs)..]
  }

  /** The checkpoint register only moves forward. */
  function Advance(checkpoint: Option<u64>, lsn: u64): (c: Option<u64>)
    ensures CheckpointLsn(checkpoint) <= CheckpointLsn(c)
  {
    if lsn <= CheckpointLsn(checkpoint) then checkpoint else Some(lsn)
  }

  predicate Up(p: Phase) {
    p.Serving? || p.Appending? || p.Persisting? || p.Checkpointing?
  }

  predicate AtReplayCommit(s: State) {
    s.phase.Replaying? && s.phase.next < |s.plan| && IsCommit(s.plan[s.phase.next])
  }

  /** The steps that the code can take, and an operator's clearing of a pending tail. */
  ghost predicate Possible(g: Config, s: State, a: Action) {
    match a
    case BeginAppend(session, r) =>
      && s.phase.Serving? && session !in s.mem.inflight
      && IsRowKind(r) && r.lsn == s.nextLsn && ValidRecord(g.codec, r)
    case BeginCommit(r) =>
      && s.phase.Serving?
      && IsCommit(r) && r.lsn == s.nextLsn && ValidRecord(g.codec, r)
    case WriteTo(k) =>
      s.phase.Appending? && s.phase.written < k <= |Frame(g.codec, s.phase.record)|
    case Acknowledge =>
      s.phase.Appending? && s.phase.written == |Frame(g.codec, s.phase.record)|
    case AppendFails => s.phase.Appending? && s.phase.written <= |Frame(g.codec, s.phase.record)|
    case Apply(session) => Up(s.phase) && session in s.mem.inflight
    case Flush(session) => (Up(s.phase) || AtReplayCommit(s)) && session in s.mem.buffers
    case FlushFails(session, _) => Up(s.phase) && session in s.mem.buffers
    case PersistCell(c) => (s.phase.Persisting? || s.phase.ReplayPersisting?) && c in s.mem.cache
    case PersistDone =>
      && (s.phase.Persisting? || s.phase.ReplayPersisting?)
      && forall c | c in s.mem.cache :: c in s.durable && s.durable[c] == s.mem.cache[c]
    case CommitFailed => s.phase.Persisting?
    case WriteCheckpoint =>
      || (s.phase.Checkpointing? && s.log != [])
      || (s.phase.ReplayCheckpointing? && s.phase.next < |s.plan|)
    case CheckpointFailed => s.phase.Checkpointing?
    case Crash(lost) =>
      && !s.phase.Down?
      && (if s.phase.Appending? then lost <= s.phase.written <= |Frame(g.codec, s.phase.record)| else lost == 0)
    case Reopen =>
      && s.phase.Down? && Readable(g.codec, s.file)
      && CheckpointLsn(s.checkpoint) <= LastLsn(ReadOf(g.codec, s.file).records)
    case ReplayRow => s.phase.Replaying? && s.phase.next < |s.plan| && IsRowKind(s.plan[s.phase.next])
    case ReplayCommit => AtReplayCommit(s) && Idle(s.mem)
    case FinishRecovery => s.phase.Replaying? && s.phase.next == |s.plan|
    case DiscardPending(keep) =>
      && s.phase.Blocked? && keep <= |s.file| && |s.pending| <= |s.log|
      && Holds(g.codec, s.file[..keep], s.log[..|s.log| - |s.pending|])
    case KeepPending => s.phase.Blocked?
  }

  /** What the recovery theorem asks of a step. */
  ghost predicate Guarded(g: Config, s: State, a: Action) {
    match a
    case BeginAppend(session, r) => Exclusive(g, s.mem, session, g.writes(r))
    case BeginCommit(_) => Idle(s.mem)
    case AppendFails => s.phase.Appending? && s.phase.written == 0
    case FlushFails(_, _) => false
    case KeepPending => false
    case _ => true
  }

  ghost predicate Enabled(g: Config, s: State, a: Action) {
    Possible(g, s, a) && Guarded(g, s, a)
  }

  ghost function Step(g: Config, s: State, a: Action): (s': State)
    requires Possible(g, s, a)
  {
    match a
    case BeginAppend(session, r) => s.(phase := Appending(Some(session), r, s.file, 0))
    case BeginCommit(r) => s.(phase := Appending(None, r, s.file, 0))
    case WriteTo(k) =>
      s.(file := s.phase.base + Frame(g.codec, s.phase.record)[..k], phase := s.phase.(written := k))
    case Acknowledge =>
      var r := s.phase.record;
      var s1 := s.(log := s.log + [r], nextLsn := (s.nextLsn + 1) % U64);
      if s.phase.session.Some? then
        s1.(mem := s.mem.(inflight := s.mem.inflight[s.phase.session.value := r]), phase := Serving)
      else s1.(phase := Persisting)
    case AppendFails =>
      s.(log := if s.phase.written == |Frame(g.codec, s.phase.record)| then s.log + [s.phase.record] else s.log,
         phase := Serving)
    case Apply(session) =>
      s.(mem := ApplyRow(s.mem, session, g.writes(s.mem.inflight[session])).(inflight := s.mem.inflight - {session}))
    case Flush(session) => s.(mem := FlushSession(s.mem, session))
    case FlushFails(session, part) => s.(mem := DropSession(s.mem, session, part))
    case PersistCell(c) => s.(durable := s.durable[c := s.mem.cache[c]])
    case PersistDone =>
      s.(phase := if s.phase.Persisting? then Checkpointing else ReplayCheckpointing(s.phase.next))
    case CommitFailed => s.(phase := Serving)
    case WriteCheckpoint =>
      if s.phase.Checkpointing? then
        s.(checkpoint := Advance(s.checkpoint, LastLsn(s.log)), cut := |s.log|, promised := s.log, phase := Serving)
      else
        var lsn := s.plan[s.phase.next].lsn;
        s.(checkpoint := Advance(s.checkpoint, lsn), cut := CheckpointedCount(s.log, lsn),
           mem := s.mem.(buffers := map[]), phase := Replaying(s.phase.next + 1))
    case CheckpointFailed => s.(phase := Serving)
    case Crash(lost) =>
      var s1 := s.(mem := Memory(s.durable, map[], map[]), plan := [], pending := [], phase := Down);
      if s.phase.Appending? then
        var frame, k := Frame(g.codec, s.phase.record), s.phase.written - lost;
        s1.(file := s.phase.base + frame[..k],
            log := if k == |frame| then s.log + [s.phase.record] else s.log)
      else s1
    case Reopen =>
      var read := ReadOf(g.codec, s.file);
      s.(file := s.file[..read.validBytes], nextLsn := NextLsn(read.records),
         plan := ReplayPart(read.records, CheckpointLsn(s.checkpoint)),
         pending := PendingPart(read.records, CheckpointLsn(s.checkpoint)),
         phase := Replaying(0))
    case ReplayRow =>
      var r := s.plan[s.phase.next];
      s.(mem := ApplyRow(s.mem, r.table, g.writes(r)), phase := Replaying(s.phase.next + 1))
    case ReplayCommit =>
      s.(phase := if s.mem.buffers == map[] then ReplayCheckpointing(s.phase.next) else ReplayPersisting(s.phase.next))
    case FinishRecovery => s.(phase := if s.pending == [] then Serving else Blocked)
    case DiscardPending(keep) =>
      var log := s.log[..|s.log| - |s.pending|];
      s.(file := s.file[..keep], log := log, nextLsn := NextLsn(log), pending := [], phase := Serving)
    case KeepPending => s.(pending := [], phase := Serving)
  }

  // ----- Invariant -----

  function Look(m: Store, c: Cell): (v: Option<int>) {
    if c in m then Some(m[c]) else None
  }

  /** No session holds the cell. */
  ghost predicate Free(g: Config, m: Memory, c: Cell) {
    forall k :: c !in Held(g, m, k)
  }

  /** Applying and flushing everything, in whatever order, and then writing `rest`, gives
      `goal`: what a session holds is what the goal says, no two sessions hold one cell,
      and the cache has the rest. During replay there is one session a table. */
  ghost predicate Covers(g: Config, replay: bool, m: Memory, rest: Store, goal: Store) {
    && (forall c | c in rest :: Look(goal, c) == Some(rest[c]))
    && HeldRight(g, m, rest, goal) && FreeRight(g, m, rest, goal)
    && Apart(g, m) && (replay ==> ByTable(g, m))
  }

  ghost predicate HeldRight(g: Config, m: Memory, rest: Store, goal: Store) {
    forall k, c | c in Held(g, m, k) && c !in rest :: Look(goal, c) == Some(Held(g, m, k)[c])
  }

  ghost predicate FreeRight(g: Config, m: Memory, rest: Store, goal: Store) {
    forall c | c !in rest && Free(g, m, c) :: Look(m.cache, c) == Look(goal, c)
  }

  ghost predicate Apart(g: Config, m: Memory) {
    forall k, k', c | c in Held(g, m, k) && c in Held(g, m, k') :: k == k'
  }

  ghost predicate ByTable(g: Config, m: Memory) {
    forall k, c | c in Held(g, m, k) :: c.table == k
  }

  ghost predicate DiskInv(g: Config, file: seq<byte>, nextLsn: u64, log: seq<Record>, phase: Phase) {
    match phase
    case Appending(session, r, base, k) =>
      && ValidRecord(g.codec, r) && r.lsn == nextLsn == NextLsn(log)
      && k <= |Frame(g.codec, r)|
      && file == base + Frame(g.codec, r)[..k]
      && Holds(g.codec, base, log)
    case Down => Readable(g.codec, file) && ReadOf(g.codec, file).records == log
    case _ => Holds(g.codec, file, log) && nextLsn == NextLsn(log)
  }

  ghost predicate CutInv(log: seq<Record>, cut: nat, checkpoint: Option<u64>, promised: seq<Record>) {
    && cut <= CommittedLen(log)
    && (if cut == 0 then CheckpointLsn(checkpoint) == 0
        else IsCommit(log[cut - 1]) && CheckpointLsn(checkpoint) == log[cut - 1].lsn)
    && promised <= Committed(log)
    && (forall r | r in log :: IsRowKind(r) || IsCommit(r))
  }

  /** The plan is the committed part of the log after the checkpoint it was made
      at, the pending part is what follows, and `cut` is behind the last commit
      among the first `i` records of the plan. */
  ghost predicate PlanInv(log: seq<Record>, plan: seq<Record>, pending: seq<Record>, cut: nat, i: nat) {
    var n := CommittedLen(log);
    && i <= |plan| <= n
    && plan == log[n - |plan|..n]
    && pending == log[n..]
    && n - |plan| <= cut <= n - |plan| + i
    && (forall j | cut <= j < n - |plan| + i :: !IsCommit(log[j]))
  }

  ghost predicate VolatileInv(g: Config, s: State) {
    match s.phase
    case Serving => Covers(g, false, s.mem, map[], Net(g, s.log))
    case Appending(session, r, base, k) =>
      && Covers(g, false, s.mem, map[], Net(g, s.log))
      && (if session.Some? then
            && IsRowKind(r) && session.value !in s.mem.inflight
            && Exclusive(g, s.mem, session.value, g.writes(r))
          else IsCommit(r) && Idle(s.mem))
    case Persisting => Idle(s.mem) && s.mem.cache == Net(g, s.log) && CommittedLen(s.log) == |s.log| > 0
    case Checkpointing =>
      && Idle(s.mem) && s.mem.cache == Net(g, s.log) && CommittedLen(s.log) == |s.log| > 0
      && s.durable == s.mem.cache
    case Down => s.mem == Memory(s.durable, map[], map[])
    case Replaying(i) =>
      && PlanInv(s.log, s.plan, s.pending, s.cut, i)
      && Covers(g, true, s.mem, Net(g, s.plan[i..]), Net(g, Committed(s.log)))
      && s.mem.inflight == map[]
      && s.durable.Keys <= s.mem.cache.Keys
      && (s.mem.buffers == map[] ==> s.mem.cache == s.durable)
      && (s.cut == CommittedLen(s.log) - |s.plan| + i ==> s.mem.buffers == map[])
    case ReplayPersisting(i) =>
      && PlanInv(s.log, s.plan, s.pending, s.cut, i) && i < |s.plan| && IsCommit(s.plan[i])
      && Idle(s.mem) && s.mem.cache + Net(g, s.plan[i..]) == Net(g, Committed(s.log))
      && s.durable.Keys <= s.mem.cache.Keys
    case ReplayCheckpointing(i) =>
      && PlanInv(s.log, s.plan, s.pending, s.cut, i) && i < |s.plan| && IsCommit(s.plan[i])
      && Idle(s.mem) && s.mem.cache + Net(g, s.plan[i..]) == Net(g, Committed(s.log))
      && s.durable == s.mem.cache
    case Blocked =>
      && s.pending == s.log[CommittedLen(s.log)..]
      && s.mem == Memory(s.durable, map[], map[])
      && s.cut == CommittedLen(s.log)
      && s.durable == Net(g, Committed(s.log))
  }

  ghost predicate Inv(g: Config, s: State) {
    && LawfulConfig(g)
    && DiskInv(g, s.file, s.nextLsn, s.log, s.phase)
    && CutInv(s.log, s.cut, s.checkpoint, s.promised)
    && Repairable(g, s.durable, s.log, s.cut)
    && VolatileInv(g, s)
  }

  // ----- What the steps do to the parts -----

  lemma StoresAgree(a: Store, b: Store)
    ensures (forall c :: Look(a, c) == Look(b, c)) <==> a == b
  {
    if forall c :: Look(a, c) == Look(b, c) {
      assert forall c :: c in a <==> Look(a, c).Some?;
      assert forall c :: c in b <==> Look(b, c).Some?;
      assert a.Keys == b.Keys;
      forall c | c in a ensures a[c] == b[c] {
        assert Look(a, c) == Look(b, c);
      }
    }
  }

  lemma IdleHeld(g: Config, m: Memory)
    requires Idle(m)
    ensures forall k :: Held(g, m, k) == map[]
    ensures forall c :: Free(g, m, c)
  {
  }

  lemma IdleCovers(g: Config, replay: bool, m: Memory, rest: Store, goal: Store)
    requires Idle(m)
    ensures Covers(g, replay, m, rest, goal) <==> m.cache + rest == goal
  {
    IdleHeld(g, m);
    hide Held, Free;
    var sum := m.cache + rest;
    if Covers(g, replay, m, rest, goal) {
      forall c ensures Look(sum, c) == Look(goal, c) {
        assert c !in rest ==> Free(g, m, c);
      }
      StoresAgree(sum, goal);
    }
  }

  lemma NetNothing(g: Config)
    ensures Net(g, []) == map[]
  {
  }

  lemma NetAppend(g: Config, log: seq<Record>, r: Record)
    ensures Net(g, log + [r]) == Net(g, log) + g.writes(r)
  {
    assert (log + [r])[..|log|] == log;
  }

  /** A record that joins the log. */
  lemma GrowLog(g: Config, s: State, log': seq<Record>, r: Record, f: seq<byte>)
    requires LawfulConfig(g) && CutInv(s.log, s.cut, s.checkpoint, s.promised)
    requires Repairable(g, s.durable, s.log, s.cut)
    requires Holds(g.codec, f, s.log) && ValidRecord(g.codec, r) && r.lsn == NextLsn(s.log)
    requires IsRowKind(r) || IsCommit(r)
    requires log' == s.log + [r]
    ensures Holds(g.codec, f + Frame(g.codec, r), log')
    ensures NextLsn(log') == (r.lsn + 1) % U64
    ensures CutInv(log', s.cut, s.checkpoint, s.promised)
    ensures Repairable(g, s.durable, log', s.cut)
    ensures Net(g, log') == Net(g, s.log) + g.writes(r)
    ensures IsCommit(r) ==> CommittedLen(log') == |log'| && g.writes(r) == map[]
  {
    hide Holds, Net, CommittedLen, Frame, NextLsn, ValidRecord, Repairable, Lawful;
    NextLsnAbove(g.codec, s.log, r);
    ReadAppend(g.codec, f, s.log, r);
    CommittedAppend(s.log, r);
    RepairableGrows(g, s.durable, s.log, s.cut, r);
    NetAppend(g, s.log, r);
    assert s.log[..CommittedLen(s.log)] <= log'[..CommittedLen(log')];
  }

  lemma CoversLogged(g: Config, m: Memory, m': Memory, session: string, r: Record, goal: Store)
    requires Covers(g, false, m, map[], goal) && session !in m.inflight
    requires Exclusive(g, m, session, g.writes(r))
    requires m' == m.(inflight := m.inflight[session := r])
    ensures Covers(g, false, m', map[], goal + g.writes(r))
  {
    hide HeldRight, FreeRight, Apart, TakesUp, Exclusive, ByTable;
    HeldLogged(g, m, m', session, r);
    TakesUpApart(g, m, m', session, g.writes(r));
    LoggedRight(g, m, m', session, g.writes(r), goal);
  }

  /** A session holds these cells too, over what it held before. */
  ghost predicate TakesUp(g: Config, m: Memory, m': Memory, session: string, w: Store) {
    && m'.cache == m.cache
    && (forall k :: Held(g, m', k) == if k == session then Held(g, m, k) + w else Held(g, m, k))
  }

  lemma HeldLogged(g: Config, m: Memory, m': Memory, session: string, r: Record)
    requires session !in m.inflight && m' == m.(inflight := m.inflight[session := r])
    ensures TakesUp(g, m, m', session, g.writes(r))
  {
  }

  lemma TakesUpApart(g: Config, m: Memory, m': Memory, session: string, w: Store)
    requires Apart(g, m) && TakesUp(g, m, m', session, w) && Exclusive(g, m, session, w)
    ensures Apart(g, m')
  {
    hide Held;
  }

  lemma TakesUpFree(g: Config, m: Memory, m': Memory, session: string, w: Store, c: Cell)
    requires TakesUp(g, m, m', session, w) && Free(g, m', c)
    ensures Free(g, m, c) && c !in w
  {
    hide Held;
    assert c !in Held(g, m', session);
    forall k ensures c !in Held(g, m, k) {
      assert c !in Held(g, m', k);
    }
  }

  lemma LoggedRight(g: Config, m: Memory, m': Memory, session: string, w: Store, goal: Store)
    requires HeldRight(g, m, map[], goal) && FreeRight(g, m, map[], goal)
    requires TakesUp(g, m, m', session, w) && Exclusive(g, m, session, w)
    ensures HeldRight(g, m', map[], goal + w) && FreeRight(g, m', map[], goal + w)
  {
    hide Held, Free;
    forall c | Free(g, m', c) ensures Look(m'.cache, c) == Look(goal + w, c) {
      TakesUpFree(g, m, m', session, w, c);
    }
  }

  lemma CoversApplied(g: Config, m: Memory, m': Memory, session: string, goal: Store)
    requires Covers(g, false, m, map[], goal) && session in m.inflight
    requires m' == ApplyRow(m, session, g.writes(m.inflight[session])).(inflight := m.inflight - {session})
    ensures Covers(g, false, m', map[], goal)
    ensures forall k :: Held(g, m', k) == Held(g, m, k)
  {
    assert forall k :: Held(g, m', k) == Held(g, m, k);
    hide Held;
    assert forall c :: Free(g, m', c) == Free(g, m, c);
  }

  /** A flush gives up what it has sent, and nothing else. */
  lemma HeldFlushed(g: Config, m: Memory, session: string)
    requires session in m.buffers
    ensures var m' := FlushSession(m, session);
            && (forall k | k != session :: Held(g, m', k) == Held(g, m, k))
            && (forall c ::
                c in Held(g, m', session) ==>
                  c in Held(g, m, session) && Held(g, m', session)[c] == Held(g, m, session)[c])
            && (forall c :: c in Held(g, m, session) && c !in Held(g, m', session) ==>
                  c in m'.cache && m'.cache[c] == Held(g, m, session)[c])
            && (forall c :: c !in Held(g, m, session) ==> Look(m'.cache, c) == Look(m.cache, c))
  {
  }

  lemma CoversFlushed(g: Config, replay: bool, m: Memory, session: string, rest: Store, goal: Store)
    requires Covers(g, replay, m, rest, goal) && session in m.buffers
    ensures Covers(g, replay, FlushSession(m, session), rest, goal)
  {
    HeldFlushed(g, m, session);
    GivenUp(g, replay, m, FlushSession(m, session), session, rest, goal);
  }

  /** One session may give up cells that the cache then has. */
  lemma GivenUp(g: Config, replay: bool, m: Memory, m': Memory, session: string, rest: Store, goal: Store)
    requires Covers(g, replay, m, rest, goal)
    requires forall k | k != session :: Held(g, m', k) == Held(g, m, k)
    requires forall c ::
             c in Held(g, m', session) ==> c in Held(g, m, session) && Held(g, m', session)[c] == Held(g, m, session)[c]
    requires forall c ::
             c in Held(g, m, session) && c !in Held(g, m', session) ==>
               c in m'.cache && m'.cache[c] == Held(g, m, session)[c]
    requires forall c :: c !in Held(g, m, session) ==> Look(m'.cache, c) == Look(m.cache, c)
    ensures Covers(g, replay, m', rest, goal)
  {
    hide Held;
    assert forall k, c | c in Held(g, m', k) :: c in Held(g, m, k) && Held(g, m', k)[c] == Held(g, m, k)[c];
    forall c | c !in rest && Free(g, m', c) ensures Look(m'.cache, c) == Look(goal, c) {
      if c !in Held(g, m, session) {
        assert forall k :: c !in Held(g, m, k) by {
          assert forall k :: c !in Held(g, m', k);
        }
        assert Free(g, m, c);
      }
    }
  }

  lemma CoversReplayed(g: Config, m: Memory, r: Record, rest: Store, goal: Store)
    requires Covers(g, true, m, g.writes(r) + rest, goal) && m.inflight == map[]
    requires forall c | c in g.writes(r) :: c.table == r.table
    ensures Covers(g, true, ApplyRow(m, r.table, g.writes(r)), rest, goal)
  {
    hide HeldRight, FreeRight, Apart, TakesUp, Exclusive, ByTable;
    var m', w := ApplyRow(m, r.table, g.writes(r)), g.writes(r);
    HeldReplayed(g, m, r);
    TableExclusive(g, m, m', r.table, w);
    TakesUpApart(g, m, m', r.table, w);
    ReplayedRight(g, m, m', r.table, w, rest, goal);
    forall c | c in rest ensures Look(goal, c) == Some(rest[c]) {
      assert c in w + rest && (w + rest)[c] == rest[c];
    }
  }

  lemma HeldReplayed(g: Config, m: Memory, r: Record)
    requires m.inflight == map[]
    ensures TakesUp(g, m, ApplyRow(m, r.table, g.writes(r)), r.table, g.writes(r))
  {
  }

  lemma TableExclusive(g: Config, m: Memory, m': Memory, table: string, w: Store)
    requires ByTable(g, m) && TakesUp(g, m, m', table, w) && forall c | c in w :: c.table == table
    ensures Exclusive(g, m, table, w) && ByTable(g, m')
  {
    hide Held;
  }

  lemma ReplayedRight(g: Config, m: Memory, m': Memory, table: string, w: Store, rest: Store, goal: Store)
    requires HeldRight(g, m, w + rest, goal) && FreeRight(g, m, w + rest, goal)
    requires TakesUp(g, m, m', table, w) && Exclusive(g, m, table, w)
    requires forall c | c in w + rest :: Look(goal, c) == Some((w + rest)[c])
    ensures HeldRight(g, m', rest, goal) && FreeRight(g, m', rest, goal)
  {
    hide Held, Free;
    forall k, c | c in Held(g, m', k) && c !in rest ensures Look(goal, c) == Some(Held(g, m', k)[c]) {
      if c in w {
        assert c in w + rest && (w + rest)[c] == w[c];
      } else {
        assert c !in w + rest && c in Held(g, m, k);
      }
    }
    forall c | c !in rest && Free(g, m', c) ensures Look(m'.cache, c) == Look(goal, c) {
      TakesUpFree(g, m, m', table, w, c);
    }
  }

  lemma RepairableKeys(g: Config, durable: Store, log: seq<Record>, cut: nat)
    requires Repairable(g, durable, log, cut)
    ensures durable.Keys <= Net(g, Committed(log)).Keys
  {
    hide Net, CommittedLen;
    assert (durable + Net(g, log[cut..CommittedLen(log)])).Keys == Net(g, Committed(log)).Keys;
  }

  /** Persisting one cell that the cache and what is still to be replayed account for. */
  lemma PersistOne(g: Config, durable: Store, cache: Store, log: seq<Record>, cut: nat, c: Cell, rest: seq<Record>)
    requires Repairable(g, durable, log, cut) && c in cache
    requires cache + Net(g, rest) == Net(g, Committed(log))
    requires |rest| <= CommittedLen(log) - cut
    requires rest == log[CommittedLen(log) - |rest|..CommittedLen(log)]
    ensures Repairable(g, durable[c := cache[c]], log, cut)
  {
    hide Net, CommittedLen;
    var n := CommittedLen(log);
    var all := log[cut..n];
    assert all == all[..|all| - |rest|] + rest;
    NetConcat(g, all[..|all| - |rest|], rest);
    CellPersisted(durable, Net(g, all), Net(g, Committed(log)), c, cache[c]);
  }

  lemma CellPersisted(durable: Store, rest: Store, goal: Store, c: Cell, v: int)
    requires durable + rest == goal && (c in rest || Look(goal, c) == Some(v))
    ensures durable[c := v] + rest == goal
  {
    StoresAgree(durable[c := v] + rest, goal);
    forall x ensures Look(durable[c := v] + rest, x) == Look(goal, x) {
      assert x in goal <==> x in durable || x in rest;
    }
  }

  // ----- Every step keeps the invariant -----

  lemma InitialInv(g: Config, s: State)
    requires LawfulConfig(g) && Initial(s)
    ensures Inv(g, s)
  {
    ReadEmpty(g.codec);
    NetNothing(g);
    IdleCovers(g, false, s.mem, map[], map[]);
  }

  lemma BeginInv(g: Config, s: State, a: Action)
    requires Inv(g, s) && Enabled(g, s, a) && (a.BeginAppend? || a.BeginCommit?)
    ensures Inv(g, Step(g, s, a))
  {
    hide Holds, Net, CommittedLen, Frame, Readable, ReadOf, NextLsn, LawfulConfig, ValidRecord, Repairable, Covers,
         CutInv;
    assert s.file == s.file + Frame(g.codec, a.record)[..0];
  }

  lemma WriteInv(g: Config, s: State, a: Action)
    requires Inv(g, s) && Enabled(g, s, a) && a.WriteTo?
    ensures Inv(g, Step(g, s, a))
  {
    hide Holds, Net, CommittedLen, Frame, Readable, ReadOf, NextLsn, LawfulConfig, ValidRecord, Repairable, Covers,
         CutInv;
  }

  lemma AcknowledgeInv(g: Config, s: State, a: Action)
    requires Inv(g, s) && Enabled(g, s, a) && a.Acknowledge?
    ensures Inv(g, Step(g, s, a))
  {
    hide Holds, Net, CommittedLen, Frame, Readable, ReadOf, NextLsn, LawfulConfig, ValidRecord, Repairable, Covers,
         CutInv;
    var s' := Step(g, s, a);
    var r := s.phase.record;
    assert Frame(g.codec, r)[..|Frame(g.codec, r)|] == Frame(g.codec, r);
    GrowLog(g, s, s'.log, r, s.phase.base);
    if s.phase.session.Some? {
      CoversLogged(g, s.mem, s'.mem, s.phase.session.value, r, Net(g, s.log));
    } else {
      IdleCovers(g, false, s.mem, map[], Net(g, s.log));
      assert s.mem.cache + map[] == s.mem.cache && Net(g, s.log) + map[] == Net(g, s.log);
    }
  }

  lemma ApplyInv(g: Config, s: State, a: Action)
    requires Inv(g, s) && Enabled(g, s, a) && a.Apply?
    ensures Inv(g, Step(g, s, a))
  {
    hide Holds, Net, CommittedLen, Frame, Readable, ReadOf, NextLsn, LawfulConfig, ValidRecord, Repairable, Covers,
         CutInv;
    hide Held;
    if s.phase.Serving? || s.phase.Appending? {
      CoversApplied(g, s.mem, Step(g, s, a).mem, a.session, Net(g, s.log));
    }
  }

  lemma FlushInv(g: Config, s: State, a: Action)
    requires Inv(g, s) && Enabled(g, s, a) && a.Flush?
    ensures Inv(g, Step(g, s, a))
  {
    hide Holds, Net, CommittedLen, Frame, Readable, ReadOf, NextLsn, LawfulConfig, ValidRecord, Repairable, Covers,
         CutInv;
    var m' := FlushSession(s.mem, a.session);
    assert m'.cache.Keys == s.mem.cache.Keys + s.mem.buffers[a.session].Keys;
    if s.mem.buffers[a.session] == map[] {
      assert m'.cache == s.mem.cache && m'.buffers == s.mem.buffers;
      assert m' == s.mem;
      assert Step(g, s, a) == s;
    } else if s.phase.Replaying? {
      assert a.session in s.mem.buffers && a.session in m'.buffers;
      CoversFlushed(g, true, s.mem, a.session, Net(g, s.plan[s.phase.next..]), Net(g, Committed(s.log)));
    } else {
      CoversFlushed(g, false, s.mem, a.session, map[], Net(g, s.log));
      HeldFlushed(g, s.mem, a.session);
      assert forall k, c | c in Held(g, m', k) :: c in Held(g, s.mem, k);
    }
  }

  lemma PersistInv(g: Config, s: State, a: Action)
    requires Inv(g, s) && Enabled(g, s, a) && a.PersistCell?
    ensures Inv(g, Step(g, s, a))
  {
    hide Holds, Net, CommittedLen, Frame, Readable, ReadOf, NextLsn, LawfulConfig, ValidRecord, Repairable, Covers;
    if s.phase.Persisting? {
      NetNothing(g);
      assert Committed(s.log) == s.log && s.mem.cache + map[] == s.mem.cache;
      assert s.log[|s.log|..|s.log|] == [];
      PersistOne(g, s.durable, s.mem.cache, s.log, s.cut, a.cell, []);
    } else {
      PersistOne(g, s.durable, s.mem.cache, s.log, s.cut, a.cell, s.plan[s.phase.next..]);
    }
  }

  lemma PersistDoneInv(g: Config, s: State, a: Action)
    requires Inv(g, s) && Enabled(g, s, a) && a.PersistDone?
    ensures Inv(g, Step(g, s, a))
  {
    hide Holds, Net, CommittedLen, Frame, Readable, ReadOf, NextLsn, LawfulConfig, ValidRecord, Repairable, Covers,
         CutInv;
    RepairableKeys(g, s.durable, s.log, s.cut);
    if s.phase.Persisting? {
      assert Committed(s.log) == s.log;
    }
    assert s.durable.Keys == s.mem.cache.Keys;
    assert s.durable == s.mem.cache;
  }

  lemma AppendFailsInv(g: Config, s: State, a: Action)
    requires Inv(g, s) && Enabled(g, s, a) && a.AppendFails?
    ensures Inv(g, Step(g, s, a)) && Step(g, s, a) == s.(phase := Serving)
  {
    hide Holds, Net, CommittedLen, Readable, ReadOf, NextLsn, LawfulConfig, ValidRecord, Repairable, Covers, CutInv;
    assert s.phase.base + Frame(g.codec, s.phase.record)[..0] == s.phase.base;
  }

  lemma FailedInv(g: Config, s: State, a: Action)
    requires Inv(g, s) && Enabled(g, s, a) && (a.CommitFailed? || a.CheckpointFailed?)
    ensures Inv(g, Step(g, s, a))
  {
    hide Holds, Net, CommittedLen, Frame, Readable, ReadOf, NextLsn, LawfulConfig, ValidRecord, Repairable, Covers,
         CutInv;
    IdleCovers(g, false, s.mem, map[], Net(g, s.log));
    assert s.mem.cache + map[] == s.mem.cache;
  }

  lemma HoldsIncreasing(c: Codec, f: seq<byte>, log: seq<Record>)
    requires Holds(c, f, log)
    ensures Readable(c, f) && ReadOf(c, f).records == log && Increasing(log)
  {
  }

  /** The checkpoint covers as many records as its LSN says. */
  lemma {:induction false} CountIs(log: seq<Record>, n: nat, lsn: u64)
    requires Increasing(log) && n <= |log|
    requires if n == 0 then lsn == 0 else lsn == log[n - 1].lsn
    ensures CheckpointedCount(log, lsn) == n
    decreases n
  {
    if n > 1 {
      assert log[0].lsn < log[n - 1].lsn;
      CountIs(log[1..], n - 1, lsn);
    } else if n == 1 && |log| > 1 {
      assert log[0].lsn < log[1].lsn;
    }
  }

  /** Moving the cut to a later commit of the log. */
  lemma MoveCut(log: seq<Record>, cut: nat, cut': nat, checkpoint: Option<u64>, promised: seq<Record>,
                promised': seq<Record>)
    requires CutInv(log, cut, checkpoint, promised) && Increasing(log)
    requires 0 < cut' && cut <= cut' <= CommittedLen(log) && IsCommit(log[cut' - 1])
    requires promised' <= Committed(log)
    ensures CutInv(log, cut', Advance(checkpoint, log[cut' - 1].lsn), promised')
  {
    hide CommittedLen;
    assert 0 < cut < cut' ==> log[cut - 1].lsn < log[cut' - 1].lsn;
  }

  lemma CommittedWhole(log: seq<Record>)
    requires CommittedLen(log) == |log|
    ensures Committed(log) == log
  {
  }

  lemma RepairedAt(g: Config, durable: Store, log: seq<Record>, cut: nat, rest: seq<Record>)
    requires cut <= CommittedLen(log) && rest == log[cut..CommittedLen(log)]
    requires durable + Net(g, rest) == Net(g, Committed(log))
    ensures Repairable(g, durable, log, cut)
  {
  }

  lemma LsnAbove(log: seq<Record>, cut: nat, cut': nat, checkpoint: Option<u64>, promised: seq<Record>)
    requires CutInv(log, cut, checkpoint, promised) && Increasing(log) && cut < cut' <= |log|
    ensures CheckpointLsn(checkpoint) < log[cut' - 1].lsn
  {
    hide CommittedLen;
    assert 0 < cut ==> log[cut - 1].lsn < log[cut' - 1].lsn;
  }

  lemma CheckpointInv(g: Config, s: State, a: Action)
    requires Inv(g, s) && Enabled(g, s, a) && a.WriteCheckpoint? && s.phase.Checkpointing?
    ensures Inv(g, Step(g, s, a))
  {
    hide Holds, Net, CommittedLen, Frame, Readable, ReadOf, NextLsn, LawfulConfig, ValidRecord, Repairable, Covers,
         CutInv;
    hide Committed, Idle;
    HoldsIncreasing(g.codec, s.file, s.log);
    CommittedWhole(s.log);
    PromisedWithin(s.log, s.cut, s.checkpoint, s.promised);
    MoveCut(s.log, s.cut, |s.log|, s.checkpoint, s.promised, s.log);
    NetNothing(g);
    assert s.durable + map[] == s.durable;
    RepairedAt(g, s.durable, s.log, |s.log|, []);
    IdleCovers(g, false, s.mem, map[], Net(g, s.log));
  }

  /** A commit record in the plan adds nothing to what is still to be replayed. */
  lemma SkipCommit(g: Config, plan: seq<Record>, i: nat)
    requires LawfulConfig(g) && i < |plan| && IsCommit(plan[i])
    ensures Net(g, plan[i..]) == Net(g, plan[i + 1..])
  {
    hide Net;
    assert plan[i..] == [plan[i]] + plan[i + 1..];
    NetConcat(g, [plan[i]], plan[i + 1..]);
    NetOne(g, plan[i]);
    assert map[] + Net(g, plan[i + 1..]) == Net(g, plan[i + 1..]);
  }

  /** Where the checkpoint moves when the commit record at `i` is replayed. */
  lemma PlanPast(log: seq<Record>, plan: seq<Record>, pending: seq<Record>, cut: nat, i: nat)
    requires PlanInv(log, plan, pending, cut, i) && i < |plan|
    ensures var cut' := CommittedLen(log) - |plan| + i + 1;
            && cut <= cut' <= CommittedLen(log) && 0 < cut' && log[cut' - 1] == plan[i]
            && log[cut'..CommittedLen(log)] == plan[i + 1..] && PlanInv(log, plan, pending, cut', i + 1)
    ensures |plan| <= CommittedLen(log)
  {
    hide CommittedLen;
  }

  /** What a replay between two records is known to have on disk, and what it is to reach. */
  ghost predicate OnDisk(g: Config, s: State) {
    && LawfulConfig(g) && Holds(g.codec, s.file, s.log) && s.nextLsn == NextLsn(s.log)
    && CutInv(s.log, s.cut, s.checkpoint, s.promised) && Repairable(g, s.durable, s.log, s.cut)
  }

  lemma ReplayingInv(g: Config, s: State)
    requires OnDisk(g, s) && s.phase.Replaying? && s.phase.next <= |s.plan| <= CommittedLen(s.log)
    requires PlanInv(s.log, s.plan, s.pending, s.cut, s.phase.next)
    requires Covers(g, true, s.mem, Net(g, s.plan[s.phase.next..]), Net(g, Committed(s.log)))
    requires s.mem.inflight == map[] && s.durable.Keys <= s.mem.cache.Keys
    requires s.mem.buffers == map[] ==> s.mem.cache == s.durable
    requires s.cut == CommittedLen(s.log) - |s.plan| + s.phase.next ==> s.mem.buffers == map[]
    ensures Inv(g, s)
  {
    hide Holds, Net, CommittedLen, NextLsn, LawfulConfig, Repairable, Covers, CutInv, Committed, PlanInv;
  }

  lemma ReplayCheckpointParts(g: Config, s: State)
    requires Inv(g, s) && s.phase.ReplayCheckpointing?
    ensures OnDisk(g, s) && s.phase.next < |s.plan| && IsCommit(s.plan[s.phase.next])
    ensures PlanInv(s.log, s.plan, s.pending, s.cut, s.phase.next)
    ensures Idle(s.mem) && s.durable == s.mem.cache
    ensures s.mem.cache + Net(g, s.plan[s.phase.next..]) == Net(g, Committed(s.log))
  {
    hide Holds, Net, CommittedLen, NextLsn, LawfulConfig, Repairable, Covers, CutInv, Committed, PlanInv;
  }

  lemma ReplayCheckpointInv(g: Config, s: State, a: Action)
    requires Inv(g, s) && Enabled(g, s, a) && a.WriteCheckpoint? && s.phase.ReplayCheckpointing?
    ensures Inv(g, Step(g, s, a))
  {
    hide Inv, Holds, Net, CommittedLen, NextLsn, LawfulConfig, Repairable, Covers, CutInv, Committed,
         CheckpointedCount, Increasing, PlanInv, Guarded;
    var i := s.phase.next;
    ReplayCheckpointParts(g, s);
    HoldsIncreasing(g.codec, s.file, s.log);
    PromisedWithin(s.log, s.cut, s.checkpoint, s.promised);
    PlanPast(s.log, s.plan, s.pending, s.cut, i);
    var cut' := CommittedLen(s.log) - |s.plan| + i + 1;
    CountIs(s.log, cut', s.plan[i].lsn);
    MoveCut(s.log, s.cut, cut', s.checkpoint, s.promised, s.promised);
    SkipCommit(g, s.plan, i);
    RepairedAt(g, s.durable, s.log, cut', s.plan[i + 1..]);
    var s' := Step(g, s, a);
    IdleCovers(g, true, s'.mem, Net(g, s.plan[i + 1..]), Net(g, Committed(s.log)));
    ReplayingInv(g, s');
  }

  lemma PromisedWithin(log: seq<Record>, cut: nat, checkpoint: Option<u64>, promised: seq<Record>)
    requires CutInv(log, cut, checkpoint, promised)
    ensures promised <= Committed(log) && cut <= CommittedLen(log)
  {
  }

  lemma CrashInv(g: Config, s: State, a: Action)
    requires Inv(g, s) && Enabled(g, s, a) && a.Crash?
    ensures Inv(g, Step(g, s, a))
  {
    hide Net, CommittedLen, Frame, Readable, ReadOf, NextLsn, LawfulConfig, ValidRecord, Repairable, Covers, CutInv;
    if s.phase.Appending? {
      CrashInAppend(g, s, a);
    } else {
      HoldsIncreasing(g.codec, s.file, s.log);
    }
  }

  lemma CrashInAppend(g: Config, s: State, a: Action)
    requires Inv(g, s) && Enabled(g, s, a) && a.Crash? && s.phase.Appending?
    ensures Inv(g, Step(g, s, a))
  {
    hide Holds, Net, CommittedLen, Frame, Readable, ReadOf, NextLsn, LawfulConfig, ValidRecord, Repairable, Covers,
         CutInv;
    var s' := Step(g, s, a);
    var r, base := s.phase.record, s.phase.base;
    var frame, k := Frame(g.codec, r), s.phase.written - a.lost;
    if k == |frame| {
      assert frame[..k] == frame;
      GrowLog(g, s, s'.log, r, base);
      HoldsIncreasing(g.codec, s'.file, s'.log);
    } else {
      LawfulCodec(g);
      ReadPartialAppend(g.codec, base, s.log, r, k);
    }
  }

  lemma LawfulCodec(g: Config)
    requires LawfulConfig(g)
    ensures Lawful(g.codec)
  {
  }

  /** The parts of a plan, in terms of the cut. */
  lemma PlanParts(log: seq<Record>, cut: nat, checkpoint: Option<u64>, promised: seq<Record>)
    requires CutInv(log, cut, checkpoint, promised) && Increasing(log)
    ensures cut <= CommittedLen(log)
    ensures ReplayPart(log, CheckpointLsn(checkpoint)) == log[cut..CommittedLen(log)]
    ensures PendingPart(log, CheckpointLsn(checkpoint)) == log[CommittedLen(log)..]
    ensures CheckpointLsn(checkpoint) <= LastLsn(log)
  {
    hide CommittedLen, CheckpointedCount;
    CountIs(log, cut, CheckpointLsn(checkpoint));
    assert 0 < cut < |log| ==> log[cut - 1].lsn < log[|log| - 1].lsn;
  }

  lemma ReopenInv(g: Config, s: State, a: Action)
    requires Inv(g, s) && Enabled(g, s, a) && a.Reopen?
    ensures Inv(g, Step(g, s, a))
  {
    hide Holds, Net, CommittedLen, Frame, Readable, ReadOf, NextLsn, LawfulConfig, ValidRecord, Repairable, Covers,
         CutInv;
    hide Committed, ReplayPart, PendingPart, Increasing;
    var s' := Step(g, s, a);
    TruncateThenRead(g.codec, s.file);
    HoldsIncreasing(g.codec, s'.file, s.log);
    PlanParts(s.log, s.cut, s.checkpoint, s.promised);
    assert s'.plan[0..] == s'.plan;
    RepairGoal(g, s.durable, s.log, s.cut);
    IdleCovers(g, true, s'.mem, Net(g, s'.plan[0..]), Net(g, Committed(s.log)));
  }

  lemma RepairGoal(g: Config, durable: Store, log: seq<Record>, cut: nat)
    requires Repairable(g, durable, log, cut)
    ensures cut <= CommittedLen(log)
    ensures durable + Net(g, log[cut..CommittedLen(log)]) == Net(g, Committed(log))
  {
  }

  lemma SafeWhenWhole(g: Config, durable: Store, log: seq<Record>)
    requires CommittedLen(log) == |log|
    ensures Repairable(g, durable, log, |log|) <==> durable == Net(g, log)
  {
    hide Net;
    CommittedWhole(log);
    NetNothing(g);
    assert log[|log|..|log|] == [] && durable + map[] == durable;
  }

  lemma ReplayingParts(g: Config, s: State)
    requires Inv(g, s) && s.phase.Replaying?
    ensures OnDisk(g, s) && s.phase.next <= |s.plan| <= CommittedLen(s.log)
    ensures PlanInv(s.log, s.plan, s.pending, s.cut, s.phase.next)
    ensures Covers(g, true, s.mem, Net(g, s.plan[s.phase.next..]), Net(g, Committed(s.log)))
    ensures s.mem.inflight == map[] && s.durable.Keys <= s.mem.cache.Keys
  {
    hide Holds, Net, CommittedLen, NextLsn, LawfulConfig, Repairable, Covers, CutInv, Committed;
  }

  lemma PlanPastRow(log: seq<Record>, plan: seq<Record>, pending: seq<Record>, cut: nat, i: nat)
    requires PlanInv(log, plan, pending, cut, i) && i < |plan| && !IsCommit(plan[i])
    ensures PlanInv(log, plan, pending, cut, i + 1) && cut < CommittedLen(log) - |plan| + i + 1
  {
    hide CommittedLen;
  }

  lemma ReplayRowInv(g: Config, s: State, a: Action)
    requires Inv(g, s) && Enabled(g, s, a) && a.ReplayRow?
    ensures Inv(g, Step(g, s, a))
  {
    hide Inv, Holds, Net, CommittedLen, NextLsn, LawfulConfig, Repairable, Covers, CutInv, Committed, PlanInv, Guarded;
    var i := s.phase.next;
    var r := s.plan[i];
    ReplayingParts(g, s);
    PlanPastRow(s.log, s.plan, s.pending, s.cut, i);
    assert s.plan[i..] == [r] + s.plan[i + 1..];
    NetConcat(g, [r], s.plan[i + 1..]);
    NetOne(g, r);
    WritesOwnTable(g, r);
    CoversReplayed(g, s.mem, r, Net(g, s.plan[i + 1..]), Net(g, Committed(s.log)));
    assert r.table in ApplyRow(s.mem, r.table, g.writes(r)).buffers;
    ReplayingInv(g, Step(g, s, a));
  }

  lemma WritesOwnTable(g: Config, r: Record)
    requires LawfulConfig(g)
    ensures forall c | c in g.writes(r) :: c.table == r.table
  {
  }

  lemma ReplayCommitInv(g: Config, s: State, a: Action)
    requires Inv(g, s) && Enabled(g, s, a) && a.ReplayCommit?
    ensures Inv(g, Step(g, s, a))
  {
    hide Holds, Net, CommittedLen, Frame, Readable, ReadOf, NextLsn, LawfulConfig, ValidRecord, Repairable, Covers,
         CutInv;
    IdleCovers(g, true, s.mem, Net(g, s.plan[s.phase.next..]), Net(g, Committed(s.log)));
  }

  lemma PlanEnd(log: seq<Record>, plan: seq<Record>, pending: seq<Record>, cut: nat)
    requires PlanInv(log, plan, pending, cut, |plan|)
    ensures cut == CommittedLen(log)
  {
    hide CommittedLen;
  }

  /** When the whole plan is replayed, durable storage is what the committed log
      describes, and the checkpoint covers all of it. */
  lemma Recovered(g: Config, s: State)
    requires Inv(g, s) && s.phase.Replaying? && s.phase.next == |s.plan|
    ensures s.durable == s.mem.cache == Net(g, Committed(s.log))
    ensures s.mem.buffers == map[] && s.mem.inflight == map[]
    ensures s.cut == CommittedLen(s.log)
    ensures s.pending == s.log[CommittedLen(s.log)..]
  {
    hide Holds, Net, CommittedLen, Frame, Readable, ReadOf, NextLsn, LawfulConfig, ValidRecord, Repairable, Covers,
         CutInv;
    hide Committed, DiskInv;
    var i := |s.plan|;
    PlanEnd(s.log, s.plan, s.pending, s.cut);
    assert s.plan[i..] == [];
    NetNothing(g);
    IdleCovers(g, true, s.mem, map[], Net(g, Committed(s.log)));
    assert s.mem.cache + map[] == s.mem.cache;
  }

  lemma FinishInv(g: Config, s: State, a: Action)
    requires Inv(g, s) && Enabled(g, s, a) && a.FinishRecovery?
    ensures Inv(g, Step(g, s, a))
  {
    hide Holds, Net, CommittedLen, Frame, Readable, ReadOf, NextLsn, LawfulConfig, ValidRecord, Repairable, Covers,
         CutInv;
    hide Committed;
    Recovered(g, s);
    if s.pending == [] {
      CommittedWhole(s.log);
      IdleCovers(g, false, s.mem, map[], Net(g, s.log));
      assert s.mem.cache + map[] == s.mem.cache;
    }
  }

  /** What follows the last commit does not matter to the cut or to repair. */
  lemma DropPending(g: Config, durable: Store, log: seq<Record>, cut: nat, checkpoint: Option<u64>,
                    promised: seq<Record>)
    requires CutInv(log, cut, checkpoint, promised) && Repairable(g, durable, log, cut)
    ensures CommittedLen(Committed(log)) == |Committed(log)|
    ensures CutInv(Committed(log), cut, checkpoint, promised)
    ensures Repairable(g, durable, Committed(log), cut)
  {
    hide Net;
    var log' := Committed(log);
    CommittedOfCommitted(log);
    CommittedWhole(log');
    assert log'[cut..|log'|] == log[cut..CommittedLen(log)];
  }

  lemma DiscardInv(g: Config, s: State, a: Action)
    requires Inv(g, s) && Enabled(g, s, a) && a.DiscardPending?
    ensures Inv(g, Step(g, s, a))
  {
    hide Holds, Net, CommittedLen, Frame, Readable, ReadOf, NextLsn, LawfulConfig, ValidRecord, Repairable, Covers,
         CutInv;
    var s' := Step(g, s, a);
    assert s'.log == Committed(s.log);
    DropPending(g, s.durable, s.log, s.cut, s.checkpoint, s.promised);
    IdleCovers(g, false, s.mem, map[], Net(g, s'.log));
    assert s.mem.cache + map[] == s.mem.cache;
  }

  lemma CommittedOfCommitted(log: seq<Record>)
    ensures CommittedLen(Committed(log)) == CommittedLen(log)
  {
  }

  lemma StepInv(g: Config, s: State, a: Action)
    requires Inv(g, s) && Enabled(g, s, a)
    ensures Inv(g, Step(g, s, a))
  {
    hide Inv, Step;
    match a
    case BeginAppend(_, _) => BeginInv(g, s, a);
    case BeginCommit(_) => BeginInv(g, s, a);
    case WriteTo(_) => WriteInv(g, s, a);
    case Acknowledge => AcknowledgeInv(g, s, a);
    case AppendFails => AppendFailsInv(g, s, a);
    case Apply(_) => ApplyInv(g, s, a);
    case Flush(_) => FlushInv(g, s, a);
    case PersistCell(_) => PersistInv(g, s, a);
    case PersistDone => PersistDoneInv(g, s, a);
    case CommitFailed => FailedInv(g, s, a);
    case WriteCheckpoint =>
      if s.phase.Checkpointing? {
        CheckpointInv(g, s, a);
      } else {
        ReplayCheckpointInv(g, s, a);
      }
    case CheckpointFailed => FailedInv(g, s, a);
    case Crash(_) => CrashInv(g, s, a);
    case Reopen => ReopenInv(g, s, a);
    case ReplayRow => ReplayRowInv(g, s, a);
    case ReplayCommit => ReplayCommitInv(g, s, a);
    case FinishRecovery => FinishInv(g, s, a);
    case DiscardPending(_) => DiscardInv(g, s, a);
  }

  // ----- Runs -----

  ghost predicate Runs(g: Config, s: State, acts: seq<Action>)
    decreases |acts|
  {
    acts == [] || (Enabled(g, s, acts[0]) && Runs(g, Step(g, s, acts[0]), acts[1..]))
  }

  ghost function After(g: Config, s: State, acts: seq<Action>): (s': State)
    requires Runs(g, s, acts)
    decreases |acts|
  {
    if acts == [] then s else After(g, Step(g, s, acts[0]), acts[1..])
  }

  lemma {:induction false} RunInv(g: Config, s: State, acts: seq<Action>)
    requires Inv(g, s) && Runs(g, s, acts)
    ensures Inv(g, After(g, s, acts))
    decreases |acts|
  {
    hide Inv, Possible, Guarded, Step;
    if acts != [] {
      StepInv(g, s, acts[0]);
      RunInv(g, Step(g, s, acts[0]), acts[1..]);
    }
  }

  predicate RecoveryDone(s: State) {
    s.phase.Replaying? && s.phase.next == |s.plan|
  }

  /** All that is known when a recovery has replayed its plan. */
  lemma RecoveryOutcome(g: Config, s: State)
    requires Inv(g, s) && RecoveryDone(s)
    ensures Holds(g.codec, s.file, s.log)
    ensures s.durable == Net(g, Committed(s.log))
    ensures CheckpointLsn(s.checkpoint) == LastLsn(Committed(s.log))
    ensures s.promised <= Committed(s.log)
    ensures s.pending == s.log[CommittedLen(s.log)..]
  {
    hide Holds, Net, CommittedLen, LawfulConfig, Repairable, Covers;
    Recovered(g, s);
  }

  /** Every run from an empty store: when a recovery has replayed its plan, durable
      storage is exactly what the file's records up to their last commit describe,
      the checkpoint names that commit, and every acknowledged commit is among
      those records. */
  lemma RecoveryRestoresCommitted(g: Config, s0: State, acts: seq<Action>)
    requires LawfulConfig(g) && Initial(s0) && Runs(g, s0, acts)
    requires RecoveryDone(After(g, s0, acts))
    ensures var s := After(g, s0, acts);
            && Holds(g.codec, s.file, s.log)
            && s.durable == Net(g, Committed(s.log))
            && CheckpointLsn(s.checkpoint) == LastLsn(Committed(s.log))
            && s.promised <= Committed(s.log)
  {
    hide Holds, Net, CommittedLen, LawfulConfig, Inv, Enabled, Step, Runs, After, Initial;
    InitialInv(g, s0);
    RunInv(g, s0, acts);
    RecoveryOutcome(g, After(g, s0, acts));
  }

  /** What the file holds once its torn tail is cut off. */
  ghost function Kept(c: Codec, f: seq<byte>): (k: seq<byte>)
    requires Readable(c, f)
  {
    f[..ReadOf(c, f).validBytes]
  }

  lemma KeptWhole(c: Codec, f: seq<byte>, rs: seq<Record>)
    requires Holds(c, f, rs)
    ensures Readable(c, f) && Kept(c, f) == f
  {
    TruncateThenRead(c, f);
  }

  predicate Recovering(p: Phase) {
    p.Down? || p.Replaying? || p.ReplayPersisting? || p.ReplayCheckpointing?
  }

  /** The steps of a recovery, a crash in the middle of it included. */
  predicate IsRecovery(a: Action) {
    || a.Crash? || a.Reopen? || a.ReplayRow? || a.Flush? || a.ReplayCommit?
    || a.PersistCell? || a.PersistDone? || a.WriteCheckpoint?
  }

  /** Recovery appends nothing to the log, and its only change to the file is to
      cut off the torn tail. */
  lemma RecoveryStep(g: Config, s: State, a: Action)
    requires Inv(g, s) && Enabled(g, s, a) && Recovering(s.phase) && IsRecovery(a)
    ensures var s' := Step(g, s, a);
            && Recovering(s'.phase) && s'.log == s.log && s'.promised == s.promised
            && Readable(g.codec, s.file) && Readable(g.codec, s'.file)
            && Kept(g.codec, s'.file) == Kept(g.codec, s.file)
  {
    hide Net, CommittedLen, Frame, Readable, ReadOf, NextLsn, LawfulConfig, ValidRecord, Repairable, Covers, CutInv;
    if a.Reopen? {
      TruncateThenRead(g.codec, s.file);
      KeptWhole(g.codec, Kept(g.codec, s.file), s.log);
    } else if !s.phase.Down? {
      HoldsIncreasing(g.codec, s.file, s.log);
    }
  }

  /** During recovery the checkpoint stays, or moves to the first commit record
      after it. */
  lemma CheckpointMovesOneCommit(g: Config, s: State, a: Action)
    requires Inv(g, s) && Enabled(g, s, a) && Recovering(s.phase) && IsRecovery(a)
    ensures var s' := Step(g, s, a);
            || (s'.checkpoint == s.checkpoint && s'.cut == s.cut)
            || (&& s.cut < s'.cut <= |s.log|
                && CheckpointLsn(s'.checkpoint) == s.log[s'.cut - 1].lsn > CheckpointLsn(s.checkpoint)
                && IsCommit(s.log[s'.cut - 1])
                && forall j | s.cut <= j < s'.cut - 1 :: !IsCommit(s.log[j]))
  {
    hide Holds, Net, CommittedLen, Frame, Readable, ReadOf, NextLsn, LawfulConfig, ValidRecord, Repairable, Covers,
         CutInv, CheckpointedCount;
    if a.WriteCheckpoint? {
      HoldsIncreasing(g.codec, s.file, s.log);
      var i, n := s.phase.next, CommittedLen(s.log);
      var cut' := n - |s.plan| + i + 1;
      assert s.log[cut' - 1] == s.plan[i];
      CountIs(s.log, cut', s.plan[i].lsn);
      LsnAbove(s.log, s.cut, cut', s.checkpoint, s.promised);
    }
  }

  lemma {:induction false} RecoveryRun(g: Config, s: State, acts: seq<Action>)
    requires Inv(g, s) && Runs(g, s, acts) && Recovering(s.phase)
    requires forall a | a in acts :: IsRecovery(a)
    ensures Inv(g, After(g, s, acts))
    ensures After(g, s, acts).log == s.log
    ensures Readable(g.codec, s.file) && Readable(g.codec, After(g, s, acts).file)
    ensures Kept(g.codec, After(g, s, acts).file) == Kept(g.codec, s.file)
    decreases |acts|
  {
    hide Inv, Possible, Guarded, Step, Readable, Kept;
    if acts == [] {
      RecoveringReads(g, s);
    } else {
      assert IsRecovery(acts[0]);
      RecoveryStep(g, s, acts[0]);
      StepInv(g, s, acts[0]);
      RecoveryRun(g, Step(g, s, acts[0]), acts[1..]);
    }
  }

  lemma RecoveringReads(g: Config, s: State)
    requires Inv(g, s) && Recovering(s.phase)
    ensures Readable(g.codec, s.file) && ReadOf(g.codec, s.file).records == s.log
  {
    hide Net, CommittedLen, Readable, ReadOf, LawfulConfig, Repairable, Covers, CutInv;
  }

  /** Recovery may be cut short by a crash at any step, any number of times, and
      started again: it always ends with the same file, the same checkpoint and
      the same durable storage, and the file read before it fixes them. */
  lemma InterruptedRecovery(g: Config, s: State, acts: seq<Action>)
    requires Inv(g, s) && s.phase.Down? && Runs(g, s, acts)
    requires forall a | a in acts :: IsRecovery(a)
    requires RecoveryDone(After(g, s, acts))
    ensures Readable(g.codec, s.file)
    ensures var s', rs := After(g, s, acts), ReadOf(g.codec, s.file).records;
            && s'.file == Kept(g.codec, s.file)
            && s'.durable == Net(g, Committed(rs))
            && CheckpointLsn(s'.checkpoint) == LastLsn(Committed(rs))
            && s'.pending == rs[|Committed(rs)|..]
  {
    hide Holds, Net, CommittedLen, Readable, ReadOf, Inv, Enabled, Step, Runs, After, Kept;
    RecoveringReads(g, s);
    RecoveryRun(g, s, acts);
    RecoveryOutcome(g, After(g, s, acts));
    KeptWhole(g.codec, After(g, s, acts).file, s.log);
  }

  /** After every crash the log can be opened again. */
  lemma AlwaysReopens(g: Config, s: State)
    requires Inv(g, s) && s.phase.Down?
    ensures Enabled(g, s, Reopen)
  {
    hide Net, CommittedLen, LawfulConfig, Repairable, Covers, CutInv;
    PlanParts(s.log, s.cut, s.checkpoint, s.promised);
  }

  /** So every run that ends in a crash can be taken up again, with LSNs that go on after
      the last record that survived. */
  lemma EveryCrashReopens(g: Config, s0: State, acts: seq<Action>)
    requires LawfulConfig(g) && Initial(s0) && Runs(g, s0, acts) && After(g, s0, acts).phase.Down?
    ensures var s := After(g, s0, acts);
            Enabled(g, s, Reopen) && Step(g, s, Reopen).log == s.log == ReadOf(g.codec, s.file).records
            && Step(g, s, Reopen).nextLsn == NextLsn(s.log)
  {
    hide Net, CommittedLen, LawfulConfig, Runs, After, Initial, Repairable, CutInv, VolatileInv, Readable, ReadOf;
    InitialInv(g, s0);
    RunInv(g, s0, acts);
    AlwaysReopens(g, After(g, s0, acts));
  }

  /** No step but clearing a pending tail takes a record out of the log, and a
      record that joins it has an LSN above all the others. */
  lemma AcknowledgedStays(g: Config, s: State, a: Action)
    requires Inv(g, s) && Enabled(g, s, a) && !a.DiscardPending?
    ensures s.log <= Step(g, s, a).log
    ensures |s.log| < |Step(g, s, a).log| ==>
              |Step(g, s, a).log| == |s.log| + 1 && LastLsn(s.log) < LastLsn(Step(g, s, a).log)
  {
    hide Holds, Net, CommittedLen, Frame, Readable, ReadOf, LawfulConfig, Repairable, Covers, CutInv;
    if s.phase.Appending? {
      NextLsnAbove(g.codec, s.log, s.phase.record);
    }
  }

  lemma LogIncreasing(g: Config, s: State)
    requires Inv(g, s)
    ensures Increasing(s.log)
  {
    hide Net, CommittedLen, LawfulConfig, Repairable, CutInv, VolatileInv, Frame, ValidRecord;
  }

  /** Over any stretch of a run without such a clearing the log only grows at its end,
      through every crash and reopening. */
  lemma {:induction false} LogOnlyGrows(g: Config, s: State, acts: seq<Action>)
    requires Inv(g, s) && Runs(g, s, acts) && forall a | a in acts :: !a.DiscardPending?
    ensures Inv(g, After(g, s, acts)) && s.log <= After(g, s, acts).log
    decreases |acts|
  {
    hide Inv, Possible, Guarded, Step;
    if acts != [] {
      assert acts[0] in acts;
      AcknowledgedStays(g, s, acts[0]);
      StepInv(g, s, acts[0]);
      LogOnlyGrows(g, Step(g, s, acts[0]), acts[1..]);
    }
  }

  /** In every run from an empty store: as long as no pending tail is cleared, every
      record that was acknowledged stays where it is, and no later record gets its LSN. */
  lemma NoLsnReused(g: Config, s0: State, acts: seq<Action>, more: seq<Action>, i: nat, j: nat)
    requires LawfulConfig(g) && Initial(s0) && Runs(g, s0, acts) && Runs(g, After(g, s0, acts), more)
    requires forall a | a in more :: !a.DiscardPending?
    requires i < |After(g, s0, acts).log| && j < |After(g, After(g, s0, acts), more).log|
    ensures var before, now := After(g, s0, acts).log, After(g, After(g, s0, acts), more).log;
            before <= now && (now[j].lsn == before[i].lsn <==> i == j)
  {
    hide LawfulConfig, Initial, Inv, Runs, After;
    InitialInv(g, s0);
    RunInv(g, s0, acts);
    LogOnlyGrows(g, After(g, s0, acts), more);
    LogIncreasing(g, After(g, After(g, s0, acts), more));
  }

  /** Clearing a pending tail takes away exactly the records after the last commit: rows
      that were acknowledged one by one but belong to no commit, and nothing that a
      commit acknowledged. Their LSNs are given out again. */
  lemma DiscardTakesPending(g: Config, s: State, a: Action)
    requires Inv(g, s) && Enabled(g, s, a) && a.DiscardPending?
    ensures var s' := Step(g, s, a);
            && s'.log == Committed(s.log) && s.log == s'.log + s.pending && s.promised <= s'.log
            && (forall r | r in s.pending :: !IsCommit(r))
            && s'.nextLsn == NextLsn(Committed(s.log)) && s'.durable == s.durable == Net(g, s'.log)
  {
    hide Holds, Net, Frame, Readable, ReadOf, NextLsn, LawfulConfig, ValidRecord, Repairable, Covers;
  }

  /** The machine replays what the planner plans. */
  lemma PlanIsReplayed(read: ReadResult, checkpoint: Option<u64>, p: Plan)
    requires PlanFits(read, checkpoint, p)
    ensures p.replay == ReplayPart(read.records, CheckpointLsn(checkpoint))
    ensures p.pending == PendingPart(read.records, CheckpointLsn(checkpoint))
  {
    hide ReplayPart, PendingPart, CheckpointedCount, CountCommits;
    var rs, n := read.records, p.checkpointedCount;
    CountAtMost(rs, n, CheckpointLsn(checkpoint));
    assert rs[n..] == p.replay + p.pending;
    ReplaySplit(rs, CheckpointLsn(checkpoint));
    SplitUnique(p.replay, p.pending, ReplayPart(rs, CheckpointLsn(checkpoint)),
                PendingPart(rs, CheckpointLsn(checkpoint)));
  }

  lemma ReplaySplit(rs: seq<Record>, lsn: u64)
    ensures var a, b := ReplayPart(rs, lsn), PendingPart(rs, lsn);
            && a + b == rs[CheckpointedCount(rs, lsn)..]
            && (a != [] ==> IsCommit(a[|a| - 1]))
            && (forall r | r in b :: !IsCommit(r))
  {
    hide CommittedLen, CheckpointedCount;
  }

  lemma {:induction false} CountAtMost(rs: seq<Record>, n: nat, lsn: u64)
    requires n <= |rs| && forall i | 0 <= i < |rs| :: rs[i].lsn <= lsn <==> i < n
    ensures CheckpointedCount(rs, lsn) == n
    decreases n
  {
    if n > 0 {
      forall i | 0 <= i < |rs[1..]| ensures rs[1..][i].lsn <= lsn <==> i < n - 1 {
        assert rs[1..][i] == rs[i + 1];
      }
      CountAtMost(rs[1..], n - 1, lsn);
    }
  }
}
