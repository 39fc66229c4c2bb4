/** The session router as a whole (core/session_router.go): producers, flush callers,
    the tickers and the workers, interleaved message by message. */
module RouterProtocol {
  import opened Prelude
  import opened RouterWorker

  datatype IngestRecord = IngestRecord(tableName: string, shardKey: string, buildShardKey: string, data: nat)

  datatype Message = Rec(record: IngestRecord) | FlushMarker

  /** A worker serves its queue, has returned an error, or has drained its closed queue. */
  datatype Status = Running | Stopped | Done

  /** One worker: everything its channel ever accepted, of which it has received a
      prefix; and a history: the replies to flush markers by position, the records
      put, and for every dropped row what the worker was receiving then. */
  datatype Worker = Worker(shard: string, capacity: nat, accepted: seq<Message>, received: nat, closed: bool,
                           status: Status,
                           books: Books, replies: map<nat, bool>, puts: seq<nat>, lostAt: map<nat, nat>)

  type Fault = Option<(string, set<nat>)>

  datatype Action =
    | Send(message: Message)
    | CloseQueue
    | Put(outcome: PutOutcome)
    | Command(flushed: set<string>, failed: Fault)
    | Tick(flushed: set<string>, dropped: set<string>, failed: Fault)
    | Drain(flushed: set<string>, failed: Fault)

  predicate CanRound(b: Books, flushed: set<string>, dropped: set<string>, failed: Fault) {
    flushed <= b.buffers.Keys && dropped <= flushed
    && (failed.Some? ==> failed.value.0 in b.buffers && failed.value.0 !in flushed)
  }

  predicate Enabled(w: Worker, a: Action) {
    match a
    case Send(_) => !w.closed && |w.accepted| < w.received + w.capacity
    case CloseQueue => !w.closed
    case Put(_) => w.status.Running? && w.received < |w.accepted| && w.accepted[w.received].Rec?
    case Command(flushed, failed) =>
      && w.status.Running? && w.received < |w.accepted| && w.accepted[w.received].FlushMarker?
      && CanRound(w.books, flushed, {}, failed) && (failed.None? ==> flushed == w.books.buffers.Keys)
    case Tick(flushed, dropped, failed) => w.status.Running? && CanRound(w.books, flushed, dropped, failed)
    case Drain(flushed, failed) =>
      && w.status.Running? && w.closed && w.received == |w.accepted|
      && CanRound(w.books, flushed, flushed, failed) && (failed.None? ==> flushed == w.books.buffers.Keys)
  }

  function LostAt(lostAt: map<nat, nat>, before: set<nat>, after: set<nat>, position: nat): map<nat, nat> {
    lostAt + map i | i in after - before :: position
  }

  /** The worker after its books changed while it was at `w.received`. */
  function WithBooks(w: Worker, b: Books): Worker {
    w.(books := b, lostAt := LostAt(w.lostAt, w.books.lost, b.lost, w.received))
  }

  function Step(w: Worker, a: Action): Worker
    requires Enabled(w, a)
  {
    match a
    case Send(message) => w.(accepted := w.accepted + [message])
    case CloseQueue => w.(closed := true)
    case Put(o) =>
      var key := ShardTableKey(w.shard, w.accepted[w.received].record.tableName);
      WithBooks(w, PutBooks(w.books, key, w.received, o)).(
        received := w.received + 1,
        status := if PutOk(w.books, key, o) then Running else Stopped,
        puts := if (key in w.books.buffers || o.canOpen) && o.accepted then w.puts + [w.received] else w.puts)
    case Command(flushed, failed) =>
      WithBooks(w, RoundBooks(w.books, flushed, {}, failed)).(
        received := w.received + 1, replies := w.replies[w.received := failed.None?])
    case Tick(flushed, dropped, failed) =>
      WithBooks(w, RoundBooks(w.books, flushed, dropped, failed)).(
        status := if failed.None? then Running else Stopped)
    case Drain(flushed, failed) =>
      WithBooks(w, RoundBooks(w.books, flushed, flushed, failed)).(
        status := if failed.None? then Done else Stopped)
  }

  // ----- What every step of a worker keeps -----

  predicate IsRecord(accepted: seq<Message>, i: nat) {
    i < |accepted| && accepted[i].Rec?
  }

  predicate Answered(replies: map<nat, bool>, j: nat, ok: bool) {
    j in replies && replies[j] == ok
  }

  /** The row reached the backend or was dropped by a failed flush. */
  predicate Settled(b: Books, i: nat) {
    i in b.delivered || i in b.lost
  }

  predicate InBuffer(b: Books, i: nat) {
    exists key | key in b.buffers :: i in b.buffers[key]
  }

  /** Every record received is somewhere, unless the worker has given up. */
  ghost predicate PlacedInv(accepted: seq<Message>, received: nat, status: Status, b: Books) {
    !status.Stopped? ==> forall i: nat | i < received && IsRecord(accepted, i) :: InBuffer(b, i) || Settled(b, i)
  }

  /** A successful reply settled what was received before its marker, and what is
      buffered came later. */
  ghost predicate BarrierInv(accepted: seq<Message>, received: nat, b: Books, replies: map<nat, bool>) {
    && (forall j | j in replies :: j < received)
    && (forall i: nat, j: nat | i < j && Answered(replies, j, true) && IsRecord(accepted, i) :: Settled(b, i))
    && (forall i: nat, j: nat | InBuffer(b, i) && Answered(replies, j, true) :: j < i)
    && (forall i: nat | InBuffer(b, i) :: i < received)
  }

  /** A row dropped before a successful reply was dropped by a marker whose reply was
      an error. */
  ghost predicate LostInv(received: nat, status: Status, b: Books, replies: map<nat, bool>, lostAt: map<nat, nat>) {
    && lostAt.Keys == b.lost
    && (forall i | i in lostAt :: i <= lostAt[i])
    && (!status.Stopped? ==> forall i | i in lostAt :: i < lostAt[i] && Answered(replies, lostAt[i], false))
    && (forall i: nat, j: nat | i in lostAt && i < j && Answered(replies, j, true) ::
          i < lostAt[i] < j && Answered(replies, lostAt[i], false))
  }

  predicate HasRow(b: Books, key: string, i: nat) {
    key in b.buffers && i in b.buffers[key]
  }

  /** A row is in one buffer, with the backend or dropped, and in only one of these. */
  ghost predicate ExactInv(received: nat, b: Books) {
    && (forall i | i in b.delivered :: i < received)
    && (forall i | i in b.lost :: i < received && i !in b.delivered)
    && (forall key, i: nat | HasRow(b, key, i) :: i < received && !Settled(b, i))
    && (forall key, key', i: nat | HasRow(b, key, i) && HasRow(b, key', i) :: key == key')
  }

  /** The positions of the records among the first `n` messages, in order. */
  function RecordsOf(accepted: seq<Message>, n: nat): seq<nat>
    requires n <= |accepted|
  {
    if n == 0 then []
    else RecordsOf(accepted, n - 1) + if accepted[n - 1].Rec? then [n - 1] else []
  }

  /** Records are put in the order they were accepted. */
  ghost predicate OrderInv(accepted: seq<Message>, received: nat, status: Status, puts: seq<nat>) {
    && received <= |accepted| && puts <= RecordsOf(accepted, received)
    && (!status.Stopped? ==> puts == RecordsOf(accepted, received))
  }

  ghost predicate DoneInv(w: Worker) {
    w.status.Done? ==> w.closed && w.received == |w.accepted| && w.books.buffers == map[]
  }

  ghost predicate Inv(w: Worker) {
    && OrderInv(w.accepted, w.received, w.status, w.puts)
    && PlacedInv(w.accepted, w.received, w.status, w.books)
    && BarrierInv(w.accepted, w.received, w.books, w.replies)
    && LostInv(w.received, w.status, w.books, w.replies, w.lostAt)
    && ExactInv(w.received, w.books)
    && DoneInv(w)
  }

  function Start(shard: string, capacity: nat): Worker {
    Worker(shard, capacity, [], 0, false, Running, Books(map[], {}, {}), map[], [], map[])
  }

  lemma StartInv(shard: string, capacity: nat)
    ensures Inv(Start(shard, capacity))
  {
  }

  // ----- How a flush moves rows -----

  /** Rows move from the buffers to the backend or get lost, and nowhere else. */
  ghost predicate Moves(b: Books, b': Books) {
    && b.delivered <= b'.delivered && b.lost <= b'.lost
    && (forall i | InBuffer(b, i) :: InBuffer(b', i) || Settled(b', i))
    && (forall i | InBuffer(b', i) :: InBuffer(b, i))
    && (forall i | i in b'.lost :: i in b.lost || InBuffer(b, i))
  }

  lemma FlushOneMoves(b: Books, key: string, outcome: FlushOutcome)
    requires key in b.buffers
    ensures Moves(b, FlushOne(b, key, outcome))
    ensures outcome.Sent? ==> FlushOne(b, key, outcome).lost == b.lost
  {
    var b' := FlushOne(b, key, outcome);
    forall i | InBuffer(b, i) ensures InBuffer(b', i) || Settled(b', i) {
      var k :| k in b.buffers && i in b.buffers[k];
      assert k != key ==> k in b'.buffers && i in b'.buffers[k];
    }
    forall i | InBuffer(b', i) ensures InBuffer(b, i) {
      var k :| k in b'.buffers && i in b'.buffers[k];
      assert k in b.buffers && i in b.buffers[k];
    }
  }

  lemma RoundMoves(b: Books, flushed: set<string>, dropped: set<string>, failed: Fault)
    requires CanRound(b, flushed, dropped, failed)
    ensures Moves(b, RoundBooks(b, flushed, dropped, failed))
    ensures failed.None? ==> RoundBooks(b, flushed, dropped, failed).lost == b.lost
    ensures failed.None? && flushed == b.buffers.Keys ==> forall i ::
            !InBuffer(RoundBooks(b, flushed, dropped, failed), i)
  {
    var r := Forget(FlushAll(b, flushed), dropped);
    assert Moves(b, r) by { FlushedMoves(b, flushed, dropped); }
    if failed.Some? {
      FlushOneMoves(r, failed.value.0, Failed(failed.value.1));
      MovesTwice(b, r, RoundBooks(b, flushed, dropped, failed));
    }
  }

  lemma FlushedMoves(b: Books, flushed: set<string>, dropped: set<string>)
    requires dropped <= flushed
    ensures Moves(b, Forget(FlushAll(b, flushed), dropped))
  {
    var r := Forget(FlushAll(b, flushed), dropped);
    forall i | InBuffer(b, i) ensures InBuffer(r, i) || Settled(r, i) {
      var k :| k in b.buffers && i in b.buffers[k];
      assert k in flushed ==> i in Buffered(b.buffers, flushed);
      assert k !in flushed ==> k in r.buffers && i in r.buffers[k];
    }
    forall i | InBuffer(r, i) ensures InBuffer(b, i) {
      var k :| k in r.buffers && i in r.buffers[k];
      assert k in b.buffers && i in b.buffers[k];
    }
  }

  lemma MovesTwice(a: Books, b: Books, c: Books)
    requires Moves(a, b) && Moves(b, c)
    ensures Moves(a, c)
  {
    hide InBuffer;
  }

  lemma FlushOneExact(received: nat, b: Books, key: string, outcome: FlushOutcome)
    requires ExactInv(received, b) && key in b.buffers
    ensures ExactInv(received, FlushOne(b, key, outcome))
  {
    var b' := FlushOne(b, key, outcome);
    assert forall i | i in b.buffers[key] :: HasRow(b, key, i);
    assert forall k, i | HasRow(b', k, i) :: HasRow(b, k, i) && k != key;
  }

  lemma RoundExact(received: nat, b: Books, flushed: set<string>, dropped: set<string>, failed: Fault)
    requires ExactInv(received, b) && CanRound(b, flushed, dropped, failed)
    ensures ExactInv(received, RoundBooks(b, flushed, dropped, failed))
  {
    FlushedExact(received, b, flushed, dropped);
    if failed.Some? {
      FlushOneExact(received, Forget(FlushAll(b, flushed), dropped), failed.value.0, Failed(failed.value.1));
    }
  }

  lemma FlushedExact(received: nat, b: Books, flushed: set<string>, dropped: set<string>)
    requires ExactInv(received, b)
    ensures ExactInv(received, Forget(FlushAll(b, flushed), dropped))
  {
    var r := Forget(FlushAll(b, flushed), dropped);
    assert forall i | i in Buffered(b.buffers, flushed) :: exists key :: key in flushed && HasRow(b, key, i);
    assert forall key, i | HasRow(r, key, i) :: HasRow(b, key, i) && key !in flushed;
  }

  lemma PutExact(received: nat, b: Books, key: string, o: PutOutcome)
    requires ExactInv(received, b)
    ensures ExactInv(received + 1, PutBooks(b, key, received, o))
  {
    var rows := if key in b.buffers then b.buffers[key] else {};
    var mid := b.(buffers := b.buffers[key := if o.accepted then rows + {received} else rows]);
    assert forall k, i | HasRow(mid, k, i) :: HasRow(b, k, i) || (k == key && i == received);
    assert ExactInv(received + 1, mid);
    if o.accepted && o.flush.Some? {
      FlushOneExact(received + 1, mid, key, o.flush.value);
    }
  }

  lemma ExactLater(received: nat, b: Books)
    requires ExactInv(received, b)
    ensures ExactInv(received + 1, b)
  {
  }

  // ----- Every step of a worker keeps the invariant -----

  /** What a step does to the books: rows move, and a row it drops was not settled
      by any successful reply so far. */
  ghost predicate Handles(w: Worker, b': Books) {
    && w.books.delivered <= b'.delivered && w.books.lost <= b'.lost
    && (forall i: nat | i in b'.lost && i !in w.books.lost :: i <= w.received)
    && (forall i: nat, j: nat | i in b'.lost && i !in w.books.lost && Answered(w.replies, j, true) :: j < i)
  }

  lemma LostKeeps(w: Worker, b': Books, status: Status)
    requires Inv(w) && Handles(w, b') && (b'.lost == w.books.lost || status.Stopped?)
             && (w.status.Stopped? ==> status.Stopped?)
    ensures LostInv(w.received, status, b', w.replies, LostAt(w.lostAt, w.books.lost, b'.lost, w.received))
  {
    hide ExactInv, PlacedInv, OrderInv, BarrierInv, DoneInv, InBuffer;
    var lostAt' := LostAt(w.lostAt, w.books.lost, b'.lost, w.received);
    assert forall i | i in w.lostAt :: i in lostAt' && lostAt'[i] == w.lostAt[i];
    assert lostAt'.Keys == b'.lost;
  }

  lemma BarrierKeeps(w: Worker, b': Books, received: nat)
    requires Inv(w) && w.received <= received
    requires w.books.delivered <= b'.delivered && w.books.lost <= b'.lost
    requires forall i: nat | InBuffer(b', i) :: InBuffer(w.books, i) || (i == w.received && i < received)
    ensures BarrierInv(w.accepted, received, b', w.replies)
  {
    hide ExactInv, PlacedInv, OrderInv, LostInv, DoneInv, InBuffer;
  }

  lemma HandlesMoves(w: Worker, b': Books)
    requires Inv(w) && Moves(w.books, b')
    ensures Handles(w, b')
  {
    hide ExactInv, PlacedInv, OrderInv, LostInv, DoneInv, InBuffer;
  }

  lemma SendInv(w: Worker, message: Message)
    requires Inv(w) && Enabled(w, Send(message))
    ensures Inv(Step(w, Send(message)))
  {
    hide ExactInv, LostInv, InBuffer;
    var accepted' := w.accepted + [message];
    RecordsStay(w.accepted, message, w.received);
    assert forall i: nat | i < w.received :: IsRecord(accepted', i) == IsRecord(w.accepted, i);
    assert forall j | j in w.replies :: j < w.received;
  }

  lemma {:induction false} RecordsStay(accepted: seq<Message>, message: Message, n: nat)
    requires n <= |accepted|
    ensures RecordsOf(accepted + [message], n) == RecordsOf(accepted, n)
  {
    if n > 0 {
      RecordsStay(accepted, message, n - 1);
    }
  }

  /** A record goes into its session's buffer, which is perhaps flushed. */
  lemma PutMoves(b: Books, key: string, r: nat, o: PutOutcome)
    ensures var b' := PutBooks(b, key, r, o);
            && b.delivered <= b'.delivered && b.lost <= b'.lost
            && (forall i | InBuffer(b, i) :: InBuffer(b', i) || Settled(b', i))
            && (forall i | InBuffer(b', i) :: InBuffer(b, i) || i == r)
            && (forall i | i in b'.lost :: i in b.lost || InBuffer(b, i) || i == r)
            && (PutOk(b, key, o) ==> b'.lost == b.lost && (InBuffer(b', r) || Settled(b', r)))
  {
    var rows := if key in b.buffers then b.buffers[key] else {};
    var mid := b.(buffers := b.buffers[key := if o.accepted then rows + {r} else rows]);
    MidMoves(b, key, r, o.accepted, rows, mid);
    if o.accepted && o.flush.Some? {
      FlushOneMoves(mid, key, o.flush.value);
    }
  }

  lemma MidMoves(b: Books, key: string, r: nat, accepted: bool, rows: set<nat>, mid: Books)
    requires rows == if key in b.buffers then b.buffers[key] else {}
    requires mid == b.(buffers := b.buffers[key := if accepted then rows + {r} else rows])
    ensures forall i | InBuffer(b, i) :: InBuffer(mid, i)
    ensures forall i | InBuffer(mid, i) :: InBuffer(b, i) || i == r
    ensures accepted ==> InBuffer(mid, r)
  {
    forall i | InBuffer(b, i) ensures InBuffer(mid, i) {
      var k :| k in b.buffers && i in b.buffers[k];
      assert k in mid.buffers && i in mid.buffers[k];
    }
    forall i | InBuffer(mid, i) ensures InBuffer(b, i) || i == r {
      var k :| k in mid.buffers && i in mid.buffers[k];
      assert i != r ==> k in b.buffers && i in b.buffers[k];
    }
    if accepted {
      assert key in mid.buffers && r in mid.buffers[key];
    }
  }

  lemma PutInv(w: Worker, o: PutOutcome)
    requires Inv(w) && Enabled(w, Put(o))
    ensures Inv(Step(w, Put(o)))
  {
    hide ExactInv, LostInv, BarrierInv, InBuffer, PutBooks, LostAt;
    var key := ShardTableKey(w.shard, w.accepted[w.received].record.tableName);
    var b' := PutBooks(w.books, key, w.received, o);
    PutMoves(w.books, key, w.received, o);
    PutHandles(w, b');
    PutExact(w.received, w.books, key, o);
    var w' := Step(w, Put(o));
    LostKeeps(w, b', w'.status);
    LostLater(w.received, w'.status, b', w.replies, w'.lostAt);
    BarrierKeeps(w, b', w.received + 1);
  }

  lemma PutHandles(w: Worker, b': Books)
    requires Inv(w) && w.books.delivered <= b'.delivered && w.books.lost <= b'.lost
    requires forall i | i in b'.lost :: i in w.books.lost || InBuffer(w.books, i) || i == w.received
    ensures Handles(w, b')
  {
    hide ExactInv, PlacedInv, OrderInv, LostInv, DoneInv, InBuffer;
    assert forall j: nat | Answered(w.replies, j, true) :: j < w.received;
  }

  lemma LostLater(received: nat, status: Status, b: Books, replies: map<nat, bool>, lostAt: map<nat, nat>)
    requires LostInv(received, status, b, replies, lostAt)
    ensures LostInv(received + 1, status, b, replies, lostAt)
  {
  }

  lemma CommandInv(w: Worker, flushed: set<string>, failed: Fault)
    requires Inv(w) && Enabled(w, Command(flushed, failed))
    ensures Inv(Step(w, Command(flushed, failed)))
  {
    hide ExactInv, LostInv, BarrierInv, InBuffer, RoundBooks, LostAt, Moves;
    var b' := RoundBooks(w.books, flushed, {}, failed);
    RoundMoves(w.books, flushed, {}, failed);
    RoundExact(w.received, w.books, flushed, {}, failed);
    ExactLater(w.received, b');
    MovedPlaced(w, b', w.received);
    CommandBarrier(w, b', failed.None?);
    CommandLost(w, b', failed.None?);
    assert PlacedInv(w.accepted, w.received + 1, w.status, b');
  }

  lemma MovedPlaced(w: Worker, b': Books, received: nat)
    requires Inv(w) && Moves(w.books, b')
    ensures PlacedInv(w.accepted, w.received, w.status, b')
    ensures (forall i :: !InBuffer(b', i)) && !w.status.Stopped? ==>
              forall i: nat | i < w.received && IsRecord(w.accepted, i) :: Settled(b', i)
  {
    hide ExactInv, LostInv, BarrierInv, InBuffer, OrderInv, DoneInv;
  }

  lemma CommandBarrier(w: Worker, b': Books, ok: bool)
    requires Inv(w) && Moves(w.books, b') && w.status.Running?
    requires ok ==> forall i :: !InBuffer(b', i)
    ensures BarrierInv(w.accepted, w.received + 1, b', w.replies[w.received := ok])
  {
    hide ExactInv, LostInv, OrderInv, DoneInv, InBuffer, Moves;
    MovedPlaced(w, b', w.received);
    MovesParts(w.books, b');
    BarrierKeeps(w, b', w.received + 1);
    var replies' := w.replies[w.received := ok];
    assert forall j: nat | Answered(replies', j, true) :: (j == w.received && ok) || Answered(w.replies, j, true);
  }

  lemma MovesParts(b: Books, b': Books)
    requires Moves(b, b')
    ensures b.delivered <= b'.delivered && b.lost <= b'.lost
    ensures forall i | InBuffer(b', i) :: InBuffer(b, i)
  {
    hide InBuffer;
  }

  lemma CommandLost(w: Worker, b': Books, ok: bool)
    requires Inv(w) && Moves(w.books, b') && w.status.Running?
    requires ok ==> b'.lost == w.books.lost
    ensures LostInv(w.received + 1, Running, b', w.replies[w.received := ok],
                    LostAt(w.lostAt, w.books.lost, b'.lost, w.received))
  {
    hide ExactInv, PlacedInv, OrderInv, DoneInv, InBuffer, Moves;
    HandlesMoves(w, b');
    var replies' := w.replies[w.received := ok];
    var lostAt' := LostAt(w.lostAt, w.books.lost, b'.lost, w.received);
    assert forall i | i in w.lostAt :: i in lostAt' && lostAt'[i] == w.lostAt[i];
    assert lostAt'.Keys == b'.lost;
    NewLost(w, b');
    assert forall j: nat | Answered(replies', j, true) :: (j == w.received && ok) || Answered(w.replies, j, true);
    assert forall j: nat | Answered(w.replies, j, false) :: j < w.received && Answered(replies', j, false);
  }

  lemma NewLost(w: Worker, b': Books)
    requires Inv(w) && Moves(w.books, b')
    ensures forall i: nat | i in b'.lost && i !in w.books.lost :: i < w.received
  {
    hide ExactInv, PlacedInv, OrderInv, LostInv, DoneInv, InBuffer;
  }

  lemma TickInv(w: Worker, flushed: set<string>, dropped: set<string>, failed: Fault, status: Status)
    requires Inv(w) && w.status.Running? && CanRound(w.books, flushed, dropped, failed)
    requires failed.Some? ==> status.Stopped?
    requires status.Done? ==> w.closed && w.received == |w.accepted| && flushed == dropped == w.books.buffers.Keys
    ensures Inv(WithBooks(w, RoundBooks(w.books, flushed, dropped, failed)).(status := status))
  {
    hide ExactInv, LostInv, BarrierInv, InBuffer, LostAt, Moves;
    var b' := RoundBooks(w.books, flushed, dropped, failed);
    RoundMoves(w.books, flushed, dropped, failed);
    RoundExact(w.received, w.books, flushed, dropped, failed);
    MovedPlaced(w, b', w.received);
    HandlesMoves(w, b');
    LostKeeps(w, b', status);
    MovesParts(w.books, b');
    BarrierKeeps(w, b', w.received);
  }

  lemma StepInv(w: Worker, a: Action)
    requires Inv(w) && Enabled(w, a)
    ensures Inv(Step(w, a))
  {
    hide CanRound, RoundBooks, WithBooks, Inv;
    match a
    case Send(message) => SendInv(w, message);
    case CloseQueue => CloseInv(w);
    case Put(o) => PutInv(w, o);
    case Command(flushed, failed) => CommandInv(w, flushed, failed);
    case Tick(flushed, dropped, failed) =>
      TickInv(w, flushed, dropped, failed, if failed.None? then Running else Stopped);
    case Drain(flushed, failed) => TickInv(w, flushed, flushed, failed, if failed.None? then Done else Stopped);
  }

  lemma CloseInv(w: Worker)
    requires Inv(w)
    ensures Inv(w.(closed := true))
  {
    hide ExactInv, PlacedInv, OrderInv, LostInv, BarrierInv;
  }

  // ----- The router: many workers -----

  /** What the router is configured with: white-space trimming and the rendezvous
      hash over the shard identifiers. */
  datatype Routing = Routing(trim: string -> string, hash: string -> string)

  datatype Event =
    | Enqueue(record: IngestRecord)
    | At(shard: string, action: Action)

  /** RouteShardKey. */
  function RouteShardKey(c: Routing, record: IngestRecord): string {
    if c.trim(record.buildShardKey) != "" then c.trim(record.buildShardKey) else c.trim(record.shardKey)
  }

  predicate Accepts(c: Routing, shards: set<string>, record: IngestRecord) {
    record.tableName != "" && RouteShardKey(c, record) != "" && c.hash(RouteShardKey(c, record)) in shards
  }

  /** A record is accepted exactly if it has a table, and a build key or else a shard key
      whose shard has a channel. */
  lemma AcceptsIff(c: Routing, shards: set<string>, record: IngestRecord)
    ensures var build, key := c.trim(record.buildShardKey), c.trim(record.shardKey);
            Accepts(c, shards, record) <==>
            && record.tableName != ""
            && if build != "" then c.hash(build) in shards else key != "" && c.hash(key) in shards
  {
  }

  predicate CanHappen(c: Routing, r: map<string, Worker>, e: Event) {
    match e
    case Enqueue(record) =>
      Accepts(c, r.Keys, record) && Enabled(r[c.hash(RouteShardKey(c, record))], Send(Rec(record)))
    case At(shard, a) => shard in r && Enabled(r[shard], a) && (a.Send? ==> a.message.FlushMarker?)
  }

  function Happen(c: Routing, r: map<string, Worker>, e: Event): map<string, Worker>
    requires CanHappen(c, r, e)
  {
    var shard := if e.Enqueue? then c.hash(RouteShardKey(c, e.record)) else e.shard;
    r[shard := Step(r[shard], if e.Enqueue? then Send(Rec(e.record)) else e.action)]
  }

  ghost predicate Routed(c: Routing, shard: string, accepted: seq<Message>) {
    forall i: nat | IsRecord(accepted, i) :: c.hash(RouteShardKey(c, accepted[i].record)) == shard
  }

  ghost predicate RouterInv(c: Routing, r: map<string, Worker>) {
    forall shard | shard in r :: Inv(r[shard]) && Routed(c, shard, r[shard].accepted)
  }

  /** Between two states, queues only grew at their ends and no dropped row came back. */
  ghost predicate Later(r: map<string, Worker>, r': map<string, Worker>) {
    r.Keys == r'.Keys
    && forall shard | shard in r ::
       r[shard].accepted <= r'[shard].accepted && r[shard].books.lost <= r'[shard].books.lost
  }

  lemma StepGrows(w: Worker, a: Action)
    requires Enabled(w, a)
    ensures w.accepted <= Step(w, a).accepted && w.books.lost <= Step(w, a).books.lost
    ensures !a.Send? ==> Step(w, a).accepted == w.accepted
    ensures a.Send? ==> Step(w, a).accepted == w.accepted + [a.message]
  {
    hide RoundBooks, PutBooks, LostAt, CanRound, InBuffer;
    match a {
      case Put(o) => PutMoves(w.books, ShardTableKey(w.shard, w.accepted[w.received].record.tableName), w.received, o);
      case Command(flushed, failed) => RoundMoves(w.books, flushed, {}, failed);
      case Tick(flushed, dropped, failed) => RoundMoves(w.books, flushed, dropped, failed);
      case Drain(flushed, failed) => RoundMoves(w.books, flushed, flushed, failed);
      case _ =>
    }
  }

  lemma HappenInv(c: Routing, r: map<string, Worker>, e: Event)
    requires RouterInv(c, r) && CanHappen(c, r, e)
    ensures RouterInv(c, Happen(c, r, e)) && Later(r, Happen(c, r, e))
  {
    hide Inv, Step;
    var shard := if e.Enqueue? then c.hash(RouteShardKey(c, e.record)) else e.shard;
    var a := if e.Enqueue? then Send(Rec(e.record)) else e.action;
    StepInv(r[shard], a);
    StepGrows(r[shard], a);
  }

  predicate Runs(c: Routing, r: map<string, Worker>, events: seq<Event>)
    decreases |events|
  {
    events == [] || (CanHappen(c, r, events[0]) && Runs(c, Happen(c, r, events[0]), events[1..]))
  }

  function After(c: Routing, r: map<string, Worker>, events: seq<Event>): map<string, Worker>
    requires Runs(c, r, events)
    decreases |events|
  {
    if events == [] then r else After(c, Happen(c, r, events[0]), events[1..])
  }

  lemma {:induction false} RunInv(c: Routing, r: map<string, Worker>, events: seq<Event>)
    requires RouterInv(c, r) && Runs(c, r, events)
    ensures RouterInv(c, After(c, r, events)) && Later(r, After(c, r, events))
    decreases |events|
  {
    hide RouterInv, Happen, CanHappen;
    if events != [] {
      HappenInv(c, r, events[0]);
      RunInv(c, Happen(c, r, events[0]), events[1..]);
    }
  }

  function NewRouter(shards: set<string>, capacity: nat): map<string, Worker> {
    map shard | shard in shards :: Start(shard, capacity)
  }

  lemma NewRouterInv(c: Routing, shards: set<string>, capacity: nat)
    ensures RouterInv(c, NewRouter(shards, capacity))
  {
    forall shard | shard in shards ensures Inv(Start(shard, capacity)) {
      StartInv(shard, capacity);
    }
  }

  // ----- The guarantees -----

  /** A Flush that began in `before` and whose markers, at these positions, were all
      answered without error: exactly then it returns nil. */
  ghost predicate FlushReturnsNil(before: map<string, Worker>, now: map<string, Worker>, markers: map<string, nat>) {
    markers.Keys == now.Keys
    && forall shard | shard in now ::
         && (shard in before ==> |before[shard].accepted| <= markers[shard])
         && Answered(now[shard].replies, markers[shard], true)
  }

  /** Every record whose Enqueue had returned when Flush was called is with the backend
      when Flush returns nil, unless another flush command dropped it between its
      arrival and this flush; that command answered its caller with an error. */
  lemma FlushBarrier(c: Routing, shards: set<string>, capacity: nat, events: seq<Event>, more: seq<Event>,
                     markers: map<string, nat>, shard: string, i: nat)
    requires Runs(c, NewRouter(shards, capacity), events)
    requires Runs(c, After(c, NewRouter(shards, capacity), events), more)
    requires var before := After(c, NewRouter(shards, capacity), events);
             && FlushReturnsNil(before, After(c, before, more), markers)
             && shard in before && IsRecord(before[shard].accepted, i)
    ensures var now := After(c, After(c, NewRouter(shards, capacity), events), more);
            shard in now && shard in markers && DeliveredUnlessDropped(now[shard], i, markers[shard])
  {
    hide Runs, After, Inv, Routed, DeliveredUnlessDropped;
    NewRouterInv(c, shards, capacity);
    RunInv(c, NewRouter(shards, capacity), events);
    var before := After(c, NewRouter(shards, capacity), events);
    RunInv(c, before, more);
    var now := After(c, before, more);
    assert before[shard].accepted <= now[shard].accepted;
    WorkerBarrier(now[shard], i, markers[shard]);
  }

  ghost predicate DeliveredUnlessDropped(w: Worker, i: nat, end: nat) {
    && (i in w.books.delivered <==> i !in w.books.lost)
    && (i in w.books.lost ==> i in w.lostAt && i < w.lostAt[i] < end && Answered(w.replies, w.lostAt[i], false))
  }

  lemma WorkerBarrier(w: Worker, i: nat, j: nat)
    requires Inv(w) && i < j && Answered(w.replies, j, true) && IsRecord(w.accepted, i)
    ensures DeliveredUnlessDropped(w, i, j)
  {
    hide OrderInv, PlacedInv, DoneInv, InBuffer;
  }

  /** So a flush delivers a record queued before it if the record's worker answered no
      flush command between the two with an error. */
  lemma FlushDelivers(c: Routing, shards: set<string>, capacity: nat, events: seq<Event>, more: seq<Event>,
                      markers: map<string, nat>, shard: string, i: nat)
    requires Runs(c, NewRouter(shards, capacity), events)
    requires Runs(c, After(c, NewRouter(shards, capacity), events), more)
    requires var before := After(c, NewRouter(shards, capacity), events);
             var now := After(c, before, more);
             && FlushReturnsNil(before, now, markers)
             && shard in before && IsRecord(before[shard].accepted, i)
             && (shard in now && shard in markers ==>
                   forall j: nat | i < j < markers[shard] :: !Answered(now[shard].replies, j, false))
    ensures var now := After(c, After(c, NewRouter(shards, capacity), events), more);
            shard in now && i in now[shard].books.delivered
  {
    hide Runs, After, FlushReturnsNil;
    FlushBarrier(c, shards, capacity, events, more, markers, shard, i);
  }

  /** The condition is needed. A flush command that fails drops the rows it did not
      deliver, because the session has already replaced its buffer, and the worker
      goes on; the next flush command finds nothing to send, succeeds, and the row
      is not with the backend. */
  lemma FailedFlushForgets(w: Worker, key: string, part: set<nat>, i: nat)
    requires Inv(w) && w.status.Running? && w.received + 1 < |w.accepted|
    requires w.accepted[w.received].FlushMarker? && w.accepted[w.received + 1].FlushMarker?
    requires key in w.books.buffers && i in w.books.buffers[key] && i !in part
    ensures Enabled(w, Command({}, Some((key, part))))
    ensures var w1 := Step(w, Command({}, Some((key, part))));
            && Answered(w1.replies, w.received, false) && w1.status.Running?
            && Enabled(w1, Command(w1.books.buffers.Keys, None))
            && var w2 := Step(w1, Command(w1.books.buffers.Keys, None));
               Answered(w2.replies, w1.received, true) && i !in w2.books.delivered
  {
    hide OrderInv, PlacedInv, DoneInv, InBuffer, LostInv, BarrierInv, ExactInv;
    var failing := Command({}, Some((key, part)));
    assert Enabled(w, failing);
    StepInv(w, failing);
    var w1 := Step(w, failing);
    assert i in w1.books.lost;
    var next := Command(w1.books.buffers.Keys, None);
    StepInv(w1, next);
    StepGrows(w1, next);
    LostNotDelivered(Step(w1, next), i);
  }

  lemma {:induction false} RunsThen(c: Routing, r: map<string, Worker>, events: seq<Event>, e: Event)
    requires Runs(c, r, events) && CanHappen(c, After(c, r, events), e)
    ensures Runs(c, r, events + [e]) && After(c, r, events + [e]) == Happen(c, After(c, r, events), e)
    decreases |events|
  {
    hide CanHappen, Happen;
    if events == [] {
      assert [e][1..] == [] && events + [e] == [e];
    } else {
      assert (events + [e])[1..] == events[1..] + [e];
      RunsThen(c, Happen(c, r, events[0]), events[1..], e);
    }
  }

  /** A router with one worker, and one step of that worker. */
  lemma OneWorkerThen(c: Routing, r: map<string, Worker>, events: seq<Event>, shard: string, w: Worker, a: Action)
    requires Runs(c, r, events) && After(c, r, events) == map[shard := w] && Enabled(w, a)
    requires a.Send? ==> a.message.FlushMarker?
    ensures Runs(c, r, events + [At(shard, a)]) && After(c, r, events + [At(shard, a)]) == map[shard := Step(w, a)]
  {
    hide Enabled, Step, Runs, After;
    RunsThen(c, r, events, At(shard, a));
    assert map[shard := w][shard := Step(w, a)] == map[shard := Step(w, a)];
  }

  /** The smallest such run, in a router with one worker: a record is accepted and put, a
      flush of it fails, and the next Flush returns nil although the record is not with
      the backend. */
  lemma FlushLosesRecord(c: Routing, shard: string, capacity: nat, record: IngestRecord)
    returns (events: seq<Event>, more: seq<Event>)
    requires capacity > 0 && Accepts(c, {shard}, record)
    ensures Runs(c, NewRouter({shard}, capacity), events)
    ensures Runs(c, After(c, NewRouter({shard}, capacity), events), more)
    ensures var before := After(c, NewRouter({shard}, capacity), events);
            var now := After(c, before, more);
            && FlushReturnsNil(before, now, map[shard := 2])
            && shard in before && shard in now && IsRecord(before[shard].accepted, 0)
            && 0 !in now[shard].books.delivered
  {
    hide Runs, After;
    var r, w := NewRouter({shard}, capacity), Start(shard, capacity);
    assert r == map[shard := w];
    var key := ShardTableKey(shard, record.tableName);
    RunsNothing(c, r);
    RunsThen(c, r, [], Enqueue(record));
    w := Step(w, Send(Rec(record)));
    assert map[shard := Start(shard, capacity)][shard := w] == map[shard := w];
    events := [] + [Enqueue(record)];
    w, events := FailedCommand(c, r, events, shard, w, key);
    more := SecondCommand(c, events, shard, w, r);
  }

  lemma RunsNothing(c: Routing, r: map<string, Worker>)
    ensures Runs(c, r, []) && After(c, r, []) == r
  {
  }

  lemma FailedCommand(c: Routing, r: map<string, Worker>, events: seq<Event>, shard: string, w: Worker, key: string)
    returns (w': Worker, events': seq<Event>)
    requires Runs(c, r, events) && After(c, r, events) == map[shard := w]
    requires w.accepted != [] && w == Start(shard, w.capacity).(accepted := w.accepted) && |w.accepted| == 1
             && w.capacity > 0
    requires w.accepted[0].Rec? && key == ShardTableKey(shard, w.accepted[0].record.tableName)
    ensures Runs(c, r, events') && After(c, r, events') == map[shard := w']
    ensures w'.status.Running? && !w'.closed && w'.received == |w'.accepted| == 2 && w'.accepted[0] == w.accepted[0]
    ensures w'.capacity == w.capacity && w'.books == Books(map[key := {}], {}, {0})
  {
    hide Runs, After;
    var put := Put(PutOutcome(true, true, None));
    OneWorkerThen(c, r, events, shard, w, put);
    var w1 := Step(w, put);
    assert {} + {0} == {0};
    var empty: map<string, set<nat>> := map[];
    assert empty[key := {0}] == map[key := {0}];
    assert w1.books == Books(map[key := {0}], {}, {});
    var send := Send(FlushMarker);
    OneWorkerThen(c, r, events + [At(shard, put)], shard, w1, send);
    var w2 := Step(w1, send);
    var fail := Command({}, Some((key, {})));
    OneWorkerThen(c, r, events + [At(shard, put)] + [At(shard, send)], shard, w2, fail);
    w' := Step(w2, fail);
    FailedBooks(key);
    events' := events + [At(shard, put)] + [At(shard, send)] + [At(shard, fail)];
  }

  lemma FailedBooks(key: string)
    ensures RoundBooks(Books(map[key := {0}], {}, {}), {}, {}, Some((key, {}))) == Books(map[key := {}], {}, {0})
  {
    var b := Books(map[key := {0}], {}, {});
    assert FlushAll(b, {}).buffers == b.buffers && Buffered(b.buffers, {}) == {};
    assert Forget(b, {}).buffers == b.buffers;
    assert map[key := {0}][key := {}] == map[key := {}];
  }

  lemma SecondCommand(c: Routing, events: seq<Event>, shard: string, w: Worker, r: map<string, Worker>)
    returns (more: seq<Event>)
    requires Runs(c, r, events) && After(c, r, events) == map[shard := w]
    requires w.status.Running? && !w.closed && w.received == |w.accepted| == 2 && w.capacity > 0
    requires w.books.delivered == {} && forall key | key in w.books.buffers :: w.books.buffers[key] == {}
    ensures Runs(c, map[shard := w], more)
    ensures var now := After(c, map[shard := w], more);
            && now.Keys == {shard} && Answered(now[shard].replies, 2, true) && now[shard].books.delivered == {}
  {
    hide Runs, After;
    var r1 := map[shard := w];
    RunsNothing(c, r1);
    var send := Send(FlushMarker);
    OneWorkerThen(c, r1, [], shard, w, send);
    var w1 := Step(w, send);
    var flush := Command(w1.books.buffers.Keys, None);
    OneWorkerThen(c, r1, [] + [At(shard, send)], shard, w1, flush);
    assert Buffered(w.books.buffers, w.books.buffers.Keys) == {};
    more := [] + [At(shard, send)] + [At(shard, flush)];
  }

  lemma LostNotDelivered(w: Worker, i: nat)
    requires Inv(w) && i in w.books.lost
    ensures i !in w.books.delivered
  {
    hide OrderInv, PlacedInv, DoneInv, InBuffer, LostInv, BarrierInv;
  }

  /** A dropped row never reaches the backend later on. */
  lemma DroppedForGood(c: Routing, r: map<string, Worker>, events: seq<Event>, shard: string, i: nat)
    requires RouterInv(c, r) && Runs(c, r, events) && shard in r && i in r[shard].books.lost
    ensures shard in After(c, r, events) && i !in After(c, r, events)[shard].books.delivered
  {
    hide Inv, Routed, Runs, After;
    RunInv(c, r, events);
    LostNotDelivered(After(c, r, events)[shard], i);
  }

  /** The worker has nothing left to do: every message it ever accepted is received, every
      record among them was put, in order, no session is left, and every row is with the
      backend unless a flush command that answered with an error dropped it. */
  ghost predicate Drained(w: Worker) {
    && w.received == |w.accepted| && w.books.buffers == map[] && w.puts == RecordsOf(w.accepted, |w.accepted|)
    && forall i: nat | IsRecord(w.accepted, i) :: DeliveredUnlessDropped(w, i, |w.accepted|)
  }

  /** Close returns nil when every worker has ended without an error, and a worker that has
      is drained: at the return of Close all of them are. */
  lemma CloseDrains(c: Routing, shards: set<string>, capacity: nat, events: seq<Event>)
    requires Runs(c, NewRouter(shards, capacity), events)
    ensures var now := After(c, NewRouter(shards, capacity), events);
            && now.Keys == shards
            && forall shard | shard in now && now[shard].status.Done? :: Drained(now[shard])
  {
    hide Runs, After, Inv, Routed, Drained;
    NewRouterInv(c, shards, capacity);
    RunInv(c, NewRouter(shards, capacity), events);
    var now := After(c, NewRouter(shards, capacity), events);
    forall shard | shard in now && now[shard].status.Done? ensures Drained(now[shard]) {
      WorkerDone(now[shard]);
    }
  }

  lemma WorkerDone(w: Worker)
    requires Inv(w) && w.status.Done?
    ensures Drained(w)
  {
    hide DeliveredUnlessDropped;
    forall i: nat | IsRecord(w.accepted, i) ensures DeliveredUnlessDropped(w, i, |w.accepted|) {
      RowDone(w, i);
    }
  }

  lemma RowDone(w: Worker, i: nat)
    requires Inv(w) && w.status.Done? && IsRecord(w.accepted, i)
    ensures DeliveredUnlessDropped(w, i, |w.accepted|)
  {
    assert !InBuffer(w.books, i);
  }

  /** Records with the same route key meet in one worker, and it puts them in the
      order in which they were accepted: one that was put has all the earlier ones
      put before it. */
  lemma SameRouteInOrder(c: Routing, shards: set<string>, capacity: nat, events: seq<Event>,
                         shard: string, i: nat, shard': string, j: nat)
    requires Runs(c, NewRouter(shards, capacity), events)
    requires var now := After(c, NewRouter(shards, capacity), events);
             && shard in now && shard' in now && IsRecord(now[shard].accepted, i) && IsRecord(now[shard'].accepted, j)
             && RouteShardKey(c, now[shard].accepted[i].record) == RouteShardKey(c, now[shard'].accepted[j].record)
    ensures shard == shard'
    ensures var puts := After(c, NewRouter(shards, capacity), events)[shard].puts;
            i < j && j in puts ==> exists a, b :: 0 <= a < b < |puts| && puts[a] == i && puts[b] == j
  {
    hide Runs, After, Inv;
    NewRouterInv(c, shards, capacity);
    RunInv(c, NewRouter(shards, capacity), events);
    var now := After(c, NewRouter(shards, capacity), events);
    assert Routed(c, shard, now[shard].accepted) && Routed(c, shard', now[shard'].accepted);
    if i < j && j in now[shard].puts {
      PutsInOrder(now[shard], i, j);
    }
  }

  /** In every run, a record is with the worker that its build key hashes to, whatever its
      shard key; one without a build key is with the worker of its shard key. */
  lemma WorkerOf(c: Routing, shards: set<string>, capacity: nat, events: seq<Event>, shard: string, i: nat)
    requires Runs(c, NewRouter(shards, capacity), events)
    requires var now := After(c, NewRouter(shards, capacity), events);
             shard in now && IsRecord(now[shard].accepted, i)
    ensures var record := After(c, NewRouter(shards, capacity), events)[shard].accepted[i].record;
            var build, key := c.trim(record.buildShardKey), c.trim(record.shardKey);
            shard == if build != "" then c.hash(build) else c.hash(key)
  {
    hide Runs, After, Inv;
    NewRouterInv(c, shards, capacity);
    RunInv(c, NewRouter(shards, capacity), events);
    var now := After(c, NewRouter(shards, capacity), events);
    assert Routed(c, shard, now[shard].accepted);
  }

  /** Records with the same build key meet in one worker, whatever their shard keys, and it
      puts them in the order in which they were accepted. */
  lemma SameBuildKeyInOrder(c: Routing, shards: set<string>, capacity: nat, events: seq<Event>,
                            shard: string, i: nat, shard': string, j: nat)
    requires Runs(c, NewRouter(shards, capacity), events)
    requires var now := After(c, NewRouter(shards, capacity), events);
             && shard in now && shard' in now && IsRecord(now[shard].accepted, i) && IsRecord(now[shard'].accepted, j)
             && c.trim(now[shard].accepted[i].record.buildShardKey) != ""
             && c.trim(now[shard].accepted[i].record.buildShardKey) ==
                c.trim(now[shard'].accepted[j].record.buildShardKey)
    ensures shard == shard'
    ensures var puts := After(c, NewRouter(shards, capacity), events)[shard].puts;
            i < j && j in puts ==> exists a, b :: 0 <= a < b < |puts| && puts[a] == i && puts[b] == j
  {
    hide Runs, After, NewRouter;
    SameRouteInOrder(c, shards, capacity, events, shard, i, shard', j);
  }

  lemma PutsInOrder(w: Worker, i: nat, j: nat)
    requires Inv(w) && IsRecord(w.accepted, i) && i < j && j in w.puts
    ensures exists a, b :: 0 <= a < b < |w.puts| && w.puts[a] == i && w.puts[b] == j
  {
    hide PlacedInv, DoneInv, LostInv, BarrierInv, ExactInv, RecordsOf;
    var all := RecordsOf(w.accepted, w.received);
    var b :| 0 <= b < |w.puts| && w.puts[b] == j;
    RecordsSorted(w.accepted, w.received);
    assert all[b] == j;
    RecordsComplete(w.accepted, w.received, i);
    var a :| 0 <= a < |all| && all[a] == i;
    assert a < b;
    assert w.puts[a] == i;
  }

  lemma {:induction false} RecordsSorted(accepted: seq<Message>, n: nat)
    requires n <= |accepted|
    ensures forall a, b | 0 <= a < b < |RecordsOf(accepted, n)| :: RecordsOf(accepted, n)[a] < RecordsOf(accepted, n)[b]
    ensures forall a | 0 <= a < |RecordsOf(accepted, n)| :: RecordsOf(accepted, n)[a] < n
  {
    if n > 0 {
      RecordsSorted(accepted, n - 1);
    }
  }

  lemma {:induction false} RecordsComplete(accepted: seq<Message>, n: nat, i: nat)
    requires n <= |accepted| && i < n && accepted[i].Rec?
    ensures i in RecordsOf(accepted, n)
  {
    if i < n - 1 {
      RecordsComplete(accepted, n - 1, i);
    }
  }
}
