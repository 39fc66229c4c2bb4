/** One worker of the session router (core/session_router.go): it owns a session a
    table, puts records into them and flushes them. A record is known by its
    position in the worker's queue. The rounds also ask every session whether it is
    being flushed; that question takes the lock which a flush holds, so the answer is
    always no. */
module RouterWorker {
  import opened Prelude

  /** What becomes of the rows of a session that is flushed. The session replaces its
      buffer before it sends it (core/session.go), so a failed flush delivers some
      rows and drops the others: nothing is left to flush again. */
  datatype FlushOutcome = Sent | Failed(part: set<nat>)

  /** The sessions' buffered rows by shard-table key, the rows the backend has and
      the rows that a failed flush dropped. */
  datatype Books = Books(buffers: map<string, set<nat>>, delivered: set<nat>, lost: set<nat>)

  function Buffered(buffers: map<string, set<nat>>, keys: set<string>): set<nat> {
    set key, i | key in buffers && key in keys && i in buffers[key] :: i
  }

  /** Flushing one session. */
  function FlushOne(b: Books, key: string, outcome: FlushOutcome): Books
    requires key in b.buffers
  {
    var rows := b.buffers[key];
    var sent := if outcome.Sent? then rows else rows * outcome.part;
    Books(b.buffers[key := {}], b.delivered + sent, b.lost + (rows - sent))
  }

  /** Flushing these sessions, all of them with success. */
  function FlushAll(b: Books, keys: set<string>): Books {
    Books(map key | key in b.buffers :: if key in keys then {} else b.buffers[key],
          b.delivered + Buffered(b.buffers, keys), b.lost)
  }

  /** Forgetting these sessions. */
  function Forget(b: Books, keys: set<string>): Books {
    b.(buffers := map key | key in b.buffers && key !in keys :: b.buffers[key])
  }

  /** A round over the sessions that stopped at the session `failed`, if at any. */
  ghost predicate Round(b: Books, b': Books, flushed: set<string>, closed: set<string>,
                        failed: Option<(string, set<nat>)>) {
    && flushed <= b.buffers.Keys && closed <= flushed
    && (failed.Some? ==> failed.value.0 in b.buffers && failed.value.0 !in flushed)
    && b' == RoundBooks(b, flushed, closed, failed)
  }

  function RoundBooks(b: Books, flushed: set<string>, closed: set<string>, failed: Option<(string, set<nat>)>): Books
    requires failed.Some? ==> failed.value.0 in b.buffers && failed.value.0 !in closed
  {
    var r := Forget(FlushAll(b, flushed), closed);
    if failed.Some? then FlushOne(r, failed.value.0, Failed(failed.value.1)) else r
  }

  // ----- The shard-table key -----

  function ShardTableKey(shard: string, table: string): string {
    shard + "+" + table
  }

  /** The key up to the first '+', and what follows it. */
  function CutKey(key: string): (string, string) {
    if key == "" then ("", "")
    else if key[0] == '+' then ("", key[1..])
    else (key[..1] + CutKey(key[1..]).0, CutKey(key[1..]).1)
  }

  /** A shard identifier has no '+', so splitting gives the shard and the table back:
      a key belongs to one shard, and no two workers share a session. */
  lemma {:induction false} SplitKey(shard: string, table: string)
    requires '+' !in shard
    ensures CutKey(ShardTableKey(shard, table)) == (shard, table)
  {
    var key := ShardTableKey(shard, table);
    if shard == "" {
      assert key[1..] == table;
    } else {
      assert key[1..] == ShardTableKey(shard[1..], table);
      SplitKey(shard[1..], table);
      assert shard == key[..1] + shard[1..];
    }
  }

  /** splitShardTableKey. */
  method SplitShardTableKey(key: string) returns (shard: string, table: string)
    ensures (shard, table) == CutKey(key)
  {
    for i := 0 to |key|
      invariant '+' !in key[..i]
    {
      if key[i] == '+' {
        assert key == ShardTableKey(key[..i], key[i + 1..]);
        SplitKey(key[..i], key[i + 1..]);
        return key[..i], key[i + 1..];
      }
      assert key[..i + 1] == key[..i] + [key[i]];
    }
    assert key[..|key|] == key;
    SplitWhole(key);
    return key, "";
  }

  lemma {:induction false} SplitWhole(key: string)
    requires '+' !in key
    ensures CutKey(key) == (key, "")
  {
    if key != "" {
      SplitWhole(key[1..]);
      assert key == key[..1] + key[1..];
    }
  }

  // ----- The worker -----

  /** What putting a record meets: whether a session could be opened if there is
      none, whether the row is accepted, and how the session's flush ends if one is
      due. */
  datatype PutOutcome = PutOutcome(canOpen: bool, accepted: bool, flush: Option<FlushOutcome>)

  function PutBooks(b: Books, key: string, i: nat, o: PutOutcome): Books {
    if key !in b.buffers && !o.canOpen then b
    else
      var rows := if key in b.buffers then b.buffers[key] else {};
      var b' := b.(buffers := b.buffers[key := if o.accepted then rows + {i} else rows]);
      if o.accepted && o.flush.Some? then FlushOne(b', key, o.flush.value) else b'
  }

  predicate PutOk(b: Books, key: string, o: PutOutcome) {
    (key in b.buffers || o.canOpen) && o.accepted && (o.flush.Some? ==> o.flush.value.Sent?)
  }

  /** A row is put exactly if the table has a session or one can be opened, and the session
      takes the row. It then waits in that session's buffer; if a flush is due, everything in
      the buffer is delivered or, as far as the flush fails, dropped. The put succeeds exactly
      if the row was taken and no due flush failed. Other sessions are left alone. */
  ghost predicate PutAnswered(b: Books, key: string, i: nat, o: PutOutcome, b': Books, ok: bool) {
    var has := key in b.buffers || o.canOpen;
    var rows := (if key in b.buffers then b.buffers[key] else {}) + (if o.accepted then {i} else {});
    var flushes := has && o.accepted && o.flush.Some?;
    var sent := if !flushes then {} else if o.flush.value.Sent? then rows else rows * o.flush.value.part;
    && (ok <==> has && o.accepted && !(o.flush.Some? && o.flush.value.Failed?))
    && (key in b'.buffers <==> has)
    && (has ==> b'.buffers[key] == if flushes then {} else rows)
    && (forall other | other != key :: other in b'.buffers <==> other in b.buffers)
    && (forall other | other != key && other in b.buffers :: b'.buffers[other] == b.buffers[other])
    && b'.delivered == b.delivered + sent && b'.lost == b.lost + (if flushes then rows - sent else {})
  }

  lemma PutAnswers(b: Books, key: string, i: nat, o: PutOutcome)
    ensures PutAnswered(b, key, i, o, PutBooks(b, key, i, o), PutOk(b, key, o))
  {
  }

  /** What the ticker finds about a session: nothing to do, rows that have waited for
      an interval, or no flush for two intervals. */
  datatype Age = Young | Waiting | Unused

  /** The keys whose flush would fail, with the rows delivered even so. */
  type Faults = map<string, set<nat>>

  function OutcomeOf(faults: Faults, key: string): FlushOutcome {
    if key in faults then Failed(faults[key]) else Sent
  }

  class Worker {
    const shard: string
    /** The keys of this worker in the router's session cache. */
    var sessionCache: set<string>
    /** The worker's own sessions, with the rows each has buffered. */
    var shardTableKeys: map<string, set<nat>>
    ghost var delivered: set<nat>
    ghost var lost: set<nat>

    ghost function View(): Books
      reads this
    {
      Books(shardTableKeys, delivered, lost)
    }

    ghost predicate Valid()
      reads this
    {
      sessionCache == shardTableKeys.Keys
    }

    constructor (shard: string)
      ensures Valid() && this.shard == shard && View() == Books(map[], {}, {})
    {
      this.shard := shard;
      sessionCache, shardTableKeys, delivered, lost := {}, map[], {}, {};
    }

    /** Session.Flush and Session.CloseSession, on the session of one key. */
    method FlushSession(key: string, outcome: FlushOutcome) returns (ok: bool)
      requires Valid() && key in shardTableKeys
      modifies this`shardTableKeys, this`delivered, this`lost
      ensures Valid() && ok == outcome.Sent? && View() == FlushOne(old(View()), key, outcome)
    {
      ghost var rows := shardTableKeys[key];
      ghost var sent := if outcome.Sent? then rows else rows * outcome.part;
      delivered, lost := delivered + sent, lost + (rows - sent);
      shardTableKeys := shardTableKeys[key := {}];
      return outcome.Sent?;
    }

    /** Close one session and, if that succeeds, forget it in both maps. */
    method CloseSession(key: string, outcome: FlushOutcome) returns (ok: bool)
      requires Valid() && key in shardTableKeys
      modifies this
      ensures Valid() && ok == outcome.Sent?
      ensures View() ==
              if ok then Forget(FlushOne(old(View()), key, Sent), {key}) else FlushOne(old(View()), key, outcome)
      ensures shardTableKeys.Keys == if ok then old(shardTableKeys).Keys - {key} else old(shardTableKeys).Keys
    {
      ok := FlushSession(key, outcome);
      if ok {
        shardTableKeys, sessionCache := shardTableKeys - {key}, sessionCache - {key};
        assert shardTableKeys == Forget(FlushOne(old(View()), key, Sent), {key}).buffers;
      }
    }

    /** putRecord: open the table's session if there is none, put the row, and flush
        the session when that is due. */
    method PutRecord(table: string, i: nat, o: PutOutcome) returns (ok: bool)
      requires Valid()
      modifies this
      ensures Valid() && ok == PutOk(old(View()), ShardTableKey(shard, table), o)
      ensures View() == PutBooks(old(View()), ShardTableKey(shard, table), i, o)
      ensures PutAnswered(old(View()), ShardTableKey(shard, table), i, o, View(), ok)
    {
      var key := ShardTableKey(shard, table);
      PutAnswers(View(), key, i, o);
      hide PutAnswered;
      if key !in sessionCache {
        if !o.canOpen {
          return false;
        }
        sessionCache, shardTableKeys := sessionCache + {key}, shardTableKeys[key := {}];
      }
      if !o.accepted {
        return false;
      }
      shardTableKeys := shardTableKeys[key := shardTableKeys[key] + {i}];
      assert View() == PutBooks(old(View()), key, i, o.(flush := None));
      if o.flush.None? {
        return true;
      }
      ok := FlushSession(key, o.flush.value);
    }

    /** flushWorkerSessions: the round stops at the first session whose flush fails. */
    method FlushWorkerSessions(faults: Faults)
      returns (sessionCount: nat, ok: bool, ghost flushed: set<string>, ghost failed: Option<(string, set<nat>)>)
      requires Valid()
      modifies this`shardTableKeys, this`delivered, this`lost
      ensures Valid() && Round(old(View()), View(), flushed, {}, failed)
      ensures ok <==> failed.None?
      ensures ok ==> flushed == old(shardTableKeys).Keys && sessionCount == |old(shardTableKeys)|
      ensures ok ==> forall key | key in old(shardTableKeys) :: key !in faults
      ensures failed.Some? ==> failed.value.0 in faults && failed.value.1 == faults[failed.value.0]
    {
      hide FlushOne, RoundBooks, Forget;
      sessionCount, flushed, failed := 0, {}, None;
      var left := shardTableKeys.Keys;
      RoundNothing(View());
      while left != {}
        invariant Valid() && left <= shardTableKeys.Keys == old(shardTableKeys).Keys
        invariant flushed == old(shardTableKeys).Keys - left && forall key | key in flushed :: key !in faults
        invariant sessionCount + |left| == |old(shardTableKeys)| && View() == RoundBooks(old(View()), flushed, {}, None)
        decreases left
      {
        var key :| key in left;
        left, sessionCount := left - {key}, sessionCount + 1;
        RoundFlush(old(View()), flushed, {}, key, OutcomeOf(faults, key));
        ok := FlushSession(key, OutcomeOf(faults, key));
        if !ok {
          failed := Some((key, faults[key]));
          return;
        }
        flushed := flushed + {key};
      }
      ok := true;
    }

    /** closeWorkerSessions, when the queue is closed and drained: a session that
        closes is forgotten, and the round stops at the first that does not. */
    method CloseWorkerSessions(faults: Faults)
      returns (sessionCount: nat, ok: bool, ghost closed: set<string>, ghost failed: Option<(string, set<nat>)>)
      requires Valid()
      modifies this
      ensures Valid() && Round(old(View()), View(), closed, closed, failed)
      ensures ok <==> failed.None?
      ensures ok ==> closed == old(shardTableKeys).Keys && sessionCount == |old(shardTableKeys)| && sessionCache == {}
      ensures ok ==> forall key | key in old(shardTableKeys) :: key !in faults
      ensures failed.Some? ==> failed.value.0 in faults && failed.value.1 == faults[failed.value.0]
    {
      hide FlushOne, RoundBooks, Forget;
      sessionCount, closed, failed := 0, {}, None;
      var left := shardTableKeys.Keys;
      RoundNothing(View());
      while left != {}
        invariant Valid() && left == shardTableKeys.Keys <= old(shardTableKeys).Keys
        invariant closed == old(shardTableKeys).Keys - left && forall key | key in closed :: key !in faults
        invariant sessionCount + |left| == |old(shardTableKeys)|
                  && View() == RoundBooks(old(View()), closed, closed, None)
        decreases left
      {
        var key :| key in left;
        left, sessionCount := left - {key}, sessionCount + 1;
        RoundFlush(old(View()), closed, closed, key, OutcomeOf(faults, key));
        RoundForget(old(View()), closed + {key}, closed, key);
        ok := CloseSession(key, OutcomeOf(faults, key));
        if !ok {
          failed := Some((key, faults[key]));
          return;
        }
        closed := closed + {key};
      }
      ok := true;
    }

    /** flushIdleSessions, on every tick: a session that was not flushed for two
        intervals is closed, one with waiting rows is flushed. */
    method FlushIdleSessions(ages: map<string, Age>, faults: Faults)
      returns (ok: bool, ghost flushed: set<string>, ghost closed: set<string>,
               ghost failed: Option<(string, set<nat>)>)
      requires Valid() && ages.Keys == shardTableKeys.Keys
      modifies this
      ensures Valid() && Round(old(View()), View(), flushed, closed, failed)
      ensures ok <==> failed.None?
      ensures failed.Some? ==> failed.value.0 in faults && failed.value.1 == faults[failed.value.0]
      ensures ok ==>
              flushed == (set key | key in ages && !ages[key].Young?)
                && closed == (set key | key in ages && ages[key].Unused?)
    {
      hide FlushOne, RoundBooks, Forget;
      flushed, closed, failed := {}, {}, None;
      var left := shardTableKeys.Keys;
      RoundNothing(View());
      while left != {}
        invariant Valid() && left <= shardTableKeys.Keys == old(shardTableKeys).Keys - closed
        invariant flushed == (set key | key in ages && key !in left && !ages[key].Young?)
        invariant closed == (set key | key in ages && key !in left && ages[key].Unused?)
        invariant View() == RoundBooks(old(View()), flushed, closed, None)
        decreases left
      {
        var key :| key in left;
        left := left - {key};
        RoundFlush(old(View()), flushed, closed, key, OutcomeOf(faults, key));
        if ages[key].Unused? {
          RoundForget(old(View()), flushed + {key}, closed, key);
          ok := CloseSession(key, OutcomeOf(faults, key));
          if !ok {
            failed := Some((key, faults[key]));
            return;
          }
          flushed, closed := flushed + {key}, closed + {key};
        } else if ages[key].Waiting? {
          ok := FlushSession(key, OutcomeOf(faults, key));
          if !ok {
            failed := Some((key, faults[key]));
            return;
          }
          flushed := flushed + {key};
        }
      }
      ok := true;
    }
  }

  // ----- Rounds -----

  /** What a round does: sessions that were closed are forgotten, those that were flushed or
      failed have empty buffers, the others are left alone. The rows of the flushed ones are
      delivered, and of the failed one those in its part; its other rows are dropped. */
  lemma RoundMeans(b: Books, flushed: set<string>, closed: set<string>, failed: Option<(string, set<nat>)>)
    requires flushed <= b.buffers.Keys && closed <= flushed
    requires failed.Some? ==> failed.value.0 in b.buffers && failed.value.0 !in flushed
    ensures var b' := RoundBooks(b, flushed, closed, failed);
            && (forall key :: key in b'.buffers <==> key in b.buffers && key !in closed)
            && (forall key | key in b'.buffers ::
                  b'.buffers[key] ==
                  if key in flushed || (failed.Some? && key == failed.value.0) then {} else b.buffers[key])
            && (forall i :: i in b'.delivered <==>
                  || i in b.delivered || (exists key | key in flushed :: i in b.buffers[key])
                  || (failed.Some? && i in b.buffers[failed.value.0] && i in failed.value.1))
            && (forall i :: i in b'.lost <==>
                  i in b.lost || (failed.Some? && i in b.buffers[failed.value.0] && i !in failed.value.1))
  {
  }

  // ----- Rounds, session by session -----

  lemma RoundNothing(b: Books)
    ensures RoundBooks(b, {}, {}, None) == b
  {
    assert Buffered(b.buffers, {}) == {};
  }

  lemma RoundFlush(b: Books, flushed: set<string>, closed: set<string>, key: string, outcome: FlushOutcome)
    requires key in b.buffers && key !in flushed && closed <= flushed
    ensures key in RoundBooks(b, flushed, closed, None).buffers
    ensures FlushOne(RoundBooks(b, flushed, closed, None), key, outcome) ==
            if outcome.Sent? then RoundBooks(b, flushed + {key}, closed, None)
            else RoundBooks(b, flushed, closed, Some((key, outcome.part)))
  {
    assert Buffered(b.buffers, flushed + {key}) == Buffered(b.buffers, flushed) + b.buffers[key];
    if outcome.Sent? {
      var left, right :=
        FlushOne(RoundBooks(b, flushed, closed, None), key, outcome), RoundBooks(b, flushed + {key}, closed, None);
      assert left.buffers == right.buffers;
      assert left.delivered == right.delivered;
      assert left.lost == right.lost;
    }
  }

  lemma RoundForget(b: Books, flushed: set<string>, closed: set<string>, key: string)
    requires key in b.buffers && key !in closed && closed <= flushed
    ensures Forget(RoundBooks(b, flushed, closed, None), {key}) == RoundBooks(b, flushed, closed + {key}, None)
  {
  }
}
