/** The session pool (core/session_pool.go): a channel of tokens bounds the sessions
    that are out, idle sessions wait in one channel a table name, and a table is
    invalidated by moving its generation. Every method below is one section that
    the source runs under the pool's lock. */
module SessionPool {
  import opened Prelude

  datatype Session = Session(id: nat, generation: u64)

  /** One table name's idle sessions, oldest first. */
  datatype Entry = Entry(idle: seq<Session>, generation: u64)

  datatype Pool = Pool(poolSize: nat, tokens: nat, maxUsed: nat, entries: map<string, Entry>,
                       generations: map<string, u64>, closed: bool)

  /** What a Borrow returns: a session, the error of NewSession, or ErrPoolDrained. */
  datatype Borrowed = Handed(session: Session) | OpenFailed | Drained

  /** What the first section of a return decides. */
  datatype Verdict = PoolClosed | Stale | Current

  /** What became of the session in the second section of a return. `Full` and
      `Dropped` are the two fallbacks for a channel without room. */
  datatype Returned = Refused | Outdated | Pooled | Full | Dropped

  // ----- The pool on values -----

  function Gen(generations: map<string, u64>, table: string): u64 {
    if table in generations then generations[table] else 0
  }

  function EntryFor(canon: string -> string, p: Pool, name: string): Entry {
    if name in p.entries then p.entries[name] else Entry([], Gen(p.generations, canon(name)))
  }

  function BorrowStep(canon: string -> string, p: Pool, name: string, made: Option<nat>): (Pool, Borrowed) {
    var e := EntryFor(canon, p, name);
    if p.tokens == 0 then (p.(entries := p.entries[name := e]), Drained)
    else
      var used := p.poolSize - p.tokens + 1;
      var p' := p.(tokens := p.tokens - 1, maxUsed := if used > p.maxUsed then used else p.maxUsed);
      if e.idle != [] then
        (p'.(entries := p.entries[name := e.(idle := e.idle[1..])]), Handed(e.idle[0].(generation := e.generation)))
      else
        (p'.(entries := p.entries[name := e]),
         if made.Some? then Handed(Session(made.value, e.generation)) else OpenFailed)
  }

  /** The idle sessions that wait under this name. */
  function Waiting(entries: map<string, Entry>, name: string): seq<Session> {
    if name in entries then entries[name].idle else []
  }

  /** With a token free, a borrow is answered with the oldest session that waits under the
      name, otherwise with the one NewSession makes, and fails exactly if there is neither.
      It takes a token all the same. Without a token nothing is handed out. */
  ghost predicate BorrowAnswered(canon: string -> string, p: Pool, name: string, made: Option<nat>, p': Pool,
                                 r: Borrowed) {
    var idle := Waiting(p.entries, name);
    && (r.Drained? <==> p.tokens == 0)
    && (r.OpenFailed? <==> p.tokens > 0 && idle == [] && made.None?)
    && (r.Handed? ==> r.session.id == if idle != [] then idle[0].id else made.value)
    && (r.Handed? ==> r.session.generation ==
                      if name in p.entries then p.entries[name].generation else Gen(p.generations, canon(name)))
    && p'.tokens == (if p.tokens == 0 then 0 else p.tokens - 1)
    && Waiting(p'.entries, name) == (if p.tokens > 0 && idle != [] then idle[1..] else idle)
    && (forall other | other != name :: other in p'.entries <==> other in p.entries)
    && (forall other | other != name && other in p.entries :: p'.entries[other] == p.entries[other])
    && p'.maxUsed ==
       (if p.tokens > 0 && p.poolSize - p.tokens + 1 > p.maxUsed then p.poolSize - p.tokens + 1 else p.maxUsed)
    && p'.poolSize == p.poolSize && p'.generations == p.generations && p'.closed == p.closed
  }

  lemma BorrowAnswers(canon: string -> string, p: Pool, name: string, made: Option<nat>)
    ensures var (p', r) := BorrowStep(canon, p, name, made);
            BorrowAnswered(canon, p, name, made, p', r)
            && (r.Handed? <==> p.tokens > 0 && (Waiting(p.entries, name) != [] || made.Some?))
  {
  }

  function VerdictOf(canon: string -> string, p: Pool, name: string, generation: u64): Verdict {
    if p.closed then PoolClosed
    else if generation != Gen(p.generations, canon(name)) then Stale
    else Current
  }

  /** returnSemaphoreLocked. */
  function TokenBack(p: Pool): Pool {
    if !p.closed && p.tokens < p.poolSize then p.(tokens := p.tokens + 1) else p
  }

  function FinishStep(canon: string -> string, p: Pool, name: string, session: Session): (Pool, Returned) {
    var e := EntryFor(canon, p, name);
    if p.closed then (p, Refused)
    else if session.generation != Gen(p.generations, canon(name)) then (TokenBack(p), Outdated)
    else if p.tokens >= p.poolSize then (p.(entries := p.entries[name := e]), Dropped)
    else if |e.idle| >= p.poolSize then (TokenBack(p).(entries := p.entries[name := e]), Full)
    else (TokenBack(p).(entries := p.entries[name := e.(idle := e.idle + [session.(generation := e.generation)])]),
          Pooled)
  }

  /** A session whose table was not invalidated since goes behind those that wait under the
      name, and its token back, if the pool is open and there is room for both; a stale one
      only gives its token back. Nothing else changes. */
  ghost predicate FinishAnswered(canon: string -> string, p: Pool, name: string, session: Session, p': Pool,
                                 r: Returned) {
    var current := session.generation == Gen(p.generations, canon(name));
    var idle := Waiting(p.entries, name);
    && (r.Refused? <==> p.closed)
    && (r.Outdated? <==> !p.closed && !current)
    && (r.Pooled? <==> !p.closed && current && p.tokens < p.poolSize && |idle| < p.poolSize)
    && (r.Dropped? <==> !p.closed && current && p.tokens >= p.poolSize)
    && p'.tokens == (if p.closed || p.tokens >= p.poolSize then p.tokens else p.tokens + 1)
    && |Waiting(p'.entries, name)| == |idle| + (if r.Pooled? then 1 else 0)
    && Waiting(p'.entries, name)[..|idle|] == idle
    && (r.Pooled? ==> Waiting(p'.entries, name)[|idle|].id == session.id)
    && (forall other | other != name :: other in p'.entries <==> other in p.entries)
    && (forall other | other != name && other in p.entries :: p'.entries[other] == p.entries[other])
    && p'.maxUsed == p.maxUsed && p'.generations == p.generations && p'.closed == p.closed
  }

  lemma FinishAnswers(canon: string -> string, p: Pool, name: string, session: Session)
    ensures FinishAnswered(canon, p, name, session,
                           FinishStep(canon, p, name, session).0, FinishStep(canon, p, name, session).1)
  {
    assert Waiting(p.entries, name)[..|Waiting(p.entries, name)|] == Waiting(p.entries, name);
  }

  /** The entries without those of the table; `kept` stay even so. */
  function Without(canon: string -> string, entries: map<string, Entry>, kept: set<string>,
                   table: string): map<string, Entry> {
    map key | key in entries && (key in kept || canon(key) != table) :: entries[key]
  }

  function InvalidateStep(canon: string -> string, p: Pool, name: string): Pool {
    var table := canon(name);
    if table == "" || p.closed then p
    else p.(generations := p.generations[table := (Gen(p.generations, table) + 1) % U64],
            entries := Without(canon, p.entries, {}, table))
  }

  /** An invalidation closes the idle sessions of the entries outside `kept`. */
  ghost predicate Closes(canon: string -> string, entries: map<string, Entry>, kept: set<string>, table: string,
                         s: Session) {
    exists key | key in entries && key !in kept && canon(key) == table :: s in entries[key].idle
  }

  // ----- The pool as it is: one object, changed in place -----

  class SessionPool {
    const canon: string -> string
    const poolSize: nat
    var tokens: nat
    var maxUsed: nat
    var entries: map<string, Entry>
    var generations: map<string, u64>
    var closed: bool

    ghost function View(): Pool
      reads this
    {
      Pool(poolSize, tokens, maxUsed, entries, generations, closed)
    }

    ghost predicate Valid()
      reads this
    {
      tokens <= poolSize && poolSize - tokens <= maxUsed <= poolSize
      && (forall name | name in entries :: |entries[name].idle| <= poolSize)
    }

    /** NewSessionPool. A size of zero means one session a processor. */
    constructor (canon: string -> string, size: nat, processors: nat)
      requires processors > 0
      ensures Valid() && this.canon == canon && poolSize > 0
      ensures View() == Pool(if size == 0 then processors else size, if size == 0 then processors else size,
                             0, map[], map[], false)
    {
      this.canon := canon;
      this.poolSize := if size == 0 then processors else size;
      this.tokens := if size == 0 then processors else size;
      this.maxUsed, this.entries, this.generations, this.closed := 0, map[], map[], false;
    }

    /** getPoolByTableName. */
    method EntryByName(name: string) returns (e: Entry)
      requires Valid()
      modifies this`entries
      ensures Valid() && e == EntryFor(canon, old(View()), name)
      ensures entries == old(entries)[name := e]
    {
      if name !in entries {
        entries := entries[name := Entry([], Gen(generations, canon(name)))];
      }
      e := entries[name];
      assert entries == old(entries)[name := e];
    }

    /** Borrow. `made` is the session that NewSession would give, if it can. */
    method Borrow(name: string, made: Option<nat>) returns (r: Borrowed)
      requires Valid()
      modifies this`tokens, this`maxUsed, this`entries
      ensures Valid() && (View(), r) == BorrowStep(canon, old(View()), name, made)
      ensures BorrowAnswered(canon, old(View()), name, made, View(), r)
    {
      BorrowAnswers(canon, View(), name, made);
      hide BorrowAnswered, EntryFor, Gen;
      var e := EntryByName(name);
      assert entries[name] == e && |e.idle| <= poolSize;
      if tokens == 0 {
        return Drained;
      }
      tokens := tokens - 1;
      var used := poolSize - tokens;
      if used > maxUsed {
        maxUsed := used;
      }
      if e.idle != [] {
        entries := entries[name := e.(idle := e.idle[1..])];
        assert entries == old(entries)[name := e.(idle := e.idle[1..])];
        return Handed(e.idle[0].(generation := e.generation));
      }
      if made.None? {
        return OpenFailed;
      }
      return Handed(Session(made.value, e.generation));
    }

    /** The first section of ReturnWithProfile. */
    method BeginReturn(name: string, generation: u64) returns (v: Verdict)
      requires Valid()
      ensures v == VerdictOf(canon, View(), name, generation)
      ensures (v.PoolClosed? <==> closed) && (v.Current? <==> !closed && generation == Gen(generations, canon(name)))
    {
      if closed {
        return PoolClosed;
      }
      return if generation != Gen(generations, canon(name)) then Stale else Current;
    }

    /** returnSemaphore. */
    method ReturnSemaphore()
      requires Valid()
      modifies this`tokens
      ensures Valid() && View() == TokenBack(old(View()))
      ensures tokens == if !closed && old(tokens) < poolSize then old(tokens) + 1 else old(tokens)
    {
      if !closed && tokens < poolSize {
        tokens := tokens + 1;
      }
    }

    /** The second section of ReturnWithProfile, after the session was flushed. */
    method FinishReturn(name: string, session: Session) returns (r: Returned)
      requires Valid()
      modifies this`tokens, this`entries
      ensures Valid() && (View(), r) == FinishStep(canon, old(View()), name, session)
      ensures FinishAnswered(canon, old(View()), name, session, View(), r)
    {
      FinishAnswers(canon, View(), name, session);
      hide FinishAnswered, EntryFor;
      if closed {
        return Refused;
      }
      if session.generation != Gen(generations, canon(name)) {
        ReturnSemaphore();
        return Outdated;
      }
      var e := EntryByName(name);
      if tokens >= poolSize {
        return Dropped;
      }
      tokens := tokens + 1;
      if |e.idle| >= poolSize {
        return Full;
      }
      entries := entries[name := e.(idle := e.idle + [session.(generation := e.generation)])];
      assert entries == old(entries)[name := e.(idle := e.idle + [session.(generation := e.generation)])];
      return Pooled;
    }

    /** InvalidateTable: forget every entry of the table, whatever the case of its
        name, and close its idle sessions. */
    method InvalidateTable(name: string) returns (stale: seq<Session>)
      requires Valid()
      modifies this`entries, this`generations
      ensures Valid() && View() == InvalidateStep(canon, old(View()), name)
      ensures canon(name) == "" || closed ==> entries == old(entries) && generations == old(generations)
      ensures canon(name) != "" && !closed ==>
                && (forall key :: key in entries <==> key in old(entries) && canon(key) != canon(name))
                && (forall key | key in entries :: entries[key] == old(entries)[key])
                && Gen(generations, canon(name)) == (Gen(old(generations), canon(name)) + 1) % U64
                && (forall table | table != canon(name) :: Gen(generations, table) == Gen(old(generations), table))
      ensures forall s ::
              s in stale <==> canon(name) != "" && !closed && Closes(canon, old(entries), {}, canon(name), s)
    {
      hide Closes;
      stale := [];
      var table := canon(name);
      if table == "" || closed {
        return;
      }
      generations := generations[table := (Gen(generations, table) + 1) % U64];
      var keys := entries.Keys;
      ClosesNothing(canon, entries, table);
      while keys != {}
        invariant Valid() && keys <= old(entries).Keys
        invariant generations == old(generations)[table := (Gen(old(generations), table) + 1) % U64]
        invariant entries == Without(canon, old(entries), keys, table)
        invariant forall s :: s in stale <==> Closes(canon, old(entries), keys, table, s)
        decreases keys
      {
        var key :| key in keys;
        ClosesOneMore(canon, old(entries), keys, key, table);
        if canon(key) == table {
          var drained := Drain(entries[key].idle);
          entries := entries - {key};
          stale := stale + drained;
        }
        keys := keys - {key};
      }
    }
  }

  lemma ClosesNothing(canon: string -> string, entries: map<string, Entry>, table: string)
    ensures forall s :: !Closes(canon, entries, entries.Keys, table, s)
  {
  }

  lemma ClosesOneMore(canon: string -> string, entries: map<string, Entry>, kept: set<string>, key: string,
                      table: string)
    requires key in kept && key in entries
    ensures forall s :: Closes(canon, entries, kept - {key}, table, s) <==>
                        Closes(canon, entries, kept, table, s) || (canon(key) == table && s in entries[key].idle)
  {
  }

  /** The inner loop of InvalidateTable: receive until the channel is empty. */
  method Drain(idle: seq<Session>) returns (drained: seq<Session>)
    ensures drained == idle
  {
    drained := [];
    var channel := idle;
    while channel != []
      invariant drained + channel == idle
      decreases |channel|
    {
      drained, channel := drained + [channel[0]], channel[1..];
    }
  }
}
