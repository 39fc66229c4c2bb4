/** Borrowers, returners and invalidators of one session pool, interleaved section by
    section (core/session_pool.go). Every session is returned once, under the name
    it was borrowed by. */
module PoolProtocol {
  import opened Prelude
  import opened SessionPool

  /** Where a session that is out stands: in use, being flushed between the two
      sections of a return, or closed with its token still to be given back. */
  datatype Phase = Held | Flushing | Releasing

  datatype Holder = Holder(name: string, generation: u64, phase: Phase)

  /** For which table a session was opened, and how often the table had been
      invalidated by then. */
  datatype Opening = Opening(table: string, at: nat)

  /** The pool and the sessions out of it, with a history: how often each table was
      invalidated, every session ever opened, and how many openings failed. */
  datatype State = State(pool: Pool, out: map<nat, Holder>, invalidated: map<string, nat>,
                         made: map<nat, Opening>, failed: nat)

  datatype Action =
    | Borrow(name: string, offered: Option<nat>)
    | BeginReturn(id: nat)
    | FlushFailed(id: nat)
    | FinishReturn(id: nat)
    | ReleaseToken(id: nat)
    | Invalidate(name: string)

  function Count(invalidated: map<string, nat>, table: string): nat {
    if table in invalidated then invalidated[table] else 0
  }

  function Idle(entries: map<string, Entry>, name: string): seq<Session> {
    if name in entries then entries[name].idle else []
  }

  predicate InPhase(out: map<nat, Holder>, id: nat, phase: Phase) {
    id in out && out[id].phase == phase
  }

  predicate Enabled(s: State, a: Action) {
    match a
    case Borrow(_, offered) => offered.Some? ==> offered.value !in s.made
    case BeginReturn(id) => InPhase(s.out, id, Held)
    case FlushFailed(id) => InPhase(s.out, id, Flushing)
    case FinishReturn(id) => InPhase(s.out, id, Flushing)
    case ReleaseToken(id) => InPhase(s.out, id, Releasing)
    case Invalidate(_) => true
  }

  function Step(canon: string -> string, s: State, a: Action): (s': State)
    requires Enabled(s, a)
  {
    match a
    case Borrow(name, offered) =>
      var (p, r) := BorrowStep(canon, s.pool, name, offered);
      if r.Handed? then
        var id := r.session.id;
        s.(pool := p, out := s.out[id := Holder(name, r.session.generation, Held)],
           made :=
             if id in s.made then s.made else s.made[id := Opening(canon(name), Count(s.invalidated, canon(name)))])
      else s.(pool := p, failed := if r.OpenFailed? then s.failed + 1 else s.failed)
    case BeginReturn(id) =>
      var current := VerdictOf(canon, s.pool, s.out[id].name, s.out[id].generation).Current?;
      s.(out := s.out[id := s.out[id].(phase := if current then Flushing else Releasing)])
    case FlushFailed(id) => s.(out := s.out[id := s.out[id].(phase := Releasing)])
    case FinishReturn(id) =>
      s.(pool := FinishStep(canon, s.pool, s.out[id].name, Session(id, s.out[id].generation)).0, out := s.out - {id})
    case ReleaseToken(id) => s.(pool := TokenBack(s.pool), out := s.out - {id})
    case Invalidate(name) =>
      var table := canon(name);
      s.(pool := InvalidateStep(canon, s.pool, name),
         invalidated := if table == "" || s.pool.closed then s.invalidated
                        else s.invalidated[table := Count(s.invalidated, table) + 1])
  }

  // ----- What every step keeps -----

  ghost predicate TokensInv(p: Pool, out: map<nat, Holder>, failed: nat) {
    !p.closed && p.tokens + |out| + failed == p.poolSize
  }

  /** A generation is the number of invalidations, as far as 64 bits tell. */
  ghost predicate GenerationsInv(generations: map<string, u64>, invalidated: map<string, nat>) {
    forall table :: Gen(generations, table) == Count(invalidated, table) % U64
  }

  ghost predicate EntriesInv(canon: string -> string, entries: map<string, Entry>, generations: map<string, u64>) {
    forall name | name in entries :: entries[name].generation == Gen(generations, canon(name))
  }

  ghost predicate IdleOk(canon: string -> string, generations: map<string, u64>, made: map<nat, Opening>, name: string,
                         id: nat) {
    id in made && made[id].table == canon(name) && made[id].at % U64 == Gen(generations, canon(name))
  }

  ghost predicate IdleInv(canon: string -> string, entries: map<string, Entry>, generations: map<string, u64>,
                          made: map<nat, Opening>) {
    forall name, i ::
      0 <= i < |Idle(entries, name)| ==> IdleOk(canon, generations, made, name, Idle(entries, name)[i].id)
  }

  ghost predicate OutInv(canon: string -> string, out: map<nat, Holder>, made: map<nat, Opening>) {
    forall id | id in out ::
      id in made && made[id].table == canon(out[id].name) && made[id].at % U64 == out[id].generation
  }

  ghost predicate MadeInv(made: map<nat, Opening>, invalidated: map<string, nat>) {
    forall id | id in made :: made[id].at <= Count(invalidated, made[id].table)
  }

  /** A session is idle in one place or out, never both. */
  ghost predicate ApartInv(entries: map<string, Entry>, out: map<nat, Holder>) {
    OnePlaceEach(entries) && forall name, i :: 0 <= i < |Idle(entries, name)| ==> Idle(entries, name)[i].id !in out
  }

  ghost predicate Sits(entries: map<string, Entry>, name: string, i: nat, id: nat) {
    i < |Idle(entries, name)| && Idle(entries, name)[i].id == id
  }

  ghost predicate OnePlaceEach(entries: map<string, Entry>) {
    forall id, name, i, name', j ::
      Sits(entries, name, i, id) && Sits(entries, name', j, id) ==> name == name' && i == j
  }

  /** The sessions that are out under this name and could still be pooled. */
  ghost function Live(out: map<nat, Holder>, name: string, generation: u64): set<nat> {
    set id | id in out && out[id].name == name && out[id].generation == generation && !out[id].phase.Releasing?
  }

  ghost predicate RoomInv(canon: string -> string, p: Pool, out: map<nat, Holder>) {
    forall name :: |Idle(p.entries, name)| + |Live(out, name, Gen(p.generations, canon(name)))| <= p.poolSize
  }

  ghost predicate Inv(canon: string -> string, s: State) {
    && TokensInv(s.pool, s.out, s.failed)
    && GenerationsInv(s.pool.generations, s.invalidated)
    && EntriesInv(canon, s.pool.entries, s.pool.generations)
    && IdleInv(canon, s.pool.entries, s.pool.generations, s.made)
    && OutInv(canon, s.out, s.made)
    && MadeInv(s.made, s.invalidated)
    && ApartInv(s.pool.entries, s.out)
    && RoomInv(canon, s.pool, s.out)
  }

  function Start(poolSize: nat): State {
    State(Pool(poolSize, poolSize, 0, map[], map[], false), map[], map[], map[], 0)
  }

  lemma StartInv(canon: string -> string, poolSize: nat)
    ensures Inv(canon, Start(poolSize))
  {
    assert forall name, g :: Live(map[], name, g) == {};
  }

  // ----- Counting -----

  lemma LiveAtMostOut(out: map<nat, Holder>, name: string, generation: u64)
    ensures |Live(out, name, generation)| <= |out|
  {
    SubsetSize(Live(out, name, generation), out.Keys);
  }

  lemma {:induction false} SubsetSize(a: set<nat>, b: set<nat>)
    requires a <= b
    ensures |a| <= |b|
  {
    if a != {} {
      var x :| x in a;
      SubsetSize(a - {x}, b - {x});
    }
  }

  /** Taking one session out adds it to its own name only. */
  lemma LiveAdd(out: map<nat, Holder>, id: nat, h: Holder, name: string, generation: u64)
    requires id !in out && !h.phase.Releasing?
    ensures |Live(out[id := h], name, generation)| ==
            |Live(out, name, generation)| + if h.name == name && h.generation == generation then 1 else 0
  {
    if h.name == name && h.generation == generation {
      assert Live(out[id := h], name, generation) == Live(out, name, generation) + {id};
    } else {
      assert Live(out[id := h], name, generation) == Live(out, name, generation);
    }
  }

  lemma LiveShrinks(out: map<nat, Holder>, out': map<nat, Holder>, name: string, generation: u64)
    requires Live(out', name, generation) <= Live(out, name, generation)
    ensures |Live(out', name, generation)| <= |Live(out, name, generation)|
  {
    SubsetSize(Live(out', name, generation), Live(out, name, generation));
  }

  lemma LiveRemove(out: map<nat, Holder>, id: nat, name: string, generation: u64)
    requires id in out
    ensures |Live(out - {id}, name, generation)| ==
            |Live(out, name, generation)| - if id in Live(out, name, generation) then 1 else 0
  {
    assert Live(out - {id}, name, generation) == Live(out, name, generation) - {id};
  }

  // ----- Every step keeps the invariant -----

  /** Borrow hands out a session that is nowhere else. */
  lemma BorrowSources(canon: string -> string, s: State, name: string, offered: Option<nat>)
    requires Inv(canon, s) && Enabled(s, Borrow(name, offered))
    ensures var (p, r) := BorrowStep(canon, s.pool, name, offered);
            && (r.Drained? <==> s.pool.tokens == 0)
            && (r.Drained? ==> p.tokens == s.pool.tokens)
            && (!r.Drained? ==> p.tokens == s.pool.tokens - 1)
            && p.poolSize == s.pool.poolSize && p.generations == s.pool.generations && p.closed == s.pool.closed
            && (r.Handed? ==> r.session.generation == Gen(s.pool.generations, canon(name)))
            && EntriesInv(canon, p.entries, p.generations)
            && (forall n | n != name :: Idle(p.entries, n) == Idle(s.pool.entries, n))
            && (if r.Handed? && Idle(s.pool.entries, name) != []
                then r.session.id == Idle(s.pool.entries, name)[0].id
                  && Idle(p.entries, name) == Idle(s.pool.entries, name)[1..]
                else Idle(p.entries, name) == Idle(s.pool.entries, name))
            && (r.Handed? && Idle(s.pool.entries, name) == [] ==> offered == Some(r.session.id))
  {
    hide TokensInv, RoomInv, GenerationsInv, MadeInv, OutInv, ApartInv, IdleInv;
  }

  lemma BorrowedOnce(canon: string -> string, s: State, name: string, offered: Option<nat>)
    requires Inv(canon, s) && Enabled(s, Borrow(name, offered))
    ensures var r := BorrowStep(canon, s.pool, name, offered).1;
            r.Handed? ==> r.session.id !in s.out
  {
    hide TokensInv, RoomInv, GenerationsInv, MadeInv, EntriesInv, BorrowStep;
    BorrowSources(canon, s, name, offered);
    var r := BorrowStep(canon, s.pool, name, offered).1;
    if r.Handed? && Idle(s.pool.entries, name) != [] {
      assert Idle(s.pool.entries, name)[0].id !in s.out;
    }
  }

  /** No idle session came or went. */
  ghost predicate SameIdle(entries: map<string, Entry>, entries': map<string, Entry>) {
    forall name :: Idle(entries', name) == Idle(entries, name)
  }

  /** The oldest idle session of one name was taken. */
  ghost predicate Popped(entries: map<string, Entry>, entries': map<string, Entry>, name: string) {
    && (forall n | n != name :: Idle(entries', n) == Idle(entries, n))
    && Idle(entries, name) != [] && Idle(entries', name) == Idle(entries, name)[1..]
  }

  /** A session was put behind the idle ones of one name. */
  ghost predicate Pushed(entries: map<string, Entry>, entries': map<string, Entry>, name: string, id: nat) {
    && (forall n | n != name :: Idle(entries', n) == Idle(entries, n))
    && |Idle(entries', name)| == |Idle(entries, name)| + 1
    && Idle(entries', name)[..|Idle(entries, name)|] == Idle(entries, name)
    && Idle(entries', name)[|Idle(entries, name)|].id == id
  }

  lemma PopKeeps(canon: string -> string, entries: map<string, Entry>, entries': map<string, Entry>,
                 generations: map<string, u64>,
                 made: map<nat, Opening>, out: map<nat, Holder>, name: string, h: Holder)
    requires Popped(entries, entries', name)
    requires IdleInv(canon, entries, generations, made) && ApartInv(entries, out)
    ensures IdleInv(canon, entries', generations, made)
    ensures ApartInv(entries', out[Idle(entries, name)[0].id := h])
  {
    hide IdleOk, OnePlaceEach, Sits;
    PopDistinct(entries, entries', name);
    assert forall n, i | 0 <= i < |Idle(entries', n)| ::
        Idle(entries', n)[i] == Idle(entries, n)[if n == name then i + 1 else i];
    var id := Idle(entries, name)[0].id;
    forall n, i | 0 <= i < |Idle(entries', n)| ensures Idle(entries', n)[i].id != id {
      PoppedIsGone(entries, entries', name, n, i);
    }
  }

  lemma PopDistinct(entries: map<string, Entry>, entries': map<string, Entry>, name: string)
    requires Popped(entries, entries', name) && OnePlaceEach(entries)
    ensures OnePlaceEach(entries')
  {
    hide OnePlaceEach;
    forall id, n, i, n', j | Sits(entries', n, i, id) && Sits(entries', n', j, id) ensures n == n' && i == j {
      var i' := if n == name then i + 1 else i;
      var j' := if n' == name then j + 1 else j;
      assert Sits(entries, n, i', id) && Sits(entries, n', j', id);
      DistinctPlaces(entries, id, n, i', n', j');
    }
    DistinctFrom(entries');
  }

  lemma DistinctPlaces(entries: map<string, Entry>, id: nat, name: string, i: nat, name': string, j: nat)
    requires OnePlaceEach(entries) && Sits(entries, name, i, id) && Sits(entries, name', j, id)
    ensures name == name' && i == j
  {
    hide Sits;
  }

  lemma DistinctFrom(entries: map<string, Entry>)
    requires forall id, name, i, name', j ::
             Sits(entries, name, i, id) && Sits(entries, name', j, id) ==> name == name' && i == j
    ensures OnePlaceEach(entries)
  {
    hide Sits;
  }

  lemma PoppedIsGone(entries: map<string, Entry>, entries': map<string, Entry>, name: string, n: string, i: nat)
    requires Popped(entries, entries', name) && OnePlaceEach(entries) && i < |Idle(entries', n)|
    ensures Idle(entries', n)[i].id != Idle(entries, name)[0].id
  {
    hide OnePlaceEach;
    var id := Idle(entries, name)[0].id;
    var i' := if n == name then i + 1 else i;
    if Idle(entries', n)[i].id == id {
      assert Sits(entries, n, i', id) && Sits(entries, name, 0, id);
      DistinctPlaces(entries, id, n, i', name, 0);
    }
  }

  lemma SameKeeps(canon: string -> string, entries: map<string, Entry>, entries': map<string, Entry>,
                  generations: map<string, u64>, made: map<nat, Opening>, out: map<nat, Holder>)
    requires SameIdle(entries, entries') && IdleInv(canon, entries, generations, made) && ApartInv(entries, out)
    ensures IdleInv(canon, entries', generations, made) && ApartInv(entries', out)
  {
    assert OnePlaceEach(entries') by {
      assert forall id, n, i | Sits(entries', n, i, id) :: Sits(entries, n, i, id);
    }
  }

  /** A session opened just now is nowhere in the pool. */
  lemma OpenKeeps(canon: string -> string, entries: map<string, Entry>, generations: map<string, u64>,
                  made: map<nat, Opening>, out: map<nat, Holder>, id: nat, opening: Opening, h: Holder)
    requires id !in made && IdleInv(canon, entries, generations, made) && ApartInv(entries, out)
    ensures IdleInv(canon, entries, generations, made[id := opening]) && ApartInv(entries, out[id := h])
  {
    assert forall name, i | 0 <= i < |Idle(entries, name)| :: Idle(entries, name)[i].id in made by {
      assert forall name, i | 0 <= i < |Idle(entries, name)| ::
             IdleOk(canon, generations, made, name, Idle(entries, name)[i].id);
    }
  }

  lemma PushKeeps(canon: string -> string, entries: map<string, Entry>, entries': map<string, Entry>,
                  generations: map<string, u64>,
                  made: map<nat, Opening>, out: map<nat, Holder>, name: string, id: nat)
    requires Pushed(entries, entries', name, id) && id in out && IdleOk(canon, generations, made, name, id)
    requires IdleInv(canon, entries, generations, made) && ApartInv(entries, out)
    ensures IdleInv(canon, entries', generations, made) && ApartInv(entries', out - {id})
  {
    hide IdleOk, OnePlaceEach, Sits;
    PushDistinct(entries, entries', name, id);
    assert forall n, i | 0 <= i < |Idle(entries', n)| && !(n == name && i == |Idle(entries, name)|) ::
        i < |Idle(entries, n)| && Idle(entries', n)[i] == Idle(entries, n)[i];
  }

  lemma PushDistinct(entries: map<string, Entry>, entries': map<string, Entry>, name: string, id: nat)
    requires Pushed(entries, entries', name, id) && OnePlaceEach(entries)
    requires forall n, i :: 0 <= i < |Idle(entries, n)| ==> Idle(entries, n)[i].id != id
    ensures OnePlaceEach(entries')
  {
    hide OnePlaceEach;
    forall x, n, i, n', j | Sits(entries', n, i, x) && Sits(entries', n', j, x) ensures n == n' && i == j {
      PushedPlace(entries, entries', name, id, x, n, i);
      PushedPlace(entries, entries', name, id, x, n', j);
      if x != id {
        DistinctPlaces(entries, x, n, i, n', j);
      }
    }
    DistinctFrom(entries');
  }

  lemma PushedPlace(entries: map<string, Entry>, entries': map<string, Entry>, name: string, id: nat, x: nat, n: string,
                    i: nat)
    requires Pushed(entries, entries', name, id) && Sits(entries', n, i, x)
    requires forall n, i :: 0 <= i < |Idle(entries, n)| ==> Idle(entries, n)[i].id != id
    ensures if x == id then n == name && i == |Idle(entries, name)| else Sits(entries, n, i, x)
  {
    if i < |Idle(entries, n)| {
      assert Idle(entries', n)[i] == Idle(entries, n)[i];
    }
  }

  lemma BorrowInv(canon: string -> string, s: State, name: string, offered: Option<nat>)
    requires Inv(canon, s) && Enabled(s, Borrow(name, offered))
    ensures Inv(canon, Step(canon, s, Borrow(name, offered)))
  {
    hide RoomInv, GenerationsInv, MadeInv, IdleInv, OutInv, ApartInv, EntriesInv, BorrowStep;
    var s' := Step(canon, s, Borrow(name, offered));
    BorrowSources(canon, s, name, offered);
    BorrowedOnce(canon, s, name, offered);
    var (p, r) := BorrowStep(canon, s.pool, name, offered);
    if r.Handed? {
      var id := r.session.id;
      var h := Holder(name, r.session.generation, Held);
      if Idle(s.pool.entries, name) != [] {
        PopKeeps(canon, s.pool.entries, p.entries, p.generations, s.made, s.out, name, h);
        IdleIsMade(canon, s, name, 0);
      } else {
        SameKeeps(canon, s.pool.entries, p.entries, p.generations, s.made, s.out);
        OpenKeeps(canon, p.entries, p.generations, s.made, s.out, id,
                  Opening(canon(name), Count(s.invalidated, canon(name))), h);
      }
      BorrowedOut(canon, s, s', id, h);
      BorrowRoom(canon, s, p, id, h);
    } else {
      SameKeeps(canon, s.pool.entries, p.entries, p.generations, s.made, s.out);
      SameRoom(canon, s, p);
    }
  }

  lemma IdleIsMade(canon: string -> string, s: State, name: string, i: nat)
    requires Inv(canon, s) && i < |Idle(s.pool.entries, name)|
    ensures IdleOk(canon, s.pool.generations, s.made, name, Idle(s.pool.entries, name)[i].id)
  {
  }

  lemma BorrowedOut(canon: string -> string, s: State, s': State, id: nat, h: Holder)
    requires OutInv(canon, s.out, s.made) && MadeInv(s.made, s.invalidated) && id !in s.out
    requires GenerationsInv(s.pool.generations, s.invalidated) && h.generation == Gen(s.pool.generations, canon(h.name))
    requires s'.out == s.out[id := h]
    requires if id in s.made then IdleOk(canon, s.pool.generations, s.made, h.name, id) && s'.made == s.made
             else s'.made == s.made[id := Opening(canon(h.name), Count(s.invalidated, canon(h.name)))]
    ensures OutInv(canon, s'.out, s'.made) && MadeInv(s'.made, s.invalidated)
  {
  }

  lemma SameRoom(canon: string -> string, s: State, p: Pool)
    requires RoomInv(canon, s.pool, s.out) && SameIdle(s.pool.entries, p.entries)
    requires p.generations == s.pool.generations && p.poolSize == s.pool.poolSize
    ensures RoomInv(canon, p, s.out)
  {
  }

  lemma BorrowRoom(canon: string -> string, s: State, p: Pool, id: nat, h: Holder)
    requires RoomInv(canon, s.pool, s.out) && id !in s.out && h.phase.Held?
    requires p.generations == s.pool.generations && p.poolSize == s.pool.poolSize
    requires |s.out| < p.poolSize
    requires Popped(s.pool.entries, p.entries, h.name)
             || (SameIdle(s.pool.entries, p.entries) && Idle(s.pool.entries, h.name) == [])
    ensures RoomInv(canon, p, s.out[id := h])
  {
    forall name
      ensures |Idle(p.entries, name)| + |Live(s.out[id := h], name, Gen(p.generations, canon(name)))| <= p.poolSize
    {
      LiveAdd(s.out, id, h, name, Gen(p.generations, canon(name)));
      LiveAtMostOut(s.out, name, Gen(p.generations, canon(name)));
      assert |Idle(s.pool.entries, name)| + |Live(s.out, name, Gen(p.generations, canon(name)))| <= p.poolSize;
    }
  }

  lemma FewerOut(canon: string -> string, entries: map<string, Entry>, out: map<nat, Holder>, out': map<nat, Holder>,
                 made: map<nat, Opening>)
    requires OutInv(canon, out, made) && ApartInv(entries, out)
    requires forall id | id in out' ::
             id in out && out'[id].name == out[id].name && out'[id].generation == out[id].generation
    ensures OutInv(canon, out', made) && ApartInv(entries, out')
  {
  }

  /** A session on its way back leaves the pool alone until its last section. */
  lemma PhaseInv(canon: string -> string, s: State, id: nat, phase: Phase)
    requires Inv(canon, s) && id in s.out && (s.out[id].phase.Releasing? ==> phase.Releasing?)
    ensures Inv(canon, s.(out := s.out[id := s.out[id].(phase := phase)]))
  {
    hide GenerationsInv, MadeInv, IdleInv, EntriesInv, OutInv, ApartInv;
    var out' := s.out[id := s.out[id].(phase := phase)];
    assert out'.Keys == s.out.Keys;
    FewerOut(canon, s.pool.entries, s.out, out', s.made);
    assert RoomInv(canon, s.pool, out') by {
      forall name
        ensures |Idle(s.pool.entries, name)| + |Live(out', name, Gen(s.pool.generations, canon(name)))| <=
                s.pool.poolSize
      {
        LiveShrinks(s.out, out', name, Gen(s.pool.generations, canon(name)));
        assert |Idle(s.pool.entries, name)| + |Live(s.out, name, Gen(s.pool.generations, canon(name)))| <=
               s.pool.poolSize;
      }
    }
  }

  /** A closed session only gives its token back. */
  lemma GoneInv(canon: string -> string, s: State, id: nat)
    requires Inv(canon, s) && id in s.out
    ensures Inv(canon, s.(pool := TokenBack(s.pool), out := s.out - {id}))
    ensures TokenBack(s.pool).tokens == s.pool.tokens + 1
  {
    hide GenerationsInv, MadeInv, IdleInv, EntriesInv, OutInv, ApartInv;
    var out' := s.out - {id};
    assert out'.Keys == s.out.Keys - {id};
    FewerOut(canon, s.pool.entries, s.out, out', s.made);
    assert RoomInv(canon, TokenBack(s.pool), out') by {
      forall name
        ensures |Idle(s.pool.entries, name)| + |Live(out', name, Gen(s.pool.generations, canon(name)))| <=
                s.pool.poolSize
      {
        LiveRemove(s.out, id, name, Gen(s.pool.generations, canon(name)));
        assert |Idle(s.pool.entries, name)| + |Live(s.out, name, Gen(s.pool.generations, canon(name)))| <=
               s.pool.poolSize;
      }
    }
  }

  /** There is always room for the session and for its token: a session of the
      current generation goes back to the pool, and any other one is closed. */
  lemma FinishSources(canon: string -> string, s: State, id: nat)
    requires Inv(canon, s) && InPhase(s.out, id, Flushing)
    ensures var h := s.out[id];
            var (p, r) := FinishStep(canon, s.pool, h.name, Session(id, h.generation));
            if h.generation == Gen(s.pool.generations, canon(h.name))
            then r.Pooled? && Pushed(s.pool.entries, p.entries, h.name, id)
              && EntriesInv(canon, p.entries, p.generations)
                 && p == TokenBack(s.pool).(entries := p.entries)
            else r.Outdated? && p == TokenBack(s.pool)
  {
    hide GenerationsInv, MadeInv, IdleInv, OutInv, ApartInv;
    var h := s.out[id];
    assert |Idle(s.pool.entries, h.name)| + |Live(s.out, h.name, Gen(s.pool.generations, canon(h.name)))| <=
           s.pool.poolSize;
    LiveRemove(s.out, id, h.name, Gen(s.pool.generations, canon(h.name)));
  }

  lemma FinishInv(canon: string -> string, s: State, id: nat)
    requires Inv(canon, s) && InPhase(s.out, id, Flushing)
    ensures Inv(canon, Step(canon, s, FinishReturn(id)))
  {
    hide RoomInv, GenerationsInv, MadeInv, IdleInv, OutInv, ApartInv, EntriesInv, FinishStep, TokenBack, Pushed;
    FinishSources(canon, s, id);
    GoneInv(canon, s, id);
    var h := s.out[id];
    var (p, r) := FinishStep(canon, s.pool, h.name, Session(id, h.generation));
    if r.Pooled? {
      OutIsMade(canon, s, id);
      PushKeeps(canon, s.pool.entries, p.entries, s.pool.generations, s.made, s.out, h.name, id);
      TokenBackOnly(s.pool);
      FinishRoom(canon, s, p, id);
    }
  }

  lemma TokenBackOnly(p: Pool)
    ensures TokenBack(p) == p.(tokens := TokenBack(p).tokens)
  {
  }

  lemma OutIsMade(canon: string -> string, s: State, id: nat)
    requires Inv(canon, s) && id in s.out && s.out[id].generation == Gen(s.pool.generations, canon(s.out[id].name))
    ensures IdleOk(canon, s.pool.generations, s.made, s.out[id].name, id)
  {
  }

  lemma FinishRoom(canon: string -> string, s: State, p: Pool, id: nat)
    requires RoomInv(canon, s.pool, s.out) && InPhase(s.out, id, Flushing)
    requires s.out[id].generation == Gen(s.pool.generations, canon(s.out[id].name))
    requires p.generations == s.pool.generations && p.poolSize == s.pool.poolSize
    requires Pushed(s.pool.entries, p.entries, s.out[id].name, id)
    ensures RoomInv(canon, p, s.out - {id})
  {
    forall name
      ensures |Idle(p.entries, name)| + |Live(s.out - {id}, name, Gen(p.generations, canon(name)))| <= p.poolSize
    {
      LiveRemove(s.out, id, name, Gen(p.generations, canon(name)));
      assert |Idle(s.pool.entries, name)| + |Live(s.out, name, Gen(p.generations, canon(name)))| <= p.poolSize;
    }
  }

  /** Invalidating empties the table's entries before any old session can be pooled. */
  lemma InvalidateInv(canon: string -> string, s: State, name: string)
    requires Inv(canon, s)
    ensures Inv(canon, Step(canon, s, Invalidate(name)))
  {
    hide RoomInv, GenerationsInv, MadeInv, IdleInv, OutInv, ApartInv, EntriesInv, Without, Emptied, Gen, Count;
    var s' := Step(canon, s, Invalidate(name));
    var table := canon(name);
    if table != "" {
      WithoutIdle(canon, s.pool.entries, table);
      InvalidatedGenerations(s.pool.generations, s.invalidated, table);
      InvalidatedIdle(canon, s, s', table);
      InvalidatedMade(s.made, s.invalidated, table);
      InvalidatedRoom(canon, s, s', table);
    }
  }

  /** The entries of one table are gone, the others are as they were. */
  ghost predicate Emptied(canon: string -> string, entries: map<string, Entry>, entries': map<string, Entry>,
                          table: string) {
    && (forall n :: Idle(entries', n) == if canon(n) == table then [] else Idle(entries, n))
    && (forall n | n in entries' :: n in entries && canon(n) != table && entries'[n] == entries[n])
  }

  lemma WithoutIdle(canon: string -> string, entries: map<string, Entry>, table: string)
    ensures Emptied(canon, entries, Without(canon, entries, {}, table), table)
  {
  }

  lemma InvalidatedGenerations(generations: map<string, u64>, invalidated: map<string, nat>, table: string)
    requires GenerationsInv(generations, invalidated)
    ensures GenerationsInv(generations[table := (Gen(generations, table) + 1) % U64],
                           invalidated[table := Count(invalidated, table) + 1])
  {
    var n := Count(invalidated, table);
    assert (n % U64 + 1) % U64 == (n + 1) % U64 by {
      assert n == U64 * (n / U64) + n % U64;
    }
    var generations' := generations[table := (Gen(generations, table) + 1) % U64];
    var invalidated' := invalidated[table := n + 1];
    forall t ensures Gen(generations', t) == Count(invalidated', t) % U64 {
      assert Gen(generations, t) == Count(invalidated, t) % U64;
    }
  }

  lemma InvalidatedIdle(canon: string -> string, s: State, s': State, table: string)
    requires IdleInv(canon, s.pool.entries, s.pool.generations, s.made) && ApartInv(s.pool.entries, s.out)
    requires EntriesInv(canon, s.pool.entries, s.pool.generations)
    requires Emptied(canon, s.pool.entries, s'.pool.entries, table)
    requires s'.pool.generations == s.pool.generations[table := (Gen(s.pool.generations, table) + 1) % U64]
    ensures IdleInv(canon, s'.pool.entries, s'.pool.generations, s.made) && ApartInv(s'.pool.entries, s.out)
    ensures EntriesInv(canon, s'.pool.entries, s'.pool.generations)
  {
    assert OnePlaceEach(s'.pool.entries) by {
      assert forall id, n, i | Sits(s'.pool.entries, n, i, id) :: Sits(s.pool.entries, n, i, id);
    }
    assert forall n, i | 0 <= i < |Idle(s'.pool.entries, n)| ::
        canon(n) != table && IdleOk(canon, s.pool.generations, s.made, n, Idle(s.pool.entries, n)[i].id);
  }

  lemma InvalidatedMade(made: map<nat, Opening>, invalidated: map<string, nat>, table: string)
    requires MadeInv(made, invalidated)
    ensures MadeInv(made, invalidated[table := Count(invalidated, table) + 1])
  {
  }

  lemma InvalidatedRoom(canon: string -> string, s: State, s': State, table: string)
    requires RoomInv(canon, s.pool, s.out) && |s.out| <= s.pool.poolSize && s'.pool.poolSize == s.pool.poolSize
    requires Emptied(canon, s.pool.entries, s'.pool.entries, table)
    requires s'.pool.generations == s.pool.generations[table := (Gen(s.pool.generations, table) + 1) % U64]
    ensures RoomInv(canon, s'.pool, s.out)
  {
    var g' := s'.pool.generations;
    forall n ensures |Idle(s'.pool.entries, n)| + |Live(s.out, n, Gen(g', canon(n)))| <= s.pool.poolSize {
      if canon(n) == table {
        LiveAtMostOut(s.out, n, Gen(g', canon(n)));
      } else {
        assert Gen(g', canon(n)) == Gen(s.pool.generations, canon(n));
        assert |Idle(s.pool.entries, n)| + |Live(s.out, n, Gen(s.pool.generations, canon(n)))| <= s.pool.poolSize;
      }
    }
  }

  lemma StepInv(canon: string -> string, s: State, a: Action)
    requires Inv(canon, s) && Enabled(s, a)
    ensures Inv(canon, Step(canon, s, a))
  {
    hide Inv, BorrowStep, FinishStep, InvalidateStep, TokenBack, VerdictOf;
    match a
    case Borrow(name, offered) => BorrowInv(canon, s, name, offered);
    case BeginReturn(id) =>
      var current := VerdictOf(canon, s.pool, s.out[id].name, s.out[id].generation).Current?;
      PhaseInv(canon, s, id, if current then Flushing else Releasing);
    case FlushFailed(id) => PhaseInv(canon, s, id, Releasing);
    case FinishReturn(id) => FinishInv(canon, s, id);
    case ReleaseToken(id) => GoneInv(canon, s, id);
    case Invalidate(name) => InvalidateInv(canon, s, name);
  }

  // ----- Whole runs -----

  predicate Runs(canon: string -> string, s: State, actions: seq<Action>)
    decreases |actions|
  {
    actions == [] || (Enabled(s, actions[0]) && Runs(canon, Step(canon, s, actions[0]), actions[1..]))
  }

  function After(canon: string -> string, s: State, actions: seq<Action>): State
    requires Runs(canon, s, actions)
    decreases |actions|
  {
    if actions == [] then s else After(canon, Step(canon, s, actions[0]), actions[1..])
  }

  lemma {:induction false} RunInv(canon: string -> string, s: State, actions: seq<Action>)
    requires Inv(canon, s) && Runs(canon, s, actions)
    ensures Inv(canon, After(canon, s, actions))
    decreases |actions|
  {
    hide Inv, Step;
    if actions != [] {
      StepInv(canon, s, actions[0]);
      RunInv(canon, Step(canon, s, actions[0]), actions[1..]);
    }
  }

  /** The session was opened, and is neither idle nor on its way back into the pool. */
  ghost predicate Gone(s: State, id: nat) {
    && id in s.made && (id in s.out ==> s.out[id].phase.Releasing?)
    && (forall name, i :: !Sits(s.pool.entries, name, i, id))
  }

  lemma GoneStep(canon: string -> string, s: State, a: Action, id: nat)
    requires Inv(canon, s) && Enabled(s, a) && Gone(s, id)
    ensures Gone(Step(canon, s, a), id)
    ensures a.Borrow? ==> var r := BorrowStep(canon, s.pool, a.name, a.offered).1; r.Handed? ==> r.session.id != id
  {
    hide RoomInv, IdleInv, EntriesInv, TokensInv, GenerationsInv, OutInv, MadeInv, OnePlaceEach;
    var s' := Step(canon, s, a);
    forall name, i: nat ensures !Sits(s'.pool.entries, name, i, id) {
      if a.Borrow? && i + 1 < |Idle(s.pool.entries, name)| {
        assert !Sits(s.pool.entries, name, i + 1, id);
      }
      assert !Sits(s.pool.entries, name, i, id);
    }
    if a.Borrow? {
      assert !Sits(s.pool.entries, a.name, 0, id);
    }
  }

  /** In every interleaving: a session whose flush failed in a return, and one found stale,
      never gets back into the pool and is never handed out again. */
  lemma {:induction false} ClosedForGood(canon: string -> string, s: State, run: seq<Action>, id: nat)
    requires Inv(canon, s) && Runs(canon, s, run) && Gone(s, id)
    ensures Gone(After(canon, s, run), id)
    decreases |run|
  {
    hide Inv, Step, Gone;
    if run != [] {
      StepInv(canon, s, run[0]);
      GoneStep(canon, s, run[0], id);
      ClosedForGood(canon, Step(canon, s, run[0]), run[1..], id);
    }
  }

  lemma FailedFlushCloses(canon: string -> string, s: State, id: nat)
    requires Inv(canon, s) && Enabled(s, FlushFailed(id))
    ensures Gone(Step(canon, s, FlushFailed(id)), id)
  {
    hide RoomInv, IdleInv, EntriesInv, TokensInv, GenerationsInv, MadeInv, OnePlaceEach;
  }

  lemma StaleCloses(canon: string -> string, s: State, id: nat)
    requires Inv(canon, s) && Enabled(s, BeginReturn(id))
    requires s.out[id].generation != Gen(s.pool.generations, canon(s.out[id].name))
    ensures Gone(Step(canon, s, BeginReturn(id)), id)
  {
    hide RoomInv, IdleInv, EntriesInv, TokensInv, GenerationsInv, MadeInv, OnePlaceEach;
  }

  /** A session handed out for a table was opened for that table, and since then
      the table was invalidated a multiple of 2^64 times: not at all, unless
      somebody invalidated it 2^64 times in all. */
  lemma HandedOutFresh(canon: string -> string, poolSize: nat, run: seq<Action>, name: string, offered: Option<nat>)
    requires Runs(canon, Start(poolSize), run) && Enabled(After(canon, Start(poolSize), run), Borrow(name, offered))
    ensures var s := After(canon, Start(poolSize), run);
            var s' := Step(canon, s, Borrow(name, offered));
            var r := BorrowStep(canon, s.pool, name, offered).1;
            var now := Count(s.invalidated, canon(name));
            r.Handed? ==>
              && r.session.id !in s.out && r.session.id in s'.made && s'.made[r.session.id].table == canon(name)
              && s'.made[r.session.id].at <= now && (now - s'.made[r.session.id].at) % U64 == 0
              && (now < U64 ==> s'.made[r.session.id].at == now)
  {
    hide Runs, After, BorrowStep, RoomInv, IdleInv, ApartInv, EntriesInv, TokensInv, Step, Enabled, Start;
    StartInv(canon, poolSize);
    RunInv(canon, Start(poolSize), run);
    var s := After(canon, Start(poolSize), run);
    var a := Borrow(name, offered);
    StepInv(canon, s, a);
    BorrowSources(canon, s, name, offered);
    BorrowedOnce(canon, s, name, offered);
    var s' := Step(canon, s, a);
    BorrowedIsOut(canon, s, name, offered);
    var r := BorrowStep(canon, s.pool, name, offered).1;
    if r.Handed? {
      FreshModulo(s'.made[r.session.id].at, Count(s.invalidated, canon(name)));
    }
  }

  lemma BorrowedIsOut(canon: string -> string, s: State, name: string, offered: Option<nat>)
    requires Enabled(s, Borrow(name, offered))
    ensures var s' := Step(canon, s, Borrow(name, offered));
            var r := BorrowStep(canon, s.pool, name, offered).1;
            s'.invalidated == s.invalidated &&
            (r.Handed? ==> r.session.id in s'.out && s'.out[r.session.id] == Holder(name, r.session.generation, Held))
  {
    hide BorrowStep;
  }

  lemma FreshModulo(at: nat, now: nat)
    requires at <= now && at % U64 == now % U64
    ensures (now - at) % U64 == 0
    ensures now < U64 ==> at == now
  {
    assert now - at == U64 * (now / U64 - at / U64);
    var q := now / U64 - at / U64;
    assert (U64 * q) % U64 == 0;
  }

  /** The staleness test of a return is right about every session that is out,
      except that 2^64 invalidations look like none. */
  lemma StaleTest(canon: string -> string, poolSize: nat, run: seq<Action>, id: nat)
    requires Runs(canon, Start(poolSize), run)
    requires id in After(canon, Start(poolSize), run).out
    ensures var s := After(canon, Start(poolSize), run);
            id in s.made && StaleTestExact(canon, s, s.out[id], s.made[id])
  {
    hide Runs, After, RoomInv, IdleInv, ApartInv, EntriesInv, Start, StaleTestExact;
    StartInv(canon, poolSize);
    RunInv(canon, Start(poolSize), run);
    var s := After(canon, Start(poolSize), run);
    StaleTestFrom(canon, s, s.out[id], s.made[id]);
  }

  ghost predicate StaleTestExact(canon: string -> string, s: State, h: Holder, o: Opening) {
    var since := Count(s.invalidated, canon(h.name)) - o.at;
    since >= 0 && (VerdictOf(canon, s.pool, h.name, h.generation).Stale? <==> since % U64 != 0)
  }

  lemma StaleTestFrom(canon: string -> string, s: State, h: Holder, o: Opening)
    requires GenerationsInv(s.pool.generations, s.invalidated) && !s.pool.closed
    requires o.table == canon(h.name) && o.at % U64 == h.generation && o.at <= Count(s.invalidated, o.table)
    ensures StaleTestExact(canon, s, h, o)
  {
    StaleModulo(o.at, Count(s.invalidated, canon(h.name)));
    assert Gen(s.pool.generations, canon(h.name)) == Count(s.invalidated, canon(h.name)) % U64;
  }

  lemma StaleModulo(at: nat, now: nat)
    requires at <= now
    ensures at % U64 == now % U64 <==> (now - at) % U64 == 0
  {
    if at % U64 == now % U64 {
      FreshModulo(at, now);
    }
    if (now - at) % U64 == 0 {
      var q := (now - at) / U64;
      assert now == at + U64 * q;
      assert now == U64 * (q + at / U64) + at % U64;
      assert (U64 * (q + at / U64) + at % U64) % U64 == at % U64;
    }
  }

  /** Tokens are conserved: the free ones, those of the sessions that are out and
      those spent on sessions that could not be opened make up the pool. So a
      Borrow is refused exactly when the sessions out and the failed openings use
      the pool up, and a failed opening costs a token for good. */
  lemma DrainedIff(canon: string -> string, poolSize: nat, run: seq<Action>, name: string, offered: Option<nat>)
    requires Runs(canon, Start(poolSize), run) && Enabled(After(canon, Start(poolSize), run), Borrow(name, offered))
    ensures var s := After(canon, Start(poolSize), run);
            && s.pool.tokens + |s.out| + s.failed == poolSize
            && (BorrowStep(canon, s.pool, name, offered).1.Drained? <==> |s.out| + s.failed == poolSize)
  {
    hide Runs, After, RoomInv, IdleInv, ApartInv, EntriesInv, Start, BorrowStep, GenerationsInv, OutInv, MadeInv;
    StartInv(canon, poolSize);
    RunInv(canon, Start(poolSize), run);
    SizeStays(canon, Start(poolSize), run);
    StartSize(poolSize);
    BorrowSources(canon, After(canon, Start(poolSize), run), name, offered);
  }

  lemma StartSize(poolSize: nat)
    ensures Start(poolSize).pool.poolSize == poolSize
  {
  }

  lemma {:induction false} SizeStays(canon: string -> string, s: State, run: seq<Action>)
    requires Runs(canon, s, run)
    ensures After(canon, s, run).pool.poolSize == s.pool.poolSize
    decreases |run|
  {
    if run != [] {
      SizeStep(canon, s, run[0]);
      SizeStays(canon, Step(canon, s, run[0]), run[1..]);
    }
  }

  lemma SizeStep(canon: string -> string, s: State, a: Action)
    requires Enabled(s, a)
    ensures Step(canon, s, a).pool.poolSize == s.pool.poolSize
  {
  }

  /** The fallbacks for a full channel are never taken: the last section of a
      return pools the session behind the idle ones or, exactly when its table was
      invalidated, closes it; either way its token comes back. */
  lemma ReturnFindsRoom(canon: string -> string, poolSize: nat, run: seq<Action>, id: nat)
    requires Runs(canon, Start(poolSize), run)
    requires InPhase(After(canon, Start(poolSize), run).out, id, Flushing)
    ensures var s := After(canon, Start(poolSize), run);
            var h := s.out[id];
            var (p, r) := FinishStep(canon, s.pool, h.name, Session(id, h.generation));
            && p.tokens == s.pool.tokens + 1 <= poolSize
            && (r.Pooled? <==> h.generation == Gen(s.pool.generations, canon(h.name)))
            && (r.Outdated? <==> h.generation != Gen(s.pool.generations, canon(h.name)))
            && (r.Pooled? ==> Pushed(s.pool.entries, p.entries, h.name, id))
            && (r.Outdated? ==> p.entries == s.pool.entries)
  {
    hide Runs, After, RoomInv, IdleInv, ApartInv, EntriesInv, Start, FinishStep, GenerationsInv, OutInv, MadeInv,
         Pushed;
    StartInv(canon, poolSize);
    RunInv(canon, Start(poolSize), run);
    SizeStays(canon, Start(poolSize), run);
    StartSize(poolSize);
    var s := After(canon, Start(poolSize), run);
    FinishSources(canon, s, id);
    GoneInv(canon, s, id);
  }
}
