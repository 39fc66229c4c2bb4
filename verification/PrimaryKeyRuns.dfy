/** What the primary-key authority promises over whole runs of one session: one column
    ID an identity, no two identities of a time shard on one column ID, and the answer
    a plain lookup would give; and exactly which flushes break it. */
module PrimaryKeyRuns {
  import opened Prelude
  import opened PrimaryKeys

  // ----- What a request is answered -----

  function StateOf(domains: map<DomainKey, DomainState>, key: DomainKey): DomainState {
    if key in domains then domains[key] else Unknown
  }

  /** Neither a cached mark of the domain nor one of the authority decides. */
  predicate Undecided(s: Keys, id: Identity) {
    var key := Domain(if s.timed then id.shard else 0);
    StateOf(s.domains, key).Unknown? && !StateOf(s.domains, Authority).NonEmpty?
  }

  /** The committed keys have none in the identity's domain. */
  ghost predicate NoneCommitted(s: Keys, id: Identity) {
    forall other | other in s.backend :: s.timed && other.shard != id.shard
  }

  /** The request is not looked up: it says that the key is new, or its domain is marked or
      reported empty while the authority is not marked as having keys. */
  ghost predicate NotLookedUp(s: Keys, req: Request, a: Answers) {
    var key := Domain(if s.timed then req.identity.shard else 0);
    || req.assumeNew
    || (StateOf(s.domains, key).Empty? && !StateOf(s.domains, Authority).NonEmpty?)
    || (Undecided(s, req.identity) && a.probes && !a.probeFails && NoneCommitted(s, req.identity))
  }

  /** No column ID is to be had: none was provided, the shard's block is used up, and no new
      one can be checked out. */
  predicate OutOfColumns(s: Keys, req: Request, a: Answers) {
    var shard := req.identity.shard;
    && req.provided == 0 && a.checkout.None?
    && (shard !in s.blocks || s.blocks[shard].current >= (s.blocks[shard].start + s.blocks[shard].count) % U64)
  }

  /** The column ID a new key gets: the provided one, the next of the shard's block, or the
      first of the block that is checked out. */
  function NewColumn(s: Keys, req: Request, a: Answers): u64 {
    var shard := req.identity.shard;
    if req.provided != 0 then req.provided
    else if shard in s.blocks && s.blocks[shard].current < (s.blocks[shard].start + s.blocks[shard].count) % U64
    then s.blocks[shard].current
    else if a.checkout.Some? && a.checkout.value.current < (a.checkout.value.start + a.checkout.value.count) % U64
    then a.checkout.value.current
    else 0
  }

  /** A request for a key that is not among the session's own is answered with an error
      exactly if the probe fails, the lookup fails or finds more than one column ID, or a
      column ID is needed and cannot be had or staged; one of the session's own exactly if
      another column ID is provided. A key found once has that column ID; a key found
      nowhere gets a new one, or zero if it is only to be looked up. */
  lemma ResolveAnswers(s: Keys, req: Request, a: Answers)
    ensures var r, id := ResolveStep(s, req, a).1, req.identity;
            var found := if id in s.backend then s.backend[id] else [];
            var blind := NotLookedUp(s, req, a);
            var needs := blind || (found == [] && !req.lookupOnly);
            if id in s.local then
              && (r.Err? <==> req.provided != 0 && req.provided != s.local[id])
              && (r.Ok? ==> r.value == Resolved(s.local[id], true))
            else
              && (r.Err? <==> || (!req.assumeNew && Undecided(s, id) && a.probes && a.probeFails)
                              || (!blind && (a.lookupFails || |found| > 1))
                              || (needs && (OutOfColumns(s, req, a) || a.stageFails)))
              && (r.Ok? ==> r.value.existing == (!blind && |found| == 1))
              && (r.Ok? && !blind && |found| == 1 ==> r.value.columnId == found[0])
              && (r.Ok? && !blind && found == [] && req.lookupOnly ==> r.value.columnId == 0)
              && (r.Ok? && needs ==> r.value.columnId == NewColumn(s, req, a))
  {
    hide AllocateStep, NextColumn, Mark;
    SkipMeans(s, req.identity, a);
    AllocateMeans(s, req, a);
    AllocateMeans(s.(domains := SkipStep(s, req.identity, a).0), req, a);
  }

  /** The domain states after the probe, if there was one. */
  ghost function Probed(s: Keys, id: Identity, a: Answers): map<DomainKey, DomainState> {
    var key := Domain(if s.timed then id.shard else 0);
    if !Undecided(s, id) || !a.probes || a.probeFails then s.domains
    else if NoneCommitted(s, id) then s.domains[key := Empty]
    else s.domains[key := NonEmpty][Authority := NonEmpty]
  }

  /** The backend is asked for the key, and answers. */
  ghost predicate LooksUp(s: Keys, req: Request, a: Answers) {
    && req.identity !in s.local && !NotLookedUp(s, req, a) && !a.lookupFails
    && !(Undecided(s, req.identity) && a.probes && a.probeFails)
  }

  /** A key that gets a column ID is staged with it, and cached unless the column ID is zero. */
  ghost predicate Stages(s: Keys, id: Identity, s': Keys, r: Result<Resolved>, gets: bool) {
    && s'.backend == s.backend && s'.timed == s.timed
    && (gets ==> r.Ok?)
    && s'.staged == (if gets then s.staged[id := r.value.columnId] else s.staged)
    && s'.local == (if gets && r.value.columnId != 0 then s.local[id := r.value.columnId] else s.local)
  }

  /** What a request leaves behind. The backend's keys stay as they are. A probe marks the
      domain, and the authority if there are keys; so does a lookup that finds the key. A key
      that gets a column ID is staged and cached. */
  lemma ResolveLeaves(s: Keys, req: Request, a: Answers)
    ensures var (s', r) := ResolveStep(s, req, a);
            var id := req.identity;
            var found := if id in s.backend then s.backend[id] else [];
            var key := Domain(if s.timed then id.shard else 0);
            && Stages(s, id, s', r, r.Ok? && !r.value.existing && !(LooksUp(s, req, a) && req.lookupOnly))
            && s'.domains ==
               if id in s.local || req.assumeNew then s.domains
               else if LooksUp(s, req, a) && |found| == 1 then Probed(s, id, a)[key := NonEmpty][Authority := NonEmpty]
               else Probed(s, id, a)
  {
    hide NextColumn, SkipStep, Probed, Undecided, NoneCommitted, StateOf, AllocateStep, LookupStep, Stages, NotLookedUp;
    var id := req.identity;
    SkipMeans(s, id, a);
    SkipAsked(s, req, a);
    var s1 := s.(domains := SkipStep(s, id, a).0);
    if id in s.local {
      NothingStaged(s, id, s, ResolveStep(s, req, a).1);
    } else if req.assumeNew {
      AllocateLeaves(s, req, a);
    } else if SkipStep(s, id, a).1.Err? {
      NothingStaged(s, id, s, ResolveStep(s, req, a).1);
    } else if SkipStep(s, id, a).1.value {
      AllocateLeaves(s1, req, a);
      StagesFrom(s, s1, id, AllocateStep(s1, req, a).0, AllocateStep(s1, req, a).1);
    } else {
      LookupLeaves(s1, req, a);
      StagesFrom(s, s1, id, LookupStep(s1, req, a).0, LookupStep(s1, req, a).1);
    }
  }

  lemma SkipAsked(s: Keys, req: Request, a: Answers)
    ensures NotLookedUp(s, req, a) <==> req.assumeNew || NotLookedUp(s, Request(req.identity, 0, false, false), a)
  {
  }

  lemma NothingStaged(s: Keys, id: Identity, s': Keys, r: Result<Resolved>)
    requires s'.backend == s.backend && s'.timed == s.timed && s'.staged == s.staged && s'.local == s.local
    ensures Stages(s, id, s', r, false)
  {
  }

  lemma StagesFrom(s: Keys, s1: Keys, id: Identity, s': Keys, r: Result<Resolved>)
    requires s1.backend == s.backend && s1.timed == s.timed && s1.staged == s.staged && s1.local == s.local
    ensures forall gets :: Stages(s, id, s', r, gets) <==> Stages(s1, id, s', r, gets)
  {
  }

  lemma AllocateLeaves(s: Keys, req: Request, a: Answers)
    requires req.identity !in s.local
    ensures var (s', r) := AllocateStep(s, req, a);
            s'.domains == s.domains && (r.Ok? ==> !r.value.existing) && Stages(s, req.identity, s', r, r.Ok?)
  {
    hide NextColumn;
  }

  lemma LookupLeaves(s: Keys, req: Request, a: Answers)
    requires req.identity !in s.local
    ensures var (s', r) := LookupStep(s, req, a);
            var id := req.identity;
            var found := if id in s.backend then s.backend[id] else [];
            && Stages(s, id, s', r, r.Ok? && !r.value.existing && (a.lookupFails || !req.lookupOnly))
            && s'.domains == if !a.lookupFails && |found| == 1
                             then s.domains[Domain(if s.timed then id.shard else 0) := NonEmpty][Authority := NonEmpty]
                             else s.domains
  {
    hide NextColumn, AllocateStep;
    AllocateLeaves(s, req, a);
  }

  lemma SkipMeans(s: Keys, id: Identity, a: Answers)
    ensures SkipStep(s, id, a).1.Err? <==> Undecided(s, id) && a.probes && a.probeFails
    ensures SkipStep(s, id, a).1 == Ok(true) <==> NotLookedUp(s, Request(id, 0, false, false), a)
    ensures SkipStep(s, id, a).0 == Probed(s, id, a)
    ensures SkipStep(s, id, a).1.Err? ==> SkipStep(s, id, a).0 == s.domains
  {
    if Undecided(s, id) && Probe(s, id).NonEmpty? {
      var other :| other in s.backend && DomainOf(s.timed, other) == DomainOf(s.timed, id);
    }
  }

  lemma AllocateMeans(s: Keys, req: Request, a: Answers)
    ensures var r := AllocateStep(s, req, a).1;
            && (r.Err? <==> OutOfColumns(s, req, a) || a.stageFails)
            && (r.Ok? ==> !r.value.existing && r.value.columnId == NewColumn(s, req, a))
  {
  }

  // ----- Agreement with the plain lookup -----

  /** The plain resolver: ask the backend, and only then allocate. */
  function Plain(s: Keys, req: Request, a: Answers): Result<Resolved> {
    if req.identity in s.local then
      if req.provided != 0 && req.provided != s.local[req.identity] then Err("local batch conflict")
      else Ok(Resolved(s.local[req.identity], true))
    else LookupStep(s, req, a).1
  }

  predicate LawfulBlock(b: Block) {
    1 <= b.start <= b.current <= b.start + b.count < U64 && b.count > 0
  }

  ghost predicate LawfulBlocks(blocks: map<int, Block>) {
    forall shard | shard in blocks :: LawfulBlock(blocks[shard])
  }

  predicate LawfulCheckout(checkout: Option<Block>) {
    checkout.Some? ==> LawfulBlock(checkout.value) && checkout.value.current == checkout.value.start
  }

  /** The resolver allocates without looking. */
  ghost predicate Skips(s: Keys, req: Request, a: Answers) {
    req.identity !in s.local && (req.assumeNew || SkipStep(s, req.identity, a).1 == Ok(true))
  }

  /** A resolver with its caches answers as the plain one exactly unless it skips the
      lookup of a key that the backend has, or of a request that must not allocate. */
  lemma AgreesIff(s: Keys, req: Request, a: Answers)
    requires LawfulBlocks(s.blocks) && LawfulCheckout(a.checkout) && !a.probeFails && !a.lookupFails
    ensures ResolveStep(s, req, a).1 == Plain(s, req, a) <==>
            !(Skips(s, req, a) && (Matches(s.backend, req.identity) != [] || req.lookupOnly))
  {
    AllocatesFresh(s, req, a);
    AllocatesFresh(s.(domains := SkipStep(s, req.identity, a).0), req, a);
  }

  lemma AllocatesFresh(s: Keys, req: Request, a: Answers)
    requires LawfulBlocks(s.blocks) && LawfulCheckout(a.checkout)
    ensures var r := AllocateStep(s, req, a).1;
            (r.Ok? ==> r.value.columnId != 0 && !r.value.existing)
            && (r.Err? ==> r.error == "sequencer checkout" || r.error == "stage")
    ensures forall domains :: AllocateStep(s.(domains := domains), req, a).1 == AllocateStep(s, req, a).1
  {
  }

  /** A probe is true, so only a cached mark can hide a key the backend has. */
  lemma OnlyCachesHide(s: Keys, req: Request, a: Answers)
    requires Skips(s, req, a) && req.identity in s.backend && !req.assumeNew
    ensures CacheSkips(s.timed, s.domains, req.identity)
  {
  }

  // ----- Runs -----

  /** The session, and every column ID of a shard that was ever reserved or provided. */
  datatype State = State(keys: Keys, reserved: set<(int, u64)>)

  datatype Action = Resolve(req: Request, answers: Answers) | Flush(sent: set<Identity>)

  function Column(backend: map<Identity, seq<u64>>, local: map<Identity, u64>, id: Identity): Option<u64> {
    if id in local then Some(local[id]) else if Matches(backend, id) != [] then Some(Matches(backend, id)[0]) else None
  }

  function ColumnIn(s: Keys, id: Identity): Option<u64> {
    Column(s.backend, s.local, id)
  }

  function BlockIds(shard: int, b: Block): set<(int, u64)> {
    set v: u64 | b.start <= v < b.start + b.count :: (shard, v)
  }

  /** Requests verify existing rows; blocks and provided column IDs are new. */
  ghost predicate Enabled(s: State, a: Action) {
    match a
    case Resolve(req, answers) =>
      && !req.assumeNew && LawfulCheckout(answers.checkout)
      && (answers.checkout.Some? ==> BlockIds(req.identity.shard, answers.checkout.value) !! s.reserved)
      && (req.provided != 0 && ColumnIn(s.keys, req.identity).None? ==>
            (req.identity.shard, req.provided) !in s.reserved
            && (answers.checkout.Some? ==>
                (req.identity.shard, req.provided) !in BlockIds(req.identity.shard, answers.checkout.value)))
    case Flush(_) => true
  }

  /** Every staged key is sent, and no cached mark says its domain is empty. */
  ghost predicate SafeFlush(s: Keys, sent: set<Identity>) {
    forall id | id in s.staged :: id in sent && !CacheSkips(s.timed, s.domains, id)
  }

  /** The column IDs reserved or used by the time of an answer. */
  ghost function Reserve(reserved: set<(int, u64)>, shard: int, k: Keys, r: Result<Resolved>): set<(int, u64)> {
    reserved + (if shard in k.blocks then BlockIds(shard, k.blocks[shard]) else {})
    + (if r.Ok? && !r.value.existing && r.value.columnId != 0 then {(shard, r.value.columnId)} else {})
  }

  ghost function Step(s: State, a: Action): State {
    match a
    case Resolve(req, answers) =>
      var (keys, r) := ResolveStep(s.keys, req, answers);
      State(keys, Reserve(s.reserved, req.identity.shard, keys, r))
    case Flush(sent) => s.(keys := FlushStep(s.keys, sent))
  }

  // ----- Invariant -----

  /** The cache of unflushed keys is what is staged, and a key is staged or with the
      backend, there with one column ID. */
  ghost predicate OneInv(backend: map<Identity, seq<u64>>, staged: map<Identity, u64>, local: map<Identity, u64>) {
    local == staged && (forall id | id in backend :: |backend[id]| == 1 && id !in staged)
  }

  ghost predicate UsedInv(backend: map<Identity, seq<u64>>, local: map<Identity, u64>, reserved: set<(int, u64)>) {
    forall id | Column(backend, local, id).Some? ::
      Column(backend, local, id).value != 0 && (id.shard, Column(backend, local, id).value) in reserved
  }

  /** No two identities of a shard share a column ID. */
  ghost predicate Injective(backend: map<Identity, seq<u64>>, local: map<Identity, u64>) {
    forall id: Identity, id': Identity | id.shard == id'.shard && Column(backend, local, id).Some? ::
      Column(backend, local, id) == Column(backend, local, id') ==> id == id'
  }

  ghost predicate BlockInv(backend: map<Identity, seq<u64>>, local: map<Identity, u64>, blocks: map<int, Block>,
                           reserved: set<(int, u64)>) {
    && LawfulBlocks(blocks)
    && (forall shard | shard in blocks :: BlockIds(shard, blocks[shard]) <= reserved)
    && (forall shard | shard in blocks ::
          Clear(backend, local, shard, blocks[shard].current, blocks[shard].start + blocks[shard].count))
  }

  /** No identity of the shard has a column ID from `lo` up to `hi`. */
  ghost predicate Clear(backend: map<Identity, seq<u64>>, local: map<Identity, u64>, shard: int, lo: int, hi: int) {
    forall id: Identity | id.shard == shard && Column(backend, local, id).Some? ::
      Column(backend, local, id).value < lo || Column(backend, local, id).value >= hi
  }

  /** The caches never hide a key that the backend has. */
  ghost predicate SkipInv(timed: bool, backend: map<Identity, seq<u64>>, domains: map<DomainKey, DomainState>) {
    forall id | id in backend :: !CacheSkips(timed, domains, id)
  }

  ghost predicate Inv(s: State) {
    && OneInv(s.keys.backend, s.keys.staged, s.keys.local)
    && UsedInv(s.keys.backend, s.keys.local, s.reserved)
    && Injective(s.keys.backend, s.keys.local)
    && BlockInv(s.keys.backend, s.keys.local, s.keys.blocks, s.reserved)
    && SkipInv(s.keys.timed, s.keys.backend, s.keys.domains)
  }

  /** A backend that any earlier sessions left: one column ID an identity, none zero, no
      two identities of a shard on one column ID, and all of them reserved. */
  ghost predicate LawfulBackend(backend: map<Identity, seq<u64>>, reserved: set<(int, u64)>) {
    && (forall id | id in backend ::
        |backend[id]| == 1 && backend[id][0] != 0 && (id.shard, backend[id][0]) in reserved)
    && (forall id, id' | id in backend && id' in backend && id.shard == id'.shard ::
          backend[id] == backend[id'] ==> id == id')
  }

  /** A new session: nothing staged, cached or checked out. */
  function Opening(timed: bool, backend: map<Identity, seq<u64>>, reserved: set<(int, u64)>): State {
    State(Keys(timed, backend, map[], map[], map[], map[]), reserved)
  }

  lemma OpeningInv(timed: bool, backend: map<Identity, seq<u64>>, reserved: set<(int, u64)>)
    requires LawfulBackend(backend, reserved)
    ensures Inv(Opening(timed, backend, reserved))
  {
    assert forall id :: Column(backend, map[], id) == if id in backend then Some(backend[id][0]) else None;
  }

  // ----- Every step keeps the invariant -----

  /** The identity is the first of its shard to get this column ID. */
  ghost predicate Unused(backend: map<Identity, seq<u64>>, local: map<Identity, u64>, shard: int, c: u64) {
    forall id: Identity | id.shard == shard :: Column(backend, local, id) != Some(c)
  }

  lemma NotReservedUnused(backend: map<Identity, seq<u64>>, local: map<Identity, u64>, reserved: set<(int, u64)>,
                          shard: int, c: u64)
    requires UsedInv(backend, local, reserved) && (shard, c) !in reserved
    ensures Unused(backend, local, shard, c)
  {
  }

  lemma ClearUnused(backend: map<Identity, seq<u64>>, local: map<Identity, u64>, shard: int, lo: u64, hi: int)
    requires Clear(backend, local, shard, lo, hi) && lo < hi
    ensures Unused(backend, local, shard, lo) && Clear(backend, local, shard, lo + 1, hi)
  {
    hide Column;
  }

  lemma BlockHas(shard: int, b: Block, c: u64)
    requires b.start <= c < b.start + b.count
    ensures (shard, c) in BlockIds(shard, b)
  {
  }

  lemma NewBlockClear(backend: map<Identity, seq<u64>>, local: map<Identity, u64>, reserved: set<(int, u64)>,
                      shard: int, b: Block)
    requires UsedInv(backend, local, reserved) && BlockIds(shard, b) !! reserved
    ensures Clear(backend, local, shard, b.start, b.start + b.count)
  {
    hide Column;
    forall id: Identity | id.shard == shard && Column(backend, local, id).Some?
      ensures Column(backend, local, id).value < b.start || Column(backend, local, id).value >= b.start + b.count
    {
      assert (shard, Column(backend, local, id).value) !in BlockIds(shard, b);
    }
  }

  /** Taking the next column ID of a block whose rest is unused. */
  lemma TakeNext(k: Keys, reserved: set<(int, u64)>, shard: int, b: Block)
    requires BlockInv(k.backend, k.local, k.blocks, reserved)
    requires LawfulBlock(b) && HasNext(b) && Clear(k.backend, k.local, shard, b.current, b.start + b.count)
    ensures var b' := b.(current := b.current + 1);
            && BlockInv(k.backend, k.local, k.blocks[shard := b'], reserved + BlockIds(shard, b'))
            && Unused(k.backend, k.local, shard, b.current)
  {
    hide Column, Clear, Unused, BlockIds;
    ClearUnused(k.backend, k.local, shard, b.current, b.start + b.count);
  }

  /** What NextColumnID gives is unused, and so is the rest of the block. */
  lemma NextColumnUnused(k: Keys, reserved: set<(int, u64)>, shard: int, checkout: Option<Block>)
    requires UsedInv(k.backend, k.local, reserved) && BlockInv(k.backend, k.local, k.blocks, reserved)
    requires LawfulCheckout(checkout) && (checkout.Some? ==> BlockIds(shard, checkout.value) !! reserved)
    ensures var (blocks, r) := NextColumn(k.blocks, shard, checkout);
            && BlockInv(k.backend, k.local, blocks,
                        reserved + (if shard in blocks then BlockIds(shard, blocks[shard]) else {}))
            && (r.Ok? ==> r.value != 0 && Unused(k.backend, k.local, shard, r.value) && shard in blocks
                          && r.value < blocks[shard].current)
  {
    hide Column, Unused, Clear, BlockIds, UsedInv;
    if shard in k.blocks && HasNext(k.blocks[shard]) {
      TakeNext(k, reserved, shard, k.blocks[shard]);
    } else if checkout.Some? {
      NewBlockClear(k.backend, k.local, reserved, shard, checkout.value);
      TakeNext(k, reserved, shard, checkout.value);
    } else if shard in k.blocks {
      assert reserved + BlockIds(shard, k.blocks[shard]) == reserved;
    }
  }

  /** Giving an identity its first column ID. */
  lemma AssignKeeps(backend: map<Identity, seq<u64>>, local: map<Identity, u64>, blocks: map<int, Block>,
                    reserved: set<(int, u64)>, id: Identity, c: u64)
    requires UsedInv(backend, local, reserved) && Injective(backend, local)
             && BlockInv(backend, local, blocks, reserved)
    requires c != 0 && Unused(backend, local, id.shard, c) && Column(backend, local, id).None?
    requires id.shard in blocks ==> c < blocks[id.shard].current || c >= blocks[id.shard].start + blocks[id.shard].count
    ensures UsedInv(backend, local[id := c], reserved + {(id.shard, c)}) && Injective(backend, local[id := c])
    ensures BlockInv(backend, local[id := c], blocks, reserved + {(id.shard, c)})
  {
    AssignedColumn(backend, local, id, c);
    hide Column;
    forall shard | shard in blocks
      ensures Clear(backend, local[id := c], shard, blocks[shard].current, blocks[shard].start + blocks[shard].count)
    {
      assert Clear(backend, local, shard, blocks[shard].current, blocks[shard].start + blocks[shard].count);
    }
  }

  lemma AssignedColumn(backend: map<Identity, seq<u64>>, local: map<Identity, u64>, id: Identity, c: u64)
    ensures forall other ::
            Column(backend, local[id := c], other) == if other == id then Some(c) else Column(backend, local, other)
  {
    var local' := local[id := c];
    forall other
      ensures Column(backend, local', other) == if other == id then Some(c) else Column(backend, local, other)
    {
      assert other in local' <==> other == id || other in local;
    }
  }

  lemma UsedMore(backend: map<Identity, seq<u64>>, local: map<Identity, u64>, reserved: set<(int, u64)>,
                 more: set<(int, u64)>)
    requires UsedInv(backend, local, reserved) && reserved <= more
    ensures UsedInv(backend, local, more)
  {
    hide Column;
  }

  lemma NotLocal(backend: map<Identity, seq<u64>>, local: map<Identity, u64>, id: Identity)
    requires Column(backend, local, id).None?
    ensures id !in local && Matches(backend, id) == []
  {
  }

  lemma ProvidedOutside(k: Keys, reserved: set<(int, u64)>, shard: int, c: u64)
    requires BlockInv(k.backend, k.local, k.blocks, reserved) && (shard, c) !in reserved
    ensures shard in k.blocks ==>
              (c < k.blocks[shard].current || c >= k.blocks[shard].start + k.blocks[shard].count)
              && reserved + BlockIds(shard, k.blocks[shard]) == reserved
  {
    hide Column, Clear;
    if shard in k.blocks {
      var b := k.blocks[shard];
      if b.start <= c < b.start + b.count {
        BlockHas(shard, b, c);
      }
    }
  }

  /** The column ID that the allocation settles on, and the blocks afterwards. */
  lemma ColumnChosen(s: State, req: Request, a: Answers)
    requires Inv(s) && Enabled(s, Resolve(req, a)) && ColumnIn(s.keys, req.identity).None?
    ensures var k, shard := s.keys, req.identity.shard;
            var (blocks, column) :=
              if req.provided != 0 then (k.blocks, Ok(req.provided)) else NextColumn(k.blocks, shard, a.checkout);
            var r1 := s.reserved + (if shard in blocks then BlockIds(shard, blocks[shard]) else {});
            && BlockInv(k.backend, k.local, blocks, r1) && UsedInv(k.backend, k.local, r1)
            && (column.Ok? ==> column.value != 0 && Unused(k.backend, k.local, shard, column.value)
                               && (shard in blocks ==> column.value < blocks[shard].current
                                                       || column.value >= blocks[shard].start + blocks[shard].count))
  {
    hide Column, Injective, SkipInv, NextColumn, OneInv, BlockIds, Unused, UsedInv, BlockInv;
    var k, shard := s.keys, req.identity.shard;
    var (blocks, column) :=
      if req.provided != 0 then (k.blocks, Ok(req.provided)) else NextColumn(k.blocks, shard, a.checkout);
    var r1 := s.reserved + (if shard in blocks then BlockIds(shard, blocks[shard]) else {});
    UsedMore(k.backend, k.local, s.reserved, r1);
    if req.provided != 0 {
      ProvidedOutside(k, s.reserved, shard, req.provided);
      assert r1 == s.reserved;
      NotReservedUnused(k.backend, k.local, s.reserved, shard, req.provided);
    } else {
      NextColumnUnused(k, s.reserved, shard, a.checkout);
    }
  }

  /** The key gets a column ID that no identity of its shard has. */
  ghost predicate Assigned(k: Keys, k': Keys, req: Request, r: Result<Resolved>) {
    && k'.backend == k.backend && k'.domains == k.domains && k'.timed == k.timed
    && (r.Err? ==> k'.local == k.local)
    && (r.Ok? ==>
        r.value.columnId != 0 && !r.value.existing && Unused(k.backend, k.local, req.identity.shard, r.value.columnId)
                  && k'.local == k.local[req.identity := r.value.columnId])
  }

  lemma AllocateInv(s: State, req: Request, a: Answers)
    requires Inv(s) && Enabled(s, Resolve(req, a)) && ColumnIn(s.keys, req.identity).None?
    ensures var (keys, r) := AllocateStep(s.keys, req, a);
            Inv(State(keys, Reserve(s.reserved, req.identity.shard, keys, r))) && Assigned(s.keys, keys, req, r)
  {
    hide Column, UsedInv, Injective, BlockInv, SkipInv, NextColumn, BlockIds, Unused, Enabled;
    var k, id := s.keys, req.identity;
    ColumnChosen(s, req, a);
    NotLocal(k.backend, k.local, id);
    var (blocks, column) :=
      if req.provided != 0 then (k.blocks, Ok(req.provided)) else NextColumn(k.blocks, id.shard, a.checkout);
    var r1 := s.reserved + (if id.shard in blocks then BlockIds(id.shard, blocks[id.shard]) else {});
    if column.Ok? {
      AssignKeeps(k.backend, k.local, blocks, r1, id, column.value);
    }
    var (keys, r) := AllocateStep(k, req, a);
    assert keys.blocks == blocks;
    assert Reserve(s.reserved, id.shard, keys, r) == if r.Ok? then r1 + {(id.shard, column.value)} else r1;
  }

  lemma SkipKeeps(k: Keys, id: Identity, a: Answers)
    requires SkipInv(k.timed, k.backend, k.domains)
    ensures SkipInv(k.timed, k.backend, SkipStep(k, id, a).0)
    ensures SkipStep(k, id, a).1 == Ok(true) ==> id !in k.backend
    ensures SkipStep(k, id, a).1.Err? ==> SkipStep(k, id, a).0 == k.domains
  {
    var domains := SkipStep(k, id, a).0;
    forall other | other in k.backend ensures !CacheSkips(k.timed, domains, other) {
      assert !CacheSkips(k.timed, k.domains, other);
    }
  }

  lemma LookedUpKeeps(k: Keys, id: Identity)
    requires SkipInv(k.timed, k.backend, k.domains)
    ensures SkipInv(k.timed, k.backend, Mark(Mark(k.domains, DomainOf(k.timed, id), NonEmpty), Authority, NonEmpty))
  {
  }

  /** What is known about the answer to a request: it is the identity's column ID, or a
      new one that is its column ID from now on. */
  ghost predicate Answered(k: Keys, k': Keys, req: Request, r: Result<Resolved>) {
    && k'.backend == k.backend
    && (forall id | id != req.identity :: ColumnIn(k', id) == ColumnIn(k, id))
    && (ColumnIn(k, req.identity).Some? ==> ColumnIn(k', req.identity) == ColumnIn(k, req.identity))
    && (r.Ok? && ColumnIn(k, req.identity).Some? ==> r.value == Resolved(ColumnIn(k, req.identity).value, true))
    && (r.Ok? && ColumnIn(k, req.identity).None? ==>
          !r.value.existing &&
          (if r.value.columnId == 0 then req.lookupOnly
           else ColumnIn(k', req.identity) == Some(r.value.columnId)
                && Unused(k.backend, k.local, req.identity.shard, r.value.columnId)))
  }

  lemma AssignedAnswers(k: Keys, k': Keys, req: Request, r: Result<Resolved>)
    requires Assigned(k, k', req, r) && ColumnIn(k, req.identity).None?
    ensures Answered(k, k', req, r)
  {
    if r.Ok? {
      AssignedColumn(k.backend, k.local, req.identity, r.value.columnId);
    }
  }

  lemma NothingReserved(s: State, shard: int, k: Keys, r: Result<Resolved>)
    requires Inv(s) && k.blocks == s.keys.blocks && (r.Ok? ==> r.value.existing || r.value.columnId == 0)
    ensures Reserve(s.reserved, shard, k, r) == s.reserved
  {
    hide UsedInv, Injective, SkipInv, OneInv, Clear, BlockIds;
  }

  lemma LookupInv(s: State, req: Request, a: Answers)
    requires Inv(s) && Enabled(s, Resolve(req, a)) && req.identity !in s.keys.local
    ensures var (keys, r) := LookupStep(s.keys, req, a);
            Inv(State(keys, Reserve(s.reserved, req.identity.shard, keys, r))) && Answered(s.keys, keys, req, r)
  {
    hide UsedInv, Injective, BlockInv, SkipInv, Reserve, AllocateStep, Unused, Assigned, Enabled;
    var k, id := s.keys, req.identity;
    var (keys, r) := LookupStep(k, req, a);
    if !a.lookupFails && Matches(k.backend, id) == [] && !req.lookupOnly {
      AllocateInv(s, req, a);
      AssignedAnswers(k, keys, req, r);
    } else {
      LookedUpKeeps(k, id);
      NothingReserved(s, id.shard, keys, r);
    }
  }

  lemma ResolveInv(s: State, req: Request, a: Answers)
    requires Inv(s) && Enabled(s, Resolve(req, a))
    ensures var (keys, r) := ResolveStep(s.keys, req, a);
            Inv(State(keys, Reserve(s.reserved, req.identity.shard, keys, r))) && Answered(s.keys, keys, req, r)
  {
    hide UsedInv, Injective, BlockInv, SkipInv, Reserve, AllocateStep, Unused, Assigned, SkipStep, LookupStep, OneInv;
    var k, id := s.keys, req.identity;
    var (keys, r) := ResolveStep(k, req, a);
    if id in k.local {
      NothingReserved(s, id.shard, keys, r);
    } else {
      SkipKeeps(k, id, a);
      var k1 := k.(domains := SkipStep(k, id, a).0);
      var s1 := State(k1, s.reserved);
      if SkipStep(k, id, a).1.Err? {
        NothingReserved(s, id.shard, keys, r);
      } else if SkipStep(k, id, a).1.value {
        AllocateInv(s1, req, a);
        AssignedAnswers(k1, keys, req, r);
        assert Answered(k, keys, req, r);
      } else {
        LookupInv(s1, req, a);
        assert Answered(k, keys, req, r);
      }
    }
  }

  lemma FlushedColumn(k: Keys, sent: set<Identity>)
    requires OneInv(k.backend, k.staged, k.local) && forall id | id in k.staged :: id in sent
    ensures forall id :: ColumnIn(FlushStep(k, sent), id) == ColumnIn(k, id)
  {
  }

  lemma FlushInv(s: State, sent: set<Identity>)
    requires Inv(s) && SafeFlush(s.keys, sent)
    ensures Inv(s.(keys := FlushStep(s.keys, sent)))
    ensures forall id :: ColumnIn(FlushStep(s.keys, sent), id) == ColumnIn(s.keys, id)
  {
    var k' := FlushStep(s.keys, sent);
    FlushedColumn(s.keys, sent);
    FlushedCaches(s.keys, sent);
    assert forall id :: Column(k'.backend, k'.local, id) == Column(s.keys.backend, s.keys.local, id) by {
      forall id ensures Column(k'.backend, k'.local, id) == Column(s.keys.backend, s.keys.local, id) {
        assert ColumnIn(k', id) == ColumnIn(s.keys, id);
      }
    }
    hide Column, FlushStep, CacheSkips, SkipInv, OneInv;
    forall shard | shard in k'.blocks
      ensures Clear(k'.backend, k'.local, shard, k'.blocks[shard].current,
                    k'.blocks[shard].start + k'.blocks[shard].count)
    {
      assert Clear(s.keys.backend, s.keys.local, shard, k'.blocks[shard].current,
                   k'.blocks[shard].start + k'.blocks[shard].count);
    }
  }

  lemma FlushedCaches(k: Keys, sent: set<Identity>)
    requires OneInv(k.backend, k.staged, k.local) && SkipInv(k.timed, k.backend, k.domains) && SafeFlush(k, sent)
    ensures var k' := FlushStep(k, sent);
            OneInv(k'.backend, k'.staged, k'.local) && SkipInv(k'.timed, k'.backend, k'.domains)
            && k'.blocks == k.blocks && k'.domains == k.domains && k'.timed == k.timed
  {
    hide CacheSkips;
  }

  /** Every flush of the run sends all it has, and none of it into a domain that the
      session still takes for empty. */
  ghost predicate SafeRun(s: State, actions: seq<Action>)
    decreases |actions|
  {
    actions == [] ||
    (Enabled(s, actions[0]) && (actions[0].Flush? ==> SafeFlush(s.keys, actions[0].sent))
     && SafeRun(Step(s, actions[0]), actions[1..]))
  }

  ghost function After(s: State, actions: seq<Action>): State
    decreases |actions|
  {
    if actions == [] then s else After(Step(s, actions[0]), actions[1..])
  }

  lemma StepInv(s: State, a: Action)
    requires Inv(s) && Enabled(s, a) && (a.Flush? ==> SafeFlush(s.keys, a.sent))
    ensures Inv(Step(s, a))
    ensures forall id | ColumnIn(s.keys, id).Some? :: ColumnIn(Step(s, a).keys, id) == ColumnIn(s.keys, id)
  {
    hide Inv, ResolveStep, FlushStep, Reserve, SafeFlush, ColumnIn;
    match a
    case Resolve(req, answers) => ResolveInv(s, req, answers);
    case Flush(sent) => FlushInv(s, sent);
  }

  /** In every safe run an identity that has a column ID keeps it. */
  lemma {:induction false} ColumnForever(s: State, actions: seq<Action>, id: Identity)
    requires Inv(s) && SafeRun(s, actions)
    ensures Inv(After(s, actions))
    ensures ColumnIn(s.keys, id).Some? ==> ColumnIn(After(s, actions).keys, id) == ColumnIn(s.keys, id)
    decreases |actions|
  {
    hide Inv, Step, ColumnIn, Enabled, SafeFlush;
    if actions != [] {
      StepInv(s, actions[0]);
      ColumnForever(Step(s, actions[0]), actions[1..], id);
    }
  }

  // ----- The guarantees -----

  /** After every safe run no two identities of a shard share a column ID, and the next
      request answers with the identity's column ID or gives it an unused one. */
  lemma OneColumnEach(timed: bool, backend: map<Identity, seq<u64>>, reserved: set<(int, u64)>, run: seq<Action>,
                      req: Request, a: Answers)
    requires LawfulBackend(backend, reserved)
    requires var s := Opening(timed, backend, reserved); SafeRun(s, run) && Enabled(After(s, run), Resolve(req, a))
    ensures var k := After(Opening(timed, backend, reserved), run).keys;
            Injective(k.backend, k.local) && Answered(k, ResolveStep(k, req, a).0, req, ResolveStep(k, req, a).1)
  {
    hide SafeRun, After, Opening, LawfulBackend, Answered, ResolveStep, Injective, UsedInv, BlockInv, SkipInv, OneInv,
         Enabled;
    OpeningInv(timed, backend, reserved);
    var s := Opening(timed, backend, reserved);
    ColumnForever(s, run, req.identity);
    ResolveInv(After(s, run), req, a);
  }

  /** Where the invariant holds, the resolver with its caches answers as the plain one. */
  lemma PlainAnswer(s: State, req: Request, a: Answers)
    requires Inv(s) && Enabled(s, Resolve(req, a))
    requires !req.lookupOnly && !a.probeFails && !a.lookupFails
    ensures ResolveStep(s.keys, req, a).1 == Plain(s.keys, req, a)
  {
    hide ResolveStep, Plain, Injective, UsedInv, OneInv, SkipStep;
    AgreesIff(s.keys, req, a);
    SkipKeeps(s.keys, req.identity, a);
  }

  /** After every safe run, the resolver with its caches answers as the plain one. */
  lemma AnswersAsPlain(timed: bool, backend: map<Identity, seq<u64>>, reserved: set<(int, u64)>, run: seq<Action>,
                       req: Request, a: Answers)
    requires LawfulBackend(backend, reserved)
    requires var s := Opening(timed, backend, reserved); SafeRun(s, run) && Enabled(After(s, run), Resolve(req, a))
    requires !req.lookupOnly && !a.probeFails && !a.lookupFails
    ensures var k := After(Opening(timed, backend, reserved), run).keys; ResolveStep(k, req, a).1 == Plain(k, req, a)
  {
    hide SafeRun, After, Opening, LawfulBackend, ResolveStep, Plain, Inv, Enabled;
    OpeningInv(timed, backend, reserved);
    var s := Opening(timed, backend, reserved);
    ColumnForever(s, run, req.identity);
    PlainAnswer(After(s, run), req, a);
  }

  /** A request that must only look up allocates a column ID all the same, exactly when
      the resolver skips the lookup. */
  lemma LookupOnlyAllocatesIff(s: Keys, req: Request, a: Answers)
    requires req.lookupOnly && LawfulBlocks(s.blocks) && LawfulCheckout(a.checkout) && a.checkout.Some?
    requires !a.probeFails && !a.lookupFails && !a.stageFails
    ensures ResolveStep(s, req, a).0.staged != s.staged || ResolveStep(s, req, a).0.blocks != s.blocks ==>
            Skips(s, req, a)
    ensures Skips(s, req, a) ==> ResolveStep(s, req, a).1.Ok? && req.identity in ResolveStep(s, req, a).0.staged
                                 && !ResolveStep(s, req, a).1.value.existing
                                    && ResolveStep(s, req, a).1.value.columnId != 0
  {
    hide SkipStep, AllocateStep, Mark;
    AllocationStages(s, req, a);
    AllocationStages(s.(domains := SkipStep(s, req.identity, a).0), req, a);
    SkipAnswers(s, req.identity, a);
  }

  lemma SkipAnswers(s: Keys, id: Identity, a: Answers)
    requires !a.probeFails
    ensures SkipStep(s, id, a).1.Ok?
  {
  }

  lemma AllocationStages(s: Keys, req: Request, a: Answers)
    requires LawfulBlocks(s.blocks) && LawfulCheckout(a.checkout) && a.checkout.Some? && !a.stageFails
    ensures AllocateStep(s, req, a).1.Ok? && req.identity in AllocateStep(s, req, a).0.staged
    ensures !AllocateStep(s, req, a).1.value.existing && AllocateStep(s, req, a).1.value.columnId != 0
  {
  }

  function Ask(id: Identity): Request {
    Request(id, 0, false, false)
  }

  /** A flush keeps the column ID of a staged identity exactly when it sends the
      identity and the session does not take its domain for empty. Otherwise the next
      request for the identity gives it another column ID. */
  lemma FlushKeepsColumnIff(s: State, sent: set<Identity>, id: Identity, a: Answers)
    requires Inv(s) && id in s.keys.staged && Enabled(s, Resolve(Ask(id), a))
    requires !a.probeFails && !a.lookupFails
    ensures var r := ResolveStep(FlushStep(s.keys, sent), Ask(id), a).1;
            if id in sent && !CacheSkips(s.keys.timed, s.keys.domains, id)
            then r == Ok(Resolved(s.keys.staged[id], true))
            else r.Ok? ==> !r.value.existing && r.value.columnId != s.keys.staged[id]
  {
    hide UsedInv, Injective, BlockInv, SkipInv, NextColumn, ResolveStep, CacheSkips;
    var k, k' := s.keys, FlushStep(s.keys, sent);
    NextColumnUnused(k, s.reserved, id.shard, a.checkout);
    assert Column(k.backend, k.local, id) == Some(k.staged[id]);
    assert id in sent ==> Matches(k'.backend, id) == [k.staged[id]];
    assert id !in sent ==> Matches(k'.backend, id) == [];
    ResolveUncached(k', id, a);
  }

  lemma ResolveUncached(k: Keys, id: Identity, a: Answers)
    requires id !in k.local && |Matches(k.backend, id)| <= 1 && !a.probeFails && !a.lookupFails
    ensures var r := ResolveStep(k, Ask(id), a).1;
            if Matches(k.backend, id) != [] && !CacheSkips(k.timed, k.domains, id)
            then r == Ok(Resolved(Matches(k.backend, id)[0], true))
            else r.Ok? ==> !r.value.existing && NextColumn(k.blocks, id.shard, a.checkout).1 == Ok(r.value.columnId)
  {
    hide NextColumn, AllocateStep, Probe, Mark;
    ProbeSees(k, id);
    AllocatesNext(k, id, a);
    AllocatesNext(k.(domains := SkipStep(k, id, a).0), id, a);
  }

  lemma AllocatesNext(k: Keys, id: Identity, a: Answers)
    ensures var r := AllocateStep(k, Ask(id), a).1;
            r.Ok? ==> !r.value.existing && NextColumn(k.blocks, id.shard, a.checkout).1 == Ok(r.value.columnId)
  {
    hide NextColumn;
  }

  lemma ProbeSees(k: Keys, id: Identity)
    ensures id in k.backend ==> Probe(k, id).NonEmpty?
    ensures !Probe(k, id).Unknown?
  {
  }

  /** In a new session over any backend that reports domain states, the first key of an
      empty domain marks it, a flush makes it committed, and the same key is then given a
      second column ID. */
  lemma SecondColumn(timed: bool, backend: map<Identity, seq<u64>>, id: Identity, b: Block)
    requires forall other | other in backend :: DomainOf(timed, other) != DomainOf(timed, id)
    requires LawfulBlock(b) && b.current == b.start && b.count >= 2
    ensures var a := Answers(false, true, false, Some(b), false);
            var (k1, r1) := ResolveStep(Opening(timed, backend, {}).keys, Ask(id), a);
            var r2 := ResolveStep(FlushStep(k1, {id}), Ask(id), a).1;
            r1 == Ok(Resolved(b.start, false)) && r2 == Ok(Resolved(b.start + 1, false))
  {
    var a := Answers(false, true, false, Some(b), false);
    var k := Opening(timed, backend, {}).keys;
    FirstKey(k, id, b, a);
    hide ResolveStep;
    var k1 := ResolveStep(k, Ask(id), a).0;
    var k2 := FlushStep(k1, {id});
    assert k2.domains == map[DomainOf(timed, id) := Empty] && k2.timed == timed;
    assert CacheSkips(k2.timed, k2.domains, id);
    SkippedKey(k2, id, a);
  }

  lemma FirstKey(k: Keys, id: Identity, b: Block, a: Answers)
    requires Probe(k, id).Empty? && k.local == map[] && k.domains == map[] && k.blocks == map[]
    requires LawfulBlock(b) && b.current == b.start && b.count >= 2 && a == Answers(false, true, false, Some(b), false)
    ensures var (k1, r1) := ResolveStep(k, Ask(id), a);
            && r1 == Ok(Resolved(b.start, false)) && k1.timed == k.timed
            && k1.domains == map[DomainOf(k.timed, id) := Empty]
               && k1.blocks == map[id.shard := b.(current := b.start + 1)]
  {
    assert k.domains[DomainOf(k.timed, id) := Empty] == map[DomainOf(k.timed, id) := Empty];
    assert k.blocks[id.shard := b.(current := b.start + 1)] == map[id.shard := b.(current := b.start + 1)];
  }

  lemma SkippedKey(k: Keys, id: Identity, a: Answers)
    requires id !in k.local && CacheSkips(k.timed, k.domains, id) && !a.stageFails
    requires id.shard in k.blocks && HasNext(k.blocks[id.shard])
    ensures ResolveStep(k, Ask(id), a).1 == Ok(Resolved(k.blocks[id.shard].current, false))
  {
  }
}
