/** The primary-key authority (core/primary_key_bsi.go, core/primary_key_domain_state.go):
    one session resolves the identities of one table to column IDs, through a cache of
    its unflushed keys, a cache of empty domains, the backend's index and a sequencer. */
module PrimaryKeys {
  import opened Prelude

  /** An encoded identity: the time shard it belongs to, and its bytes. */
  datatype Identity = Identity(shard: int, bytes: seq<byte>)

  /** A reserved run of column IDs, handed out up to `current` (shared/sequencer.go). */
  datatype Block = Block(start: u64, count: u64, current: u64)

  datatype DomainKey = Domain(shard: int) | Authority

  datatype DomainState = Empty | NonEmpty | Unknown

  /** What one session knows: the backend's matches and its own unflushed keys (staged
      for the backend, and cached), the cached domain states, and the sequencers. */
  datatype Keys = Keys(timed: bool, backend: map<Identity, seq<u64>>, staged: map<Identity, u64>,
                       local: map<Identity, u64>, domains: map<DomainKey, DomainState>, blocks: map<int, Block>)

  datatype Request = Request(identity: Identity, provided: u64, lookupOnly: bool, assumeNew: bool)

  /** What the backend answers: a failing probe, whether it reports domain states, a
      failing lookup, the block a checkout would give, and a failing stage. */
  datatype Answers = Answers(probeFails: bool, probes: bool, lookupFails: bool, checkout: Option<Block>,
                             stageFails: bool)

  datatype Resolved = Resolved(columnId: u64, existing: bool)

  // ----- The resolver on values -----

  function Matches(backend: map<Identity, seq<u64>>, id: Identity): seq<u64> {
    if id in backend then backend[id] else []
  }

  function DomainOf(timed: bool, id: Identity): DomainKey {
    Domain(if timed then id.shard else 0)
  }

  function Cached(domains: map<DomainKey, DomainState>, key: DomainKey): DomainState {
    if key in domains then domains[key] else Unknown
  }

  /** markBSIPrimaryKeyDomainState: an unknown state is not recorded. */
  function Mark(domains: map<DomainKey, DomainState>, key: DomainKey, state: DomainState): map<DomainKey, DomainState> {
    if state.Unknown? then domains else domains[key := state]
  }

  /** A backend that reports domain states says Empty exactly of a domain without
      committed keys. */
  ghost function Probe(s: Keys, id: Identity): DomainState {
    if exists other | other in s.backend :: DomainOf(s.timed, other) == DomainOf(s.timed, id) then NonEmpty else Empty
  }

  /** The caches alone make the resolver skip the lookup. */
  predicate CacheSkips(timed: bool, domains: map<DomainKey, DomainState>, id: Identity) {
    Cached(domains, DomainOf(timed, id)).Empty? && !Cached(domains, Authority).NonEmpty?
  }

  predicate CacheForbids(timed: bool, domains: map<DomainKey, DomainState>, id: Identity) {
    Cached(domains, DomainOf(timed, id)).NonEmpty? || Cached(domains, Authority).NonEmpty?
  }

  /** shouldSkipLookupForEmptyDomain: the domain states afterwards, and whether to skip. */
  ghost function SkipStep(s: Keys, id: Identity, a: Answers): (map<DomainKey, DomainState>, Result<bool>) {
    if CacheForbids(s.timed, s.domains, id) then (s.domains, Ok(false))
    else if CacheSkips(s.timed, s.domains, id) then (s.domains, Ok(true))
    else if !a.probes then (s.domains, Ok(false))
    else if a.probeFails then (s.domains, Err("domain state"))
    else if Probe(s, id).Empty? then (Mark(s.domains, DomainOf(s.timed, id), Empty), Ok(true))
    else (Mark(Mark(s.domains, DomainOf(s.timed, id), NonEmpty), Authority, NonEmpty), Ok(false))
  }

  predicate HasNext(b: Block) {
    b.current < (b.start + b.count) % U64
  }

  /** NextColumnID: from the shard's block or, when that is used up, from a new one. */
  function NextColumn(blocks: map<int, Block>, shard: int, checkout: Option<Block>): (map<int, Block>, Result<u64>) {
    if shard in blocks && HasNext(blocks[shard]) then
      (blocks[shard := blocks[shard].(current := (blocks[shard].current + 1) % U64)], Ok(blocks[shard].current))
    else if checkout.None? then (blocks, Err("sequencer checkout"))
    else if HasNext(checkout.value) then
      (blocks[shard := checkout.value.(current := (checkout.value.current + 1) % U64)], Ok(checkout.value.current))
    else (blocks[shard := checkout.value], Ok(0))
  }

  /** Allocate a column ID, stage the key and cache it. */
  function AllocateStep(s: Keys, req: Request, a: Answers): (Keys, Result<Resolved>) {
    var (blocks, column) :=
      if req.provided != 0 then (s.blocks, Ok(req.provided)) else NextColumn(s.blocks, req.identity.shard, a.checkout);
    if column.Err? then (s.(blocks := blocks), Err(column.error))
    else if a.stageFails then (s.(blocks := blocks), Err("stage"))
    else
      (s.(blocks := blocks, staged := s.staged[req.identity := column.value],
          local :=
            if column.value == 0 || req.identity in s.local then s.local else s.local[req.identity := column.value]),
       Ok(Resolved(column.value, false)))
  }

  /** ResolvePrimaryKeyColumnID. */
  ghost function ResolveStep(s: Keys, req: Request, a: Answers): (Keys, Result<Resolved>) {
    var id := req.identity;
    if id in s.local then
      (s,
       if req.provided != 0 && req.provided != s.local[id] then Err("local batch conflict")
       else Ok(Resolved(s.local[id], true)))
    else if req.assumeNew then AllocateStep(s, req, a)
    else
      var (domains, skip) := SkipStep(s, id, a);
      if skip.Err? then (s, Err(skip.error))
      else if skip.value then AllocateStep(s.(domains := domains), req, a)
      else LookupStep(s.(domains := domains), req, a)
  }

  function LookupStep(s: Keys, req: Request, a: Answers): (Keys, Result<Resolved>) {
    var matched := Matches(s.backend, req.identity);
    if a.lookupFails then (s, Err("lookup"))
    else if |matched| > 1 then (s, Err("authority conflict"))
    else if |matched| == 1 then
      (s.(domains := Mark(Mark(s.domains, DomainOf(s.timed, req.identity), NonEmpty), Authority, NonEmpty)),
       Ok(Resolved(matched[0], true)))
    else if req.lookupOnly then (s, Ok(Resolved(0, false)))
    else AllocateStep(s, req, a)
  }

  /** A flush of the batch buffer: the keys in `sent` reach the backend, all of them when
      it succeeds; the session starts again with an empty buffer. */
  function FlushStep(s: Keys, sent: set<Identity>): Keys {
    s.(backend := s.backend + map id | id in s.staged && id in sent :: Matches(s.backend, id) + [s.staged[id]],
       staged := map[], local := map[])
  }
}
