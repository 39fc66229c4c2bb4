/** The primary-key resolver of one session as it is (core/primary_key_bsi.go): fields
    updated in place, with what every call keeps in its contract. */
module PrimaryKeyResolver {
  import opened Prelude
  import opened PrimaryKeys
  import opened PrimaryKeyRuns

  class Resolver {
    const timed: bool
    var backend: map<Identity, seq<u64>>
    var staged: map<Identity, u64>
    var local: map<Identity, u64>
    var domains: map<DomainKey, DomainState>
    var blocks: map<int, Block>

    /** Every column ID of a shard that was ever reserved or provided. */
    ghost var reserved: set<(int, u64)>

    ghost function View(): Keys
      reads this
    {
      Keys(timed, backend, staged, local, domains, blocks)
    }

    ghost function RunState(): State
      reads this
    {
      State(View(), reserved)
    }

    /** One column ID an identity, no two identities of a shard on one column ID, the rest
        of every block unused, and no cached mark that hides a committed key. */
    ghost predicate Valid()
      reads this
    {
      Inv(RunState())
    }

    /** A new session over the backend that earlier ones left. */
    constructor (timed: bool, backend: map<Identity, seq<u64>>, ghost reserved: set<(int, u64)>)
      ensures RunState() == Opening(timed, backend, reserved)
      ensures LawfulBackend(backend, reserved) ==> Valid()
    {
      this.timed, this.backend, this.reserved := timed, backend, reserved;
      staged, local, domains, blocks := map[], map[], map[], map[];
      new;
      if LawfulBackend(backend, reserved) {
        OpeningInv(timed, backend, reserved);
      }
    }

    /** markBSIPrimaryKeyDomainState: an unknown state is not recorded. */
    method MarkDomain(key: DomainKey, state: DomainState)
      modifies this`domains
      ensures domains == Mark(old(domains), key, state)
    {
      if !state.Unknown? {
        domains := domains[key := state];
      }
    }

    /** The probe of the backend, which looks at the committed keys of the domain. */
    method ProbeDomain(id: Identity) returns (state: DomainState)
      ensures state == Probe(View(), id)
    {
      var left := backend.Keys;
      while left != {}
        invariant left <= backend.Keys
        invariant forall other | other in backend.Keys - left :: DomainOf(timed, other) != DomainOf(timed, id)
        decreases left
      {
        var other :| other in left;
        if DomainOf(timed, other) == DomainOf(timed, id) {
          return NonEmpty;
        }
        left := left - {other};
      }
      return Empty;
    }

    /** shouldSkipLookupForEmptyDomain. */
    method ShouldSkip(id: Identity, a: Answers) returns (r: Result<bool>)
      modifies this`domains
      ensures (domains, r) == SkipStep(old(View()), id, a)
      ensures SkipInv(timed, backend, old(domains)) ==>
              SkipInv(timed, backend, domains) && (r == Ok(true) ==> id !in backend)
    {
      if SkipInv(timed, backend, domains) {
        SkipKeeps(View(), id, a);
      }
      hide SkipInv;
      var key := DomainOf(timed, id);
      if Cached(domains, key).NonEmpty? {
        return Ok(false);
      }
      if Cached(domains, Authority).NonEmpty? {
        return Ok(false);
      }
      if Cached(domains, key).Empty? {
        return Ok(true);
      }
      if !a.probes {
        return Ok(false);
      }
      if a.probeFails {
        return Err("domain state");
      }
      var state := ProbeDomain(id);
      if state.Empty? {
        MarkDomain(key, Empty);
        return Ok(true);
      }
      MarkDomain(key, NonEmpty);
      MarkDomain(Authority, NonEmpty);
      return Ok(false);
    }

    /** allocatePrimaryKeyColumnID, StagePrimaryKey and SetPrimaryKeyIdentity. */
    method Allocate(req: Request, a: Answers) returns (r: Result<Resolved>)
      modifies this`blocks, this`staged, this`local
      ensures (View(), r) == AllocateStep(old(View()), req, a)
    {
      var column := req.provided;
      if column == 0 {
        var shard := req.identity.shard;
        if shard !in blocks || !HasNext(blocks[shard]) {
          if a.checkout.None? {
            return Err("sequencer checkout");
          }
          blocks := blocks[shard := a.checkout.value];
        }
        if HasNext(blocks[shard]) {
          column := blocks[shard].current;
          blocks := blocks[shard := blocks[shard].(current := (column + 1) % U64)];
        }
        assert blocks == NextColumn(old(blocks), shard, a.checkout).0;
      }
      if a.stageFails {
        return Err("stage");
      }
      staged := staged[req.identity := column];
      if column != 0 && req.identity !in local {
        local := local[req.identity := column];
      }
      return Ok(Resolved(column, false));
    }

    /** ResolvePrimaryKeyColumnID, for a table whose keys are looked up. In a valid session
        a request is answered with the column ID the identity has, or gives it one that no
        identity of its shard has; every other identity keeps its own; and the answer is
        the one a resolver without caches would give. */
    method Resolve(req: Request, a: Answers) returns (r: Result<Resolved>)
      modifies this`domains, this`blocks, this`staged, this`local, this`reserved
      ensures (View(), r) == ResolveStep(old(View()), req, a)
      ensures old(Valid() && Enabled(RunState(), Action.Resolve(req, a))) ==>
              Valid() && Answered(old(View()), View(), req, r)
      ensures old(Valid() && Enabled(RunState(), Action.Resolve(req, a))) && !req.lookupOnly && !a.probeFails
              && !a.lookupFails ==>
                r == Plain(old(View()), req, a)
    {
      hide AllocateStep, SkipStep, Inv, Enabled, Answered, Plain, Reserve;
      r := Answer(req, a);
      reserved := Reserve(reserved, req.identity.shard, View(), r);
      if old(Valid() && Enabled(RunState(), Action.Resolve(req, a))) {
        ResolveInv(old(RunState()), req, a);
        if !req.lookupOnly && !a.probeFails && !a.lookupFails {
          PlainAnswer(old(RunState()), req, a);
        }
      }
    }

    /** The steps of ResolvePrimaryKeyColumnID. */
    method Answer(req: Request, a: Answers) returns (r: Result<Resolved>)
      modifies this`domains, this`blocks, this`staged, this`local
      ensures (View(), r) == ResolveStep(old(View()), req, a)
    {
      hide AllocateStep, SkipStep;
      var id := req.identity;
      if id in local {
        if req.provided != 0 && req.provided != local[id] {
          return Err("local batch conflict");
        }
        return Ok(Resolved(local[id], true));
      }
      if !req.assumeNew {
        var skip := ShouldSkip(id, a);
        if skip.Err? {
          SkipErrs(old(View()), id, a);
          return Err(skip.error);
        }
        if !skip.value {
          if a.lookupFails {
            return Err("lookup");
          }
          var matched := Matches(backend, id);
          if |matched| > 1 {
            return Err("authority conflict");
          }
          if |matched| == 1 {
            MarkDomain(DomainOf(timed, id), NonEmpty);
            MarkDomain(Authority, NonEmpty);
            return Ok(Resolved(matched[0], true));
          }
          if req.lookupOnly {
            return Ok(Resolved(0, false));
          }
        }
      }
      r := Allocate(req, a);
    }

    /** A flush of the session's batch buffer: the keys in `sent` reach the backend. When
        they are all of them, and none is in a domain that the session takes for empty, the
        session stays valid and every identity keeps its column ID. */
    method Flush(sent: set<Identity>)
      modifies this`backend, this`staged, this`local
      ensures View() == FlushStep(old(View()), sent)
      ensures old(Valid() && SafeFlush(View(), sent)) ==>
                Valid() && forall id :: ColumnIn(View(), id) == ColumnIn(old(View()), id)
    {
      hide Inv, SafeFlush, ColumnIn;
      backend := backend + map id | id in staged && id in sent :: Matches(backend, id) + [staged[id]];
      staged, local := map[], map[];
      assert View() == FlushStep(old(View()), sent);
      hide FlushStep;
      if old(Valid() && SafeFlush(View(), sent)) {
        FlushInv(old(RunState()), sent);
      }
    }
  }

  lemma SkipErrs(s: Keys, id: Identity, a: Answers)
    ensures SkipStep(s, id, a).1.Err? ==> SkipStep(s, id, a).0 == s.domains
  {
  }
}
