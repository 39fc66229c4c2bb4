/** Where records with primary-key shard keys go (core/ingest_shard_key.go with
    core/session_router.go). */
module IngestRouting {
  import opened Prelude
  import opened RouterProtocol
  import CanonicalPayload

  /** The record carries the primary-key shard key of its key values and no build key. */
  ghost predicate KeyedBy(c: Routing, record: IngestRecord, table: string, names: seq<string>,
                          values: seq<CanonicalPayload.Value>) {
    && |names| == |values| && c.trim(record.buildShardKey) == ""
    && record.shardKey == CanonicalPayload.ShardKey(table, names, values)
  }

  /** Records of one table with equal key values meet in one worker, which puts them in
      the order they were accepted. */
  lemma EqualKeysInOrder(c: Routing, shards: set<string>, capacity: nat, events: seq<Event>,
                         shard: string, i: nat, shard': string, j: nat, table: string, names: seq<string>,
                         values: seq<CanonicalPayload.Value>, values': seq<CanonicalPayload.Value>)
    requires Runs(c, NewRouter(shards, capacity), events)
    requires var now := After(c, NewRouter(shards, capacity), events);
             && shard in now && shard' in now && IsRecord(now[shard].accepted, i) && IsRecord(now[shard'].accepted, j)
             && KeyedBy(c, now[shard].accepted[i].record, table, names, values)
             && KeyedBy(c, now[shard'].accepted[j].record, table, names, values')
    requires |names| == |values| == |values'|
    requires forall k | 0 <= k < |names| ::
               CanonicalPayload.WellFormed(values[k]) && CanonicalPayload.WellFormed(values'[k])
               && CanonicalPayload.Same(values[k], values'[k])
    ensures shard == shard'
    ensures var puts := After(c, NewRouter(shards, capacity), events)[shard].puts;
            i < j && j in puts ==> exists a, b :: 0 <= a < b < |puts| && puts[a] == i && puts[b] == j
  {
    hide Runs, After, NewRouter;
    CanonicalPayload.ShardKeyIff(table, names, values, values');
    SameRouteInOrder(c, shards, capacity, events, shard, i, shard', j);
  }
}
