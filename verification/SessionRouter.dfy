/** The calls of the session router that its users make (core/session_router.go):
    queueing a record, and the two loops of a flush. */
module SessionRouter {
  import opened Prelude
  import opened RouterProtocol

  /** What a worker answers to a flush marker. */
  datatype Reply = Reply(sessionCount: nat, flushCount: nat, failed: bool)

  datatype FlushResult = FlushResult(sessionCount: nat, flushCount: nat, errorCount: nat)

  class SessionRouter {
    const routing: Routing
    var shardChannels: map<string, seq<Message>>

    constructor (routing: Routing, shards: set<string>)
      ensures this.routing == routing && shardChannels == map shard | shard in shards :: []
    {
      this.routing := routing;
      this.shardChannels := map shard | shard in shards :: [];
    }

    /** Enqueue: a record without a table, without a build key and a shard key, or without a
        channel is refused; any other one goes to the end of the channel that its build key
        hashes to, or without one its shard key, and nowhere else. */
    method Enqueue(record: IngestRecord) returns (ok: bool)
      modifies this
      ensures ok == Accepts(routing, old(shardChannels).Keys, record)
      ensures var build, key := routing.trim(record.buildShardKey), routing.trim(record.shardKey);
              var shard := if build != "" then routing.hash(build) else routing.hash(key);
              && (ok <==> record.tableName != "" && (build != "" || key != "") && shard in old(shardChannels))
              && (!ok ==> shardChannels == old(shardChannels))
              && (ok ==> shardChannels == old(shardChannels)[shard := old(shardChannels)[shard] + [Rec(record)]])
    {
      if record.tableName == "" {
        return false;
      }
      var build := routing.trim(record.buildShardKey);
      var routeKey := if build != "" then build else routing.trim(record.shardKey);
      if routeKey == "" {
        return false;
      }
      var shard := routing.hash(routeKey);
      if shard !in shardChannels {
        return false;
      }
      shardChannels := shardChannels[shard := shardChannels[shard] + [Rec(record)]];
      return true;
    }

    /** The first loop of Flush: one marker behind everything that is queued, in every
        channel, unless the context is done before the channel `limit`. */
    method SendMarkers(limit: Option<nat>) returns (ok: bool, ghost sent: set<string>)
      modifies this
      ensures sent <= old(shardChannels).Keys && shardChannels == Marked(old(shardChannels), sent)
      ensures ok ==> sent == old(shardChannels).Keys
      ensures !ok ==> limit.Some? && |sent| == limit.value < |old(shardChannels)|
    {
      var left, count := shardChannels.Keys, 0;
      sent := {};
      assert shardChannels == Marked(old(shardChannels), sent);
      hide Marked;
      while left != {}
        invariant left <= old(shardChannels).Keys && sent == old(shardChannels).Keys - left
        invariant count == |sent| && count + |left| == |old(shardChannels)|
        invariant shardChannels == Marked(old(shardChannels), sent)
        decreases left
      {
        if limit == Some(count) {
          return false, sent;
        }
        var shard :| shard in left;
        MarkOneMore(old(shardChannels), sent, shard);
        shardChannels := shardChannels[shard := shardChannels[shard] + [FlushMarker]];
        left, sent, count := left - {shard}, sent + {shard}, count + 1;
      }
      return true, sent;
    }
  }

  ghost function Marked(channels: map<string, seq<Message>>, sent: set<string>): map<string, seq<Message>> {
    map shard | shard in channels :: if shard in sent then channels[shard] + [FlushMarker] else channels[shard]
  }

  lemma MarkOneMore(channels: map<string, seq<Message>>, sent: set<string>, shard: string)
    requires shard in channels && shard !in sent
    ensures var now := Marked(channels, sent);
            now[shard := now[shard] + [FlushMarker]] == Marked(channels, sent + {shard})
  {
  }

  /** The replies before the context's end. */
  ghost function Received(replies: seq<Option<Reply>>): seq<Reply> {
    if replies == [] || replies[0].None? then [] else [replies[0].value] + Received(replies[1..])
  }

  ghost function Totals(replies: seq<Reply>): FlushResult {
    if replies == [] then FlushResult(0, 0, 0)
    else
      var front, last := Totals(replies[..|replies| - 1]), replies[|replies| - 1];
      FlushResult(front.sessionCount + last.sessionCount, front.flushCount + last.flushCount,
                  front.errorCount + if last.failed then 1 else 0)
  }

  lemma {:induction false} ReceivedAt(replies: seq<Option<Reply>>, got: seq<Reply>)
    requires |got| <= |replies| && forall k | 0 <= k < |got| :: replies[k] == Some(got[k])
    requires |got| < |replies| ==> replies[|got|].None?
    ensures Received(replies) == got
    decreases |replies|
  {
    if got != [] {
      ReceivedAt(replies[1..], got[1..]);
    }
  }

  /** The second loop of Flush. A reply that the context's end came before is None. Flush
      returns nil exactly when every worker answered without an error; the counts are the
      sums over all the replies received, also over those after one with an error. */
  method CollectReplies(replies: seq<Option<Reply>>) returns (result: FlushResult, ok: bool)
    ensures ok <==> forall i | 0 <= i < |replies| :: replies[i].Some? && !replies[i].value.failed
    ensures result == Totals(Received(replies))
    ensures ok ==> result.errorCount == 0
  {
    result, ok := FlushResult(0, 0, 0), true;
    ghost var got: seq<Reply> := [];
    for i := 0 to |replies|
      invariant ok <==> forall k | 0 <= k < i :: replies[k].Some? && !replies[k].value.failed
      invariant ok <==> result.errorCount == 0
      invariant |got| == i && forall k | 0 <= k < i :: replies[k] == Some(got[k])
      invariant result == Totals(got)
    {
      if replies[i].None? {
        ReceivedAt(replies, got);
        return result, false;
      }
      var reply := replies[i].value;
      result := FlushResult(result.sessionCount + reply.sessionCount, result.flushCount + reply.flushCount,
                            if reply.failed then result.errorCount + 1 else result.errorCount);
      ok := ok && !reply.failed;
      assert (got + [reply])[..i] == got;
      got := got + [reply];
    }
    ReceivedAt(replies, got);
  }
}
