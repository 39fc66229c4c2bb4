/** The lease for a quiescent backup (core/storage_backup.go) and what it says about the
    log and the storage. */
module Quiescence {
  import opened Prelude
  import opened WalFormat
  import LocalWal
  import WalRecovery

  datatype Lease = Lease(checkpointLsn: u64, lastLsn: u64, replayRecords: nat, pendingRecords: nat)

  /** What a lease request meets: an earlier lease, whether a log is named, whether the log
      and its checkpoint lie in the data directory, and a cancelled context. */
  datatype Setting = Setting(leased: bool, hasWal: bool, walInside: bool, checkpointInside: bool, cancelled: bool)

  /** The log is readable and its checkpoint is at its end. */
  ghost predicate CleanLog(c: Codec, file: seq<byte>, checkpoint: Option<u64>) {
    Readable(c, file) && CheckpointLsn(checkpoint) == LastLsn(ReadOf(c, file).records)
  }

  /** BeginLocalStorageQuiescence: with a log, a lease is granted exactly when the log's
      checkpoint is at its last record. */
  method BeginQuiescence(where: Setting, c: Codec, file: seq<byte>, checkpoint: Option<u64>) returns (r: Result<Lease>)
    ensures r.Ok? <==> !where.leased && !where.cancelled &&
                       (where.hasWal ==> CleanLog(c, file, checkpoint) && where.walInside && where.checkpointInside)
    ensures r.Ok? && where.hasWal ==> r.value.checkpointLsn == r.value.lastLsn == LastLsn(ReadOf(c, file).records)
                                      && r.value.replayRecords == r.value.pendingRecords == 0
  {
    hide Readable, ReadOf;
    if where.leased {
      return Err("storage is already quiesced for backup");
    }
    var lease := Lease(0, 0, 0, 0);
    if where.hasWal {
      var plan := PlanRecovery(c, file, checkpoint);
      if plan.Err? {
        return Err(plan.error);
      }
      ReadIncreasing(c, file);
      PlanIsClean(ReadOf(c, file), checkpoint, plan.value);
      if plan.value.replay != [] {
        return Err("committed WAL records need startup replay");
      }
      if plan.value.pending != [] {
        return Err("pending WAL records are not committed");
      }
      lease := Lease(plan.value.checkpointLsn, plan.value.lastLsn, |plan.value.replay|, |plan.value.pending|);
      if !where.walInside || !where.checkpointInside {
        return Err("WAL is outside data directory");
      }
    }
    if where.cancelled {
      return Err("cancelled");
    }
    return Ok(lease);
  }

  lemma ReadIncreasing(c: Codec, file: seq<byte>)
    requires Readable(c, file)
    ensures Increasing(ReadOf(c, file).records)
  {
  }

  /** Nothing to replay and nothing pending is the same as a checkpoint at the end. */
  lemma PlanIsClean(read: ReadResult, checkpoint: Option<u64>, p: Plan)
    requires PlanFits(read, checkpoint, p) && p.checkpointLsn <= p.lastLsn && Increasing(read.records)
    ensures p.replay == [] && p.pending == [] <==> p.checkpointLsn == p.lastLsn
  {
    if p.replay == [] && p.pending == [] {
      CleanPlan(read, checkpoint, p);
    }
    if p.checkpointLsn == p.lastLsn {
      AllCheckpointed(read.records, p.checkpointLsn);
      assert p.checkpointedCount == |read.records|;
    }
  }

  lemma AllCheckpointed(rs: seq<Record>, lsn: u64)
    requires Increasing(rs) && lsn == LastLsn(rs)
    ensures forall i | 0 <= i < |rs| :: rs[i].lsn <= lsn
  {
  }

  /** Storage copied under a lease is complete: in every state of every run, even with an
      append under way, if the log file is clean then every record it holds is durable. */
  lemma LeasedStorageIsComplete(g: WalRecovery.Config, s0: WalRecovery.State, run: seq<WalRecovery.Action>)
    requires WalRecovery.LawfulConfig(g) && WalRecovery.Initial(s0) && WalRecovery.Runs(g, s0, run)
    requires var s := WalRecovery.After(g, s0, run);
             CleanLog(g.codec, s.file, s.checkpoint)
    ensures var s := WalRecovery.After(g, s0, run);
            s.durable == WalRecovery.Net(g, ReadOf(g.codec, s.file).records)
  {
    hide WalRecovery.Runs, WalRecovery.After, WalRecovery.Initial, WalRecovery.LawfulConfig, WalRecovery.Inv, CleanLog;
    WalRecovery.InitialInv(g, s0);
    WalRecovery.RunInv(g, s0, run);
    CleanIsComplete(g, WalRecovery.After(g, s0, run));
  }

  lemma CleanIsComplete(g: WalRecovery.Config, s: WalRecovery.State)
    requires WalRecovery.Inv(g, s) && CleanLog(g.codec, s.file, s.checkpoint)
    ensures s.durable == WalRecovery.Net(g, ReadOf(g.codec, s.file).records)
  {
    hide WalRecovery.VolatileInv, WalRecovery.Net, WalRecovery.LawfulConfig, Readable, ReadOf, WalRecovery.Repairable,
         WalRecovery.CutInv;
    WalRecovery.LogIncreasing(g, s);
    if s.phase.Appending? {
      CleanWhileAppending(g, s);
    }
    assert ReadOf(g.codec, s.file).records == s.log;
    CutAtEnd(g, s);
    WalRecovery.CommittedWhole(s.log);
    WalRecovery.SafeWhenWhole(g, s.durable, s.log);
  }

  /** Part of a frame is a torn tail, and a whole frame is a record above the checkpoint. */
  lemma CleanWhileAppending(g: WalRecovery.Config, s: WalRecovery.State)
    requires WalRecovery.Inv(g, s) && s.phase.Appending? && CleanLog(g.codec, s.file, s.checkpoint)
    ensures ReadOf(g.codec, s.file).records == s.log
  {
    hide WalRecovery.VolatileInv, WalRecovery.Net, WalRecovery.LawfulConfig, Readable, ReadOf, WalRecovery.Repairable,
         Holds, ValidRecord, Frame, WalRecovery.CommittedLen;
    var r, base, k := s.phase.record, s.phase.base, s.phase.written;
    WalRecovery.LawfulCodec(g);
    LocalWal.NextLsnAbove(g.codec, s.log, r);
    if k < |Frame(g.codec, r)| {
      ReadPartialAppend(g.codec, base, s.log, r, k);
    } else {
      assert Frame(g.codec, r)[..k] == Frame(g.codec, r);
      ReadAppend(g.codec, base, s.log, r);
      WalRecovery.HoldsIncreasing(g.codec, s.file, s.log + [r]);
      WalRecovery.HoldsIncreasing(g.codec, base, s.log);
      WalRecovery.PlanParts(s.log, s.cut, s.checkpoint, s.promised);
    }
  }

  lemma CutAtEnd(g: WalRecovery.Config, s: WalRecovery.State)
    requires WalRecovery.CutInv(s.log, s.cut, s.checkpoint, s.promised) && Increasing(s.log)
    requires CheckpointLsn(s.checkpoint) == LastLsn(s.log)
    ensures s.cut == WalRecovery.CommittedLen(s.log) == |s.log|
  {
    hide WalRecovery.CommittedLen;
  }
}
