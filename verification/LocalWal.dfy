/** The open write-ahead log: appending, commit boundaries, the checkpoint
    register and reopening (core/local_wal.go). */
module LocalWal {
  import opened Prelude
  import opened WalFormat

  /** What the file system does with one frame: it is written and synced, the
      write stops after some bytes, or the write completes and the sync fails. */
  datatype WriteOutcome = Written | WriteFailed(bytes: nat) | SyncFailed

  const EMPTY_PAYLOAD: seq<byte> := [123, 125]

  /** The record appendLocked writes for a caller's record. */
  function Stamped(r: Record, lsn: u64): (s: Record)
  {
    r.(version := VERSION, lsn := lsn, payload := if r.payload == [] then EMPTY_PAYLOAD else r.payload)
  }

  /** The record that was logged is the caller's: its kind, table, operation and payload, the
      payload `{}` standing for none; the log sets the version and the LSN. */
  predicate Carries(r: Record, given: Record, lsn: u64) {
    && r.kind == given.kind && r.table == given.table && r.operationId == given.operationId
    && (given.payload != [] ==> r.payload == given.payload) && (given.payload == [] ==> r.payload == [123, 125])
    && r.version == 1 && r.lsn == lsn
  }

  /** The caller's record can be logged under this LSN: it has a kind and an operation, its
      payload is JSON or missing, and the counter has not wrapped to zero. */
  predicate Loggable(c: Codec, given: Record, lsn: u64) {
    && lsn != 0 && !c.trimmedEmpty(given.kind) && !c.trimmedEmpty(given.operationId)
    && c.validJson(if given.payload == [] then [123, 125] else given.payload)
  }

  lemma StampedCarries(c: Codec, given: Record, lsn: u64)
    ensures Carries(Stamped(given, lsn), given, lsn)
    ensures ValidRecord(c, Stamped(given, lsn)) <==> Loggable(c, given, lsn)
  {
  }

  /** The frame is in the file, as far as the log can tell. */
  predicate Reported(o: WriteOutcome, sync: bool) {
    o.Written? || (o.SyncFailed? && !sync)
  }

  /** A refused append of the caller's record left the bytes that were written: some of its
      frame if the write failed, all of it if only the sync did. */
  ghost predicate LeavesBehind(c: Codec, before: seq<byte>, after: seq<byte>, given: Record, lsn: u64,
                               o: WriteOutcome) {
    exists r: Record | Carries(r, given, lsn) ::
      after == before + if o.WriteFailed? && o.bytes < |Frame(c, r)| then Frame(c, r)[..o.bytes] else Frame(c, r)
  }

  lemma PartLeftBehind(c: Codec, before: seq<byte>, given: Record, lsn: u64, o: WriteOutcome)
    ensures LeavesBehind(c, before, before + WrittenPart(Frame(c, Stamped(given, lsn)), o), given, lsn, o)
  {
    StampedCarries(c, given, lsn);
  }

  /** The bytes of a frame that reach the file. */
  function WrittenPart(frame: seq<byte>, o: WriteOutcome): (part: seq<byte>)
    ensures part <= frame
  {
    if o.WriteFailed? && o.bytes < |frame| then frame[..o.bytes] else frame
  }

  function NextLsn(log: seq<Record>): (n: u64)
  {
    (LastLsn(log) + 1) % U64
  }

  /** The next LSN is above every LSN of the log unless the counter has wrapped to
      0, and then no record is valid. */
  lemma NextLsnAbove(c: Codec, log: seq<Record>, r: Record)
    requires ValidRecord(c, r) && r.lsn == NextLsn(log)
    ensures LastLsn(log) < r.lsn
    ensures NextLsn(log + [r]) == (r.lsn + 1) % U64
  {
  }

  class LocalWal {
    const codec: Codec
    const syncOnAppend: bool
    var isOpen: bool
    /** The bytes of the log file. */
    var file: seq<byte>
    /** The checkpoint file, replaced as a whole by a rename. */
    var checkpoint: Option<u64>
    var nextLsn: u64
    var checkpointLsn: u64
    /** The records of the file. */
    ghost var log: seq<Record>

    ghost predicate Valid()
      reads this
    {
      && Lawful(codec)
      && Holds(codec, file, log)
      && nextLsn == NextLsn(log)
      && checkpointLsn == CheckpointLsn(checkpoint)
    }

    /** A state that OpenLocalWal will accept. */
    ghost predicate Reopenable()
      reads this
    {
      Readable(codec, file) && CheckpointLsn(checkpoint) <= LastLsn(ReadOf(codec, file).records)
    }

    constructor (codec: Codec, file: seq<byte>, checkpoint: Option<u64>, sync: bool, lastLsn: u64,
                 ghost log: seq<Record>)
      requires Lawful(codec) && Holds(codec, file, log) && lastLsn == LastLsn(log)
      ensures Valid() && isOpen
      ensures this.codec == codec && this.syncOnAppend == sync && this.file == file
      ensures this.checkpoint == checkpoint && this.log == log
    {
      this.codec, this.syncOnAppend, this.isOpen := codec, sync, true;
      this.file, this.checkpoint, this.log := file, checkpoint, log;
      this.nextLsn, this.checkpointLsn := (lastLsn + 1) % U64, CheckpointLsn(checkpoint);
    }

    /** appendLocked. An acknowledged record is the next one of the log; a refused
        one leaves at most part of its frame, or all of it when only the sync
        failed, and never moves the next LSN. */
    method AppendLocked(record: Record, outcome: WriteOutcome) returns (r: Result<Record>)
      requires Valid()
      modifies this`file, this`nextLsn, this`log
      ensures r.Ok? <==> Loggable(codec, record, old(nextLsn)) && Reported(outcome, syncOnAppend)
      ensures r.Ok? ==> Valid() && Carries(r.value, record, old(nextLsn)) && r.value == Stamped(record, old(nextLsn))
                        && log == old(log) + [r.value] && LastLsn(old(log)) < r.value.lsn
                        && file == old(file) + Frame(codec, r.value)
      ensures r.Err? ==> log == old(log) && nextLsn == old(nextLsn)
                         && file == old(file) + if Loggable(codec, record, old(nextLsn))
                                                then WrittenPart(Frame(codec, Stamped(record, old(nextLsn))), outcome)
                                                else []
      ensures r.Err? && !Loggable(codec, record, old(nextLsn)) ==> file == old(file)
      ensures r.Err? && Loggable(codec, record, old(nextLsn)) ==>
                LeavesBehind(codec, old(file), file, record, old(nextLsn), outcome)
    {
      hide Readable, ReadOf, Holds, Lawful, Frame, ValidRecord, LeavesBehind, Carries, Loggable;
      PartLeftBehind(codec, file, record, nextLsn, outcome);
      StampedCarries(codec, record, nextLsn);
      var stamped := Stamped(record, nextLsn);
      if !ValidRecord(codec, stamped) {
        return Err("invalid WAL record");
      }
      var data := Frame(codec, stamped);
      file := file + WrittenPart(data, outcome);
      if outcome.WriteFailed? {
        return Err("append WAL frame");
      }
      if syncOnAppend && outcome.SyncFailed? {
        return Err("sync WAL frame");
      }
      NextLsnAbove(codec, log, stamped);
      ReadAppend(codec, old(file), log, stamped);
      log := log + [stamped];
      nextLsn := (nextLsn + 1) % U64;
      return Ok(stamped);
    }

    /** advanceCheckpointLocked. The checkpoint register only moves forward. */
    method AdvanceCheckpointLocked(record: Record, renamed: bool) returns (ok: bool)
      requires Valid()
      modifies this`checkpoint, this`checkpointLsn
      ensures Valid()
      ensures ok <==> renamed || record.lsn <= old(checkpointLsn)
      ensures checkpointLsn == if ok && record.lsn > old(checkpointLsn) then record.lsn else old(checkpointLsn)
      ensures checkpoint == if ok && record.lsn > old(checkpointLsn) then Some(record.lsn) else old(checkpoint)
    {
      if record.lsn <= checkpointLsn {
        return true;
      }
      if !renamed {
        return false;
      }
      checkpoint, checkpointLsn := Some(record.lsn), record.lsn;
      return true;
    }

    /** Append. It succeeds exactly on an open log with a record that can be logged and a
        write that was reported as done; the file then reads as it did, followed by the
        caller's record. */
    method Append(record: Record, cancelled: bool, outcome: WriteOutcome) returns (r: Result<Record>)
      requires Valid()
      modifies this`file, this`nextLsn, this`log
      ensures r.Ok?
              <==> isOpen && !cancelled && Loggable(codec, record, old(nextLsn)) && Reported(outcome, syncOnAppend)
      ensures r.Ok? ==> Valid() && log == old(log) + [r.value]
                        && Carries(r.value, record, old(nextLsn)) && r.value.lsn == LastLsn(old(log)) + 1
      ensures r.Ok? ==> Readable(codec, file) && ReadOf(codec, file).records == old(log) + [r.value]
      ensures r.Err? ==> log == old(log) && nextLsn == old(nextLsn)
      ensures r.Err? && (outcome.WriteFailed? ==> outcome.bytes == 0) && !outcome.SyncFailed? ==>
              Valid() && file == old(file)
    {
      if !isOpen || cancelled {
        return Err("WAL is not open");
      }
      r := AppendLocked(record, outcome);
      assert old(file) + [] == old(file);
    }

    /** CommitBoundary. The checkpoint moves only after the commit record is in
        the log and the storage commit has succeeded, and then it names the end of
        the log. */
    method CommitBoundary(record: Record, cancelled: bool, outcome: WriteOutcome, committed: bool, renamed: bool)
      returns (r: Result<Record>)
      requires Valid()
      modifies this`file, this`nextLsn, this`log, this`checkpoint, this`checkpointLsn
      ensures r.Ok? <==> && isOpen && !cancelled && Loggable(codec, record, old(nextLsn))
                         && Reported(outcome, syncOnAppend) && committed
                         && (renamed || old(nextLsn) <= old(checkpointLsn))
      ensures r.Ok? ==> Valid() && log == old(log) + [r.value] && Carries(r.value, record, old(nextLsn))
      ensures r.Ok? && old(Reopenable()) ==> checkpoint == Some(r.value.lsn) && checkpointLsn == LastLsn(log)
      ensures r.Err? ==> checkpoint == old(checkpoint) && checkpointLsn == old(checkpointLsn)
      ensures old(Reopenable()) && Valid() ==> Reopenable()
      ensures if isOpen && !cancelled && Loggable(codec, record, old(nextLsn)) && Reported(outcome, syncOnAppend)
              then Valid() && |log| == |old(log)| + 1 && log[..|old(log)|] == old(log)
                   && Carries(log[|old(log)|], record, old(nextLsn))
              else log == old(log) && nextLsn == old(nextLsn)
    {
      hide Readable, ReadOf, Holds, Lawful, Frame, LeavesBehind, Loggable, Reported, Stamped, WrittenPart;
      HoldsReads(codec, file, log);
      if !isOpen || cancelled {
        return Err("WAL is not open");
      }
      r := AppendLocked(record, outcome);
      if r.Err? {
        if Valid() {
          HoldsReads(codec, file, log);
        }
        return r;
      }
      HoldsReads(codec, file, log);
      if !committed {
        return Err("storage commit failed");
      }
      var ok := AdvanceCheckpointLocked(r.value, renamed);
      if !ok {
        return Err("WAL checkpoint not written");
      }
    }

    /** CheckpointCommittedRecord: refuses anything but a commit record with an
        LSN, and never moves the checkpoint back. */
    method CheckpointCommittedRecord(record: Record, cancelled: bool, renamed: bool) returns (ok: bool)
      requires Valid()
      modifies this`checkpoint, this`checkpointLsn
      ensures Valid()
      ensures ok <==> isOpen && record.kind == "commit" && !cancelled && record.lsn != 0
                      && (renamed || record.lsn <= old(checkpointLsn))
      ensures ok ==> checkpointLsn == if record.lsn > old(checkpointLsn) then record.lsn else old(checkpointLsn)
      ensures !ok ==> checkpoint == old(checkpoint) && checkpointLsn == old(checkpointLsn)
      ensures old(Reopenable()) ==> (Reopenable() <==> !ok || record.lsn <= LastLsn(log))
    {
      if !isOpen || !IsCommit(record) || cancelled || record.lsn == 0 {
        return false;
      }
      ok := AdvanceCheckpointLocked(record, renamed);
    }
  }

  /** OpenLocalWALWithOptions: it succeeds exactly on a readable file that the
      checkpoint is not ahead of, cuts off the torn tail, and continues after the
      last record. */
  method OpenLocalWal(codec: Codec, file: seq<byte>, checkpoint: Option<u64>, sync: bool) returns (r: Result<LocalWal>)
    requires Lawful(codec)
    ensures r.Ok? <==> Readable(codec, file) && CheckpointLsn(checkpoint) <= LastLsn(ReadOf(codec, file).records)
    ensures r.Ok? ==> fresh(r.value) && r.value.Valid() && r.value.Reopenable() && r.value.isOpen
                      && r.value.codec == codec && r.value.checkpoint == checkpoint
                      && r.value.log == ReadOf(codec, file).records
                      && r.value.file == file[..|file| - ReadOf(codec, file).tornBytes]
  {
    hide Readable, ReadOf, Lawful;
    var read := ReadLocalWal(codec, file);
    if read.Err? {
      return Err(read.error);
    }
    var lastLsn := LastLsn(read.value.records);
    if checkpoint.Some? && checkpoint.value > lastLsn {
      return Err("WAL checkpoint LSN is ahead of WAL tail");
    }
    TruncateThenRead(codec, file);
    var kept := if read.value.tornBytes != 0 then file[..read.value.validBytes] else file;
    assert kept == file[..read.value.validBytes];
    var wal := new LocalWal(codec, kept, checkpoint, sync, lastLsn, read.value.records);
    return Ok(wal);
  }

  // ----- A refused append -----

  /** A write that stopped inside the frame is undone by reopening: the log is
      what it was, and the LSN is given out again. */
  lemma FailedWriteReopens(c: Codec, f: seq<byte>, log: seq<Record>, r: Record, k: nat)
    requires Lawful(c) && Holds(c, f, log)
    requires ValidRecord(c, r) && r.lsn == NextLsn(log) && k < |Frame(c, r)|
    ensures Readable(c, f + Frame(c, r)[..k])
    ensures ReadOf(c, f + Frame(c, r)[..k]).records == log
    ensures NextLsn(ReadOf(c, f + Frame(c, r)[..k]).records) == r.lsn
  {
    ReadPartialAppend(c, f, log, r, k);
  }

  /** A refused append leaves the next LSN where it was, so the next append in the same
      process writes a frame with the same LSN behind whatever bytes the refused one left.
      The log stays readable exactly if there are none: part of a frame and the next one
      are one malformed line, and behind a whole frame, left when only the sync failed, the
      LSN does not increase. Nothing appended later repairs it. */
  lemma AppendAfterFailure(c: Codec, f: seq<byte>, log: seq<Record>, r: Record, k: nat, r': Record)
    requires Lawful(c) && LinesDoNotMerge(c) && Holds(c, f, log)
    requires ValidRecord(c, r) && ValidRecord(c, r') && r.lsn == r'.lsn == NextLsn(log) && k <= |Frame(c, r)|
    ensures Readable(c, f + Frame(c, r)[..k] + Frame(c, r')) <==> k == 0
    ensures Broken(c, f + Frame(c, r)[..k] + Frame(c, r')) <==> k > 0
  {
    hide Holds, Readable, Frame, Lawful, ValidRecord, LinesDoNotMerge, TailStart, Broken;
    var part, frame := Frame(c, r)[..k], Frame(c, r');
    var file := f + part + frame;
    if k == 0 {
      assert f + part == f;
      NextLsnAbove(c, log, r');
      ReadAppend(c, f, log, r');
      NotBroken(c, file, log + [r']);
    } else {
      if k < |Frame(c, r)| {
        ReadMerged(c, f, log, r, k, r');
        ConcatAssociative(f, part, frame);
      } else {
        assert part == Frame(c, r);
        AppendAfterFailedSync(c, f, log, r, r');
      }
      EndsInFrame(c, f + part, r');
      WholeBroken(c, file);
    }
  }

  lemma WholeBroken(c: Codec, f: seq<byte>)
    requires TailStart(f, 0) == |f| && !Readable(c, f)
    ensures Broken(c, f)
  {
    assert f[..|f|] == f;
  }

  lemma NotBroken(c: Codec, f: seq<byte>, rs: seq<Record>)
    requires Holds(c, f, rs)
    ensures Readable(c, f) && !Broken(c, f)
  {
    hide Broken, Holds;
    assert f + [] == f;
    if Broken(c, f) {
      BrokenStays(c, f, []);
    }
    HoldsReads(c, f, rs);
  }

  lemma HoldsReads(c: Codec, f: seq<byte>, rs: seq<Record>)
    requires Holds(c, f, rs)
    ensures Readable(c, f) && ReadOf(c, f).records == rs
  {
  }

  /** If only the sync failed, the next frame has an LSN that the file has already. */
  lemma AppendAfterFailedSync(c: Codec, f: seq<byte>, log: seq<Record>, r: Record, r': Record)
    requires Lawful(c) && Holds(c, f, log)
    requires ValidRecord(c, r) && ValidRecord(c, r') && r.lsn == r'.lsn == NextLsn(log)
    ensures !Readable(c, f + Frame(c, r) + Frame(c, r'))
  {
    hide Holds, Readable, Frame, Lawful, ValidRecord;
    NextLsnAbove(c, log, r);
    ReadAppend(c, f, log, r);
    ReadStale(c, f + Frame(c, r), log + [r], r');
  }
}
