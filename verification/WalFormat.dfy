/** The write-ahead log file: one JSON frame a line, a reader that tolerates a
    torn last line, and the recovery planner (core/local_wal.go). */
module WalFormat {
  import opened Prelude

  const VERSION: int := 1
  const NEWLINE: byte := 10
  const KIND_PUT_ROW: string := "put_row"
  const KIND_UPDATE_ROW: string := "update_row"
  const KIND_COMMIT: string := "commit"

  datatype Record = Record(
    version: int,
    lsn: u64,
    operationId: string,
    kind: string,
    table: string,
    payload: seq<byte>)

  /** What the reader makes of one line: nothing after trimming, bytes that fail
      to unmarshal or to match the frame's format and checksum, or a record. */
  datatype Line = Blank | Malformed | Decoded(record: Record)

  /** JSON marshalling with the SHA-256 checksum of a frame, and its inverse on
      one line. */
  datatype Codec = Codec(
    encode: Record -> seq<byte>,
    decode: seq<byte> -> Line,
    validJson: seq<byte> -> bool,
    trimmedEmpty: string -> bool)

  /** validateLocalWALRecord. */
  predicate ValidRecord(c: Codec, r: Record) {
    && r.version == VERSION
    && r.lsn != 0
    && !c.trimmedEmpty(r.kind)
    && !c.trimmedEmpty(r.operationId)
    && r.payload != []
    && c.validJson(r.payload)
  }

  /** The laws of the framing: marshalled JSON has no raw newline, and decoding a
      written line gives its record back. */
  ghost predicate Lawful(c: Codec) {
    && !c.trimmedEmpty(KIND_COMMIT)
    && forall r :: ValidRecord(c, r) ==>
      && NEWLINE !in c.encode(r)
      && c.decode(Frame(c, r)) == Decoded(r)
  }

  /** A JSON object that breaks off and then another one, on one line, is no JSON text:
      inside a string the second object's first quotation mark ends it in the wrong place,
      and anywhere else the first object is never closed, or is closed and not the end. */
  ghost predicate LinesDoNotMerge(c: Codec) {
    forall r, r', k: nat | ValidRecord(c, r) && ValidRecord(c, r') && 0 < k < |Frame(c, r)| ::
      c.decode(Frame(c, r)[..k] + Frame(c, r')).Malformed?
  }

  /** One line of the log. */
  function Frame(c: Codec, r: Record): (f: seq<byte>)
  {
    c.encode(r) + [NEWLINE]
  }

  // ----- Lines -----

  /** The position of the first newline at or after `pos`, or the end of the file. */
  function LineStop(f: seq<byte>, pos: nat): (n: nat)
    requires pos <= |f|
    ensures pos <= n <= |f|
    ensures forall i | pos <= i < n :: f[i] != NEWLINE
    ensures n < |f| ==> f[n] == NEWLINE
    decreases |f| - pos
  {
    if pos == |f| || f[pos] == NEWLINE then pos else LineStop(f, pos + 1)
  }

  /** The newline-terminated lines from `pos` on, each with its newline. */
  function Lines(f: seq<byte>, pos: nat): (ls: seq<seq<byte>>)
    requires pos <= |f|
    decreases |f| - pos
  {
    var stop := LineStop(f, pos);
    if stop == |f| then [] else [f[pos..stop + 1]] + Lines(f, stop + 1)
  }

  /** Where the bytes after the last newline begin. */
  function TailStart(f: seq<byte>, pos: nat): (n: nat)
    requires pos <= |f|
    ensures pos <= n <= |f|
    decreases |f| - pos
  {
    var stop := LineStop(f, pos);
    if stop == |f| then pos else TailStart(f, stop + 1)
  }

  /** A line that holds a frame the reader accepts. */
  predicate Acceptable(c: Codec, line: seq<byte>) {
    c.decode(line).Decoded? && ValidRecord(c, c.decode(line).record)
  }

  /** The records of the lines that are not blank, or None when one of them is
      not an acceptable frame. */
  function Parse(c: Codec, ls: seq<seq<byte>>): (rs: Option<seq<Record>>)
  {
    if ls == [] then Some([])
    else
      var front := Parse(c, ls[..|ls| - 1]);
      var line := ls[|ls| - 1];
      if front.None? || c.decode(line).Blank? then front
      else if Acceptable(c, line) then Some(front.value + [c.decode(line).record])
      else None
  }

  ghost predicate Increasing(rs: seq<Record>) {
    && (forall i | 0 <= i < |rs| :: 0 < rs[i].lsn)
    && (forall i, j | 0 <= i < j < |rs| :: rs[i].lsn < rs[j].lsn)
  }

  function LastLsn(rs: seq<Record>): (n: u64) {
    if rs == [] then 0 else rs[|rs| - 1].lsn
  }

  datatype ReadResult = ReadResult(
    records: seq<Record>,
    byteCount: nat,
    validBytes: nat,
    tornBytes: nat,
    tornLine: nat)

  /** A file the reader accepts. */
  ghost predicate Readable(c: Codec, f: seq<byte>) {
    var p := Parse(c, Lines(f, 0));
    p.Some? && Increasing(p.value)
  }

  ghost function ReadOf(c: Codec, f: seq<byte>): (r: ReadResult)
    requires Readable(c, f)
  {
    var valid := TailStart(f, 0);
    ReadResult(
      Parse(c, Lines(f, 0)).value,
      |f|,
      valid,
      |f| - valid,
      if valid == |f| then 0 else |Lines(f, 0)| + 1)
  }

  lemma {:induction false} ParseFailsEarly(c: Codec, a: seq<seq<byte>>, b: seq<seq<byte>>)
    ensures Parse(c, a).None? ==> Parse(c, a + b).None?
    ensures Parse(c, a).Some? && Parse(c, a + b).Some? ==> Parse(c, a).value <= Parse(c, a + b).value
    decreases |b|
  {
    if b == [] {
      assert a + b == a;
    } else {
      assert (a + b)[..|a + b| - 1] == a + b[..|b| - 1];
      ParseFailsEarly(c, a, b[..|b| - 1]);
    }
  }

  /** A line that is not an acceptable frame, or whose LSN does not increase,
      makes the whole file unreadable. */
  lemma BadLine(c: Codec, done: seq<seq<byte>>, line: seq<byte>, rest: seq<seq<byte>>)
    requires Parse(c, done).Some? && !c.decode(line).Blank?
    requires Acceptable(c, line) ==> c.decode(line).record.lsn <= LastLsn(Parse(c, done).value)
    ensures var p := Parse(c, done + [line] + rest);
            p.None? || !Increasing(p.value)
  {
    assert (done + [line])[..|done|] == done;
    ParseFailsEarly(c, done + [line], rest);
    var all := Parse(c, done + [line] + rest);
    if all.Some? {
      var records := Parse(c, done).value;
      var next := Parse(c, done + [line]).value;
      assert next[|records|] == all.value[|records|];
      if records != [] {
        assert next[|records| - 1] == all.value[|records| - 1];
      }
    }
  }

  lemma GoodLine(c: Codec, done: seq<seq<byte>>, line: seq<byte>)
    requires Parse(c, done).Some? && Increasing(Parse(c, done).value)
    requires !c.decode(line).Blank? ==>
               Acceptable(c, line) && LastLsn(Parse(c, done).value) < c.decode(line).record.lsn
    ensures Parse(c, done + [line]).Some? && Increasing(Parse(c, done + [line]).value)
    ensures Parse(c, done + [line]).value == Parse(c, done).value +
              if c.decode(line).Blank? then [] else [c.decode(line).record]
  {
    hide ValidRecord;
    assert (done + [line])[..|done|] == done;
  }

  /** What the reader knows after the first `pos` bytes, which hold the lines `done`. */
  ghost predicate Progress(c: Codec, file: seq<byte>, pos: nat, done: seq<seq<byte>>, records: seq<Record>) {
    && pos <= |file|
    && Lines(file, 0) == done + Lines(file, pos)
    && TailStart(file, 0) == TailStart(file, pos)
    && Parse(c, done) == Some(records)
    && Increasing(records)
  }

  lemma ProgressStart(c: Codec, file: seq<byte>)
    ensures Progress(c, file, 0, [], [])
  {
  }

  lemma ProgressLine(c: Codec, file: seq<byte>, pos: nat, done: seq<seq<byte>>, records: seq<Record>, line: seq<byte>)
    requires Progress(c, file, pos, done, records)
    requires LineStop(file, pos) < |file| && line == file[pos..LineStop(file, pos) + 1]
    requires !c.decode(line).Blank? ==> Acceptable(c, line) && LastLsn(records) < c.decode(line).record.lsn
    ensures Progress(c, file, LineStop(file, pos) + 1, done + [line],
                     records + if c.decode(line).Blank? then [] else [c.decode(line).record])
  {
    hide Parse, Increasing, LineStop, ValidRecord;
    GoodLine(c, done, line);
    assert done + [line] + Lines(file, LineStop(file, pos) + 1) == Lines(file, 0);
  }

  lemma ProgressBad(c: Codec, file: seq<byte>, pos: nat, done: seq<seq<byte>>, records: seq<Record>, line: seq<byte>)
    requires Progress(c, file, pos, done, records)
    requires LineStop(file, pos) < |file| && line == file[pos..LineStop(file, pos) + 1]
    requires !c.decode(line).Blank?
    requires Acceptable(c, line) ==> c.decode(line).record.lsn <= LastLsn(records)
    ensures !Readable(c, file)
  {
    hide Parse, Increasing, LineStop, ValidRecord;
    var rest := Lines(file, LineStop(file, pos) + 1);
    BadLine(c, done, line, rest);
    assert done + [line] + rest == Lines(file, 0);
  }

  lemma ProgressEnd(c: Codec, file: seq<byte>, pos: nat, done: seq<seq<byte>>, records: seq<Record>)
    requires Progress(c, file, pos, done, records)
    requires LineStop(file, pos) == |file|
    ensures Readable(c, file)
    ensures ReadOf(c, file) == ReadResult(records, |file|, pos, |file| - pos,
                                          if pos == |file| then 0 else |done| + 1)
  {
    assert Lines(file, 0) == done;
  }

  /** readLocalWAL. The reader accepts exactly the readable files, and on those
      returns the records of the complete lines and the size of the torn tail. */
  method ReadLocalWal(c: Codec, file: seq<byte>) returns (r: Result<ReadResult>)
    ensures r.Ok? <==> Readable(c, file)
    ensures r.Ok? ==> r.value == ReadOf(c, file)
  {
    hide Parse, Readable, ReadOf, Increasing, ValidRecord, Lines, TailStart, LineStop;
    var pos, lineNumber := 0, 0;
    var lastLsn: u64 := 0;
    var records: seq<Record> := [];
    ghost var done: seq<seq<byte>> := [];
    ProgressStart(c, file);
    while pos < |file|
      invariant Progress(c, file, pos, done, records)
      invariant lastLsn == LastLsn(records)
      invariant lineNumber == |done|
    {
      var stop := LineStop(file, pos);
      if stop == |file| {
        ProgressEnd(c, file, pos, done, records);
        return Ok(ReadResult(records, |file|, pos, |file| - pos, lineNumber + 1));
      }
      lineNumber := lineNumber + 1;
      var line := file[pos..stop + 1];
      var decoded := c.decode(line);
      if !decoded.Blank? {
        if !Acceptable(c, line) || decoded.record.lsn <= lastLsn {
          ProgressBad(c, file, pos, done, records, line);
          return Err("WAL frame does not parse, validate or increase the LSN");
        }
        lastLsn := decoded.record.lsn;
      }
      ProgressLine(c, file, pos, done, records, line);
      records := records + if decoded.Blank? then [] else [decoded.record];
      done := done + [line];
      pos := stop + 1;
    }
    ProgressEnd(c, file, pos, done, records);
    return Ok(ReadResult(records, |file|, |file|, 0, 0));
  }

  // ----- What is read, line by line -----

  /** Bytes that end at their only newline. */
  ghost predicate IsLine(line: seq<byte>) {
    line != [] && line[|line| - 1] == 10 && forall i | 0 <= i < |line| - 1 :: line[i] != 10
  }

  /** A line ends at its only newline, and the torn tail has none. */
  lemma {:induction false} LinesAre(f: seq<byte>, pos: nat)
    requires pos <= |f|
    ensures forall line | line in Lines(f, pos) :: IsLine(line)
    ensures forall i | TailStart(f, pos) <= i < |f| :: f[i] != 10
    decreases |f| - pos
  {
    hide LineStop, IsLine;
    var stop := LineStop(f, pos);
    if stop < |f| {
      LinesAre(f, stop + 1);
      OneIsLine(f, pos, stop);
    }
  }

  lemma OneIsLine(f: seq<byte>, pos: nat, stop: nat)
    requires pos <= stop < |f| && f[stop] == 10 && forall i | pos <= i < stop :: f[i] != 10
    ensures IsLine(f[pos..stop + 1])
  {
    var line := f[pos..stop + 1];
    assert forall i | 0 <= i < |line| :: line[i] == f[pos + i];
  }

  /** The file is its lines and then the torn tail. */
  lemma {:induction false} LinesMakeUp(f: seq<byte>, pos: nat)
    requires pos <= |f|
    ensures f[pos..] == Flat(Lines(f, pos)) + f[TailStart(f, pos)..]
    decreases |f| - pos
  {
    hide LineStop, Flat;
    var stop := LineStop(f, pos);
    if stop < |f| {
      LinesMakeUp(f, stop + 1);
      var line, rest := f[pos..stop + 1], Lines(f, stop + 1);
      FlatCons(line, rest);
      assert f[pos..] == line + f[stop + 1..];
      ConcatAssociative(line, Flat(rest), f[TailStart(f, stop + 1)..]);
    } else {
      FlatNothing();
    }
  }

  lemma FlatCons(line: seq<byte>, rest: seq<seq<byte>>)
    ensures Flat([line] + rest) == line + Flat(rest)
  {
    assert ([line] + rest)[1..] == rest;
  }

  lemma FlatNothing()
    ensures Flat([]) == []
  {
  }

  function Flat(ls: seq<seq<byte>>): seq<byte> {
    if ls == [] then [] else ls[0] + Flat(ls[1..])
  }

  /** A line with a frame of version 1, a kind, an operation and a JSON payload, and an LSN. */
  predicate GoodFrame(c: Codec, line: seq<byte>) {
    && c.decode(line).Decoded?
    && var r := c.decode(line).record;
       && r.version == 1 && r.lsn > 0 && r.payload != [] && c.validJson(r.payload)
       && !c.trimmedEmpty(r.kind) && !c.trimmedEmpty(r.operationId)
  }

  ghost predicate AllGood(c: Codec, ls: seq<seq<byte>>) {
    forall line | line in ls :: c.decode(line).Blank? || GoodFrame(c, line)
  }

  /** The records are those of the lines that are not blank, in order. */
  ghost predicate RecordsOfLines(c: Codec, ls: seq<seq<byte>>, rs: seq<Record>)
    decreases |ls|
  {
    if ls == [] then rs == []
    else if c.decode(ls[|ls| - 1]).Blank? then RecordsOfLines(c, ls[..|ls| - 1], rs)
    else
      && rs != [] && c.decode(ls[|ls| - 1]) == Decoded(rs[|rs| - 1])
      && RecordsOfLines(c, ls[..|ls| - 1], rs[..|rs| - 1])
  }

  lemma {:induction false} ParseIff(c: Codec, ls: seq<seq<byte>>)
    ensures Parse(c, ls).Some? <==> AllGood(c, ls)
    ensures Parse(c, ls).Some? ==> RecordsOfLines(c, ls, Parse(c, ls).value)
    decreases |ls|
  {
    if ls != [] {
      var n := |ls| - 1;
      ParseIff(c, ls[..n]);
      assert ls == ls[..n] + [ls[n]];
      if Parse(c, ls).Some? && !c.decode(ls[n]).Blank? {
        assert Parse(c, ls).value[..|Parse(c, ls).value| - 1] == Parse(c, ls[..n]).value;
      }
    }
  }

  /** A file is readable exactly if every line is blank or a good frame and the LSNs increase;
      what is read are the records of its lines, and what follows the last newline is torn. */
  lemma ReadableIff(c: Codec, f: seq<byte>, rs: seq<Record>)
    ensures Readable(c, f) && ReadOf(c, f).records == rs <==>
            && AllGood(c, Lines(f, 0)) && RecordsOfLines(c, Lines(f, 0), rs)
            && forall i, j | 0 <= i < j < |rs| :: rs[i].lsn < rs[j].lsn
    ensures Readable(c, f) ==> f == Flat(Lines(f, 0)) + f[|f| - ReadOf(c, f).tornBytes..]
  {
    hide Parse, Lines, Flat, AllGood, RecordsOfLines, TailStart;
    var ls := Lines(f, 0);
    ParseIff(c, ls);
    LinesMakeUp(f, 0);
    assert f[0..] == f;
    if AllGood(c, ls) && RecordsOfLines(c, ls, rs) {
      RecordsUnique(c, ls, rs, Parse(c, ls).value);
      GoodLsns(c, ls, rs);
    }
  }

  lemma {:induction false} RecordsUnique(c: Codec, ls: seq<seq<byte>>, rs: seq<Record>, rs': seq<Record>)
    requires RecordsOfLines(c, ls, rs) && RecordsOfLines(c, ls, rs')
    ensures rs == rs'
    decreases |ls|
  {
    if ls != [] {
      if c.decode(ls[|ls| - 1]).Blank? {
        RecordsUnique(c, ls[..|ls| - 1], rs, rs');
      } else {
        RecordsUnique(c, ls[..|ls| - 1], rs[..|rs| - 1], rs'[..|rs'| - 1]);
        assert rs == rs[..|rs| - 1] + [rs[|rs| - 1]] && rs' == rs'[..|rs'| - 1] + [rs'[|rs'| - 1]];
      }
    }
  }

  lemma {:induction false} GoodLsns(c: Codec, ls: seq<seq<byte>>, rs: seq<Record>)
    requires RecordsOfLines(c, ls, rs) && AllGood(c, ls)
    ensures forall i | 0 <= i < |rs| :: 0 < rs[i].lsn
    decreases |ls|
  {
    if ls != [] {
      var n := |ls| - 1;
      assert ls[n] in ls && ls == ls[..n] + [ls[n]];
      if c.decode(ls[n]).Blank? {
        GoodLsns(c, ls[..n], rs);
      } else {
        GoodLsns(c, ls[..n], rs[..|rs| - 1]);
      }
    }
  }

  // ----- Truncating and growing a readable file -----

  lemma {:induction false} LinesOfValidPart(f: seq<byte>, g: seq<byte>, pos: nat)
    requires pos <= |f| && g == f[..TailStart(f, pos)]
    ensures Lines(g, pos) == Lines(f, pos)
    ensures TailStart(g, pos) == |g|
    decreases |f| - pos
  {
    hide LineStop;
    var stop := LineStop(f, pos);
    if stop == |f| {
      assert LineStop(g, pos) == |g|;
    } else {
      LinesOfValidPart(f, g, stop + 1);
      assert forall i | pos <= i <= stop :: g[i] == f[i];
      LineStopIs(g, pos, stop);
      assert g[pos..stop + 1] == f[pos..stop + 1] by {
        SliceOfPrefix(f, |g|, pos, stop + 1);
      }
    }
  }

  /** Truncating the torn tail of any readable file and reading again gives the
      same records and no tail. */
  lemma TruncateThenRead(c: Codec, f: seq<byte>)
    requires Readable(c, f)
    ensures ReadOf(c, f).validBytes + ReadOf(c, f).tornBytes == |f|
    ensures Holds(c, f[..ReadOf(c, f).validBytes], ReadOf(c, f).records)
  {
    LinesOfValidPart(f, f[..TailStart(f, 0)], 0);
  }

  /** A file that reads as exactly `rs`, with nothing after the last newline. */
  ghost predicate Holds(c: Codec, f: seq<byte>, rs: seq<Record>) {
    Readable(c, f) && ReadOf(c, f).records == rs && ReadOf(c, f).tornBytes == 0
  }

  /** Bytes added after the last newline leave the lines before it alone. */
  lemma {:induction false} LinesExtend(f: seq<byte>, g: seq<byte>, pos: nat)
    requires pos <= |f| && TailStart(f, pos) == |f|
    ensures Lines(f + g, pos) == Lines(f, pos) + Lines(f + g, |f|)
    ensures TailStart(f + g, pos) == TailStart(f + g, |f|)
    decreases |f| - pos
  {
    hide LineStop;
    var stop := LineStop(f, pos);
    if stop < |f| {
      LineStopIs(f + g, pos, stop);
      LinesExtend(f, g, stop + 1);
      assert (f + g)[pos..stop + 1] == f[pos..stop + 1];
    }
  }

  /** LineStop is determined by what it promises. */
  lemma LineStopIs(f: seq<byte>, pos: nat, n: nat)
    requires pos <= n <= |f|
    requires forall i | pos <= i < n :: f[i] != NEWLINE
    requires n < |f| ==> f[n] == NEWLINE
    ensures LineStop(f, pos) == n
  {
  }

  /** Bytes whose only newline is the last byte are one line. */
  lemma OneLine(f: seq<byte>, line: seq<byte>)
    requires line != [] && line[|line| - 1] == NEWLINE && NEWLINE !in line[..|line| - 1]
    ensures Lines(f + line, |f|) == [line]
    ensures TailStart(f + line, |f|) == |f + line|
  {
    var g := f + line;
    assert forall i | |f| <= i < |g| - 1 :: g[i] == line[..|line| - 1][i - |f|];
    LineStopIs(g, |f|, |g| - 1);
    assert g[|f|..|g|] == line;
    assert Lines(g, |g|) == [];
  }

  /** Appending the frame of a later record appends that record. */
  lemma ReadAppend(c: Codec, f: seq<byte>, rs: seq<Record>, r: Record)
    requires Lawful(c) && Holds(c, f, rs)
    requires ValidRecord(c, r) && LastLsn(rs) < r.lsn
    ensures Holds(c, f + Frame(c, r), rs + [r])
  {
    hide Parse, LineStop, Increasing;
    LinesExtend(f, Frame(c, r), 0);
    assert Frame(c, r)[..|Frame(c, r)| - 1] == c.encode(r);
    OneLine(f, Frame(c, r));
    GoodLine(c, Lines(f, 0), Frame(c, r));
  }

  /** Appending a frame whose LSN is not above the last one makes the file unreadable. */
  lemma ReadStale(c: Codec, f: seq<byte>, rs: seq<Record>, r: Record)
    requires Lawful(c) && Holds(c, f, rs)
    requires ValidRecord(c, r) && r.lsn <= LastLsn(rs)
    ensures !Readable(c, f + Frame(c, r))
  {
    hide Parse, LineStop, Increasing;
    LinesExtend(f, Frame(c, r), 0);
    assert Frame(c, r)[..|Frame(c, r)| - 1] == c.encode(r);
    OneLine(f, Frame(c, r));
    BadLine(c, Lines(f, 0), Frame(c, r), []);
    assert Lines(f + Frame(c, r), 0) == Lines(f, 0) + [Frame(c, r)] + [];
  }

  /** An unfinished line leaves the records alone and is reported as torn. */
  lemma ReadTorn(c: Codec, f: seq<byte>, rs: seq<Record>, t: seq<byte>)
    requires Holds(c, f, rs) && NEWLINE !in t
    ensures Readable(c, f + t)
    ensures ReadOf(c, f + t).records == rs
    ensures ReadOf(c, f + t).byteCount == |f| + |t|
    ensures ReadOf(c, f + t).validBytes == |f|
    ensures ReadOf(c, f + t).tornBytes == |t|
  {
    LinesExtend(f, t, 0);
    assert forall i | |f| <= i < |f + t| :: (f + t)[i] == t[i - |f|];
    LineStopIs(f + t, |f|, |f + t|);
    assert Lines(f, 0) + [] == Lines(f, 0);
  }

  /** Part of a frame that misses at least the newline has no newline. */
  lemma PartOfFrame(c: Codec, r: Record, k: nat)
    requires Lawful(c) && ValidRecord(c, r) && k < |Frame(c, r)|
    ensures NEWLINE !in Frame(c, r)[..k]
  {
    assert Frame(c, r)[..k] == c.encode(r)[..k];
  }

  /** A crash inside the write of a frame: any part of the frame short of the
      whole is a torn tail, and truncating it gives the file before the write. */
  lemma ReadPartialAppend(c: Codec, f: seq<byte>, rs: seq<Record>, r: Record, k: nat)
    requires Lawful(c) && Holds(c, f, rs)
    requires ValidRecord(c, r) && k < |Frame(c, r)|
    ensures Readable(c, f + Frame(c, r)[..k])
    ensures ReadOf(c, f + Frame(c, r)[..k]).records == rs
    ensures ReadOf(c, f + Frame(c, r)[..k]).tornBytes == k
    ensures (f + Frame(c, r)[..k])[..ReadOf(c, f + Frame(c, r)[..k]).validBytes] == f
  {
    PartOfFrame(c, r, k);
    ReadTorn(c, f, rs, Frame(c, r)[..k]);
  }

  /** A frame behind part of another one makes the file unreadable. */
  lemma ReadMerged(c: Codec, f: seq<byte>, rs: seq<Record>, r: Record, k: nat, r': Record)
    requires Lawful(c) && LinesDoNotMerge(c) && Holds(c, f, rs)
    requires ValidRecord(c, r) && ValidRecord(c, r') && 0 < k < |Frame(c, r)|
    ensures !Readable(c, f + (Frame(c, r)[..k] + Frame(c, r')))
  {
    hide Parse, LineStop, Increasing, LinesDoNotMerge;
    var line := Frame(c, r)[..k] + Frame(c, r');
    PartOfFrame(c, r, k);
    assert line[..|line| - 1] == Frame(c, r)[..k] + c.encode(r');
    LinesExtend(f, line, 0);
    OneLine(f, line);
    MergedLine(c, r, k, r');
    BadLine(c, Lines(f, 0), line, []);
    assert Lines(f + line, 0) == Lines(f, 0) + [line] + [];
  }

  /** A file whose last byte is a newline has no torn tail. */
  lemma {:induction false} EndsInNewline(f: seq<byte>, pos: nat)
    requires pos <= |f| && (pos < |f| ==> f[|f| - 1] == NEWLINE)
    ensures TailStart(f, pos) == |f|
    decreases |f| - pos
  {
    hide LineStop;
    var stop := LineStop(f, pos);
    if pos < |f| && stop < |f| {
      EndsInNewline(f, stop + 1);
    }
  }

  lemma EndsInFrame(c: Codec, f: seq<byte>, r: Record)
    ensures TailStart(f + Frame(c, r), 0) == |f + Frame(c, r)|
  {
    EndsInNewline(f + Frame(c, r), 0);
  }

  lemma MergedLine(c: Codec, r: Record, k: nat, r': Record)
    requires LinesDoNotMerge(c) && ValidRecord(c, r) && ValidRecord(c, r') && 0 < k < |Frame(c, r)|
    ensures c.decode(Frame(c, r)[..k] + Frame(c, r')).Malformed?
  {
  }

  /** Some whole lines at the beginning of the file are not readable. */
  ghost predicate Broken(c: Codec, f: seq<byte>) {
    exists n | 0 <= n <= |f| :: TailStart(f[..n], 0) == n && !Readable(c, f[..n])
  }

  /** Nothing that is appended repairs that. */
  lemma BrokenStays(c: Codec, f: seq<byte>, g: seq<byte>)
    requires Broken(c, f)
    ensures Broken(c, f + g) && !Readable(c, f + g)
  {
    hide Parse, Lines, TailStart, Increasing;
    var n :| 0 <= n <= |f| && TailStart(f[..n], 0) == n && !Readable(c, f[..n]);
    var bad, rest := f[..n], (f + g)[n..];
    assert (f + g)[..n] == bad && f + g == bad + rest;
    LinesExtend(bad, rest, 0);
    ParseFailsEarly(c, Lines(bad, 0), Lines(bad + rest, |bad|));
    PrefixIncreasing(c, Lines(bad, 0), Lines(bad + rest, 0));
  }

  lemma PrefixIncreasing(c: Codec, ls: seq<seq<byte>>, more: seq<seq<byte>>)
    requires Parse(c, ls).Some? && Parse(c, more).Some? ==> Parse(c, ls).value <= Parse(c, more).value
    ensures Parse(c, ls).Some? && Parse(c, more).Some? && Increasing(Parse(c, more).value) ==>
            Increasing(Parse(c, ls).value)
  {
    hide Parse;
  }

  // ----- Whole logs -----

  /** The bytes of a log: its frames in order. */
  function EncodeLog(c: Codec, rs: seq<Record>): (f: seq<byte>)
  {
    if rs == [] then [] else EncodeLog(c, rs[..|rs| - 1]) + Frame(c, rs[|rs| - 1])
  }

  /** Records the log may hold: valid and in increasing LSN order. */
  ghost predicate ValidLog(c: Codec, rs: seq<Record>) {
    && (forall i | 0 <= i < |rs| :: ValidRecord(c, rs[i]))
    && Increasing(rs)
  }

  lemma ReadEmpty(c: Codec)
    ensures Holds(c, [], [])
  {
    assert Lines([], 0) == [];
  }

  /** Writing the frames of a log and reading the file back gives the log. */
  lemma {:induction false} ReadLog(c: Codec, rs: seq<Record>)
    requires Lawful(c) && ValidLog(c, rs)
    ensures Holds(c, EncodeLog(c, rs), rs)
    decreases |rs|
  {
    hide Readable, ReadOf, Frame, Lawful, ValidRecord;
    if rs == [] {
      ReadEmpty(c);
    } else {
      var front, r := rs[..|rs| - 1], rs[|rs| - 1];
      ReadLog(c, front);
      assert front != [] ==> front[|front| - 1] == rs[|rs| - 2];
      ReadAppend(c, EncodeLog(c, front), front, r);
      assert front + [r] == rs;
    }
  }

  /** The number of records whose frame, newline included, lies in the first `k` bytes. */
  function CompleteWithin(c: Codec, rs: seq<Record>, k: nat): (m: nat)
    ensures m <= |rs|
  {
    if |EncodeLog(c, rs)| <= k || rs == [] then |rs| else CompleteWithin(c, rs[..|rs| - 1], k)
  }

  lemma {:induction false} CompleteWithinIs(c: Codec, rs: seq<Record>, k: nat)
    ensures var m := CompleteWithin(c, rs, k);
            && |EncodeLog(c, rs[..m])| <= k
            && (m < |rs| ==> k < |EncodeLog(c, rs[..m + 1])|)
    decreases |rs|
  {
    var m := CompleteWithin(c, rs, k);
    if m == |rs| {
      assert rs[..m] == rs;
    } else {
      var front := rs[..|rs| - 1];
      CompleteWithinIs(c, front, k);
      assert front[..m] == rs[..m];
      if m < |front| {
        assert front[..m + 1] == rs[..m + 1];
      } else {
        assert rs[..m + 1] == rs;
      }
    }
  }

  /** Every byte prefix of a log is readable, yields exactly the records whose
      line lies inside the prefix, and accounts for every byte. */
  lemma {:induction false} ReadPrefix(c: Codec, rs: seq<Record>, k: nat, f: seq<byte>)
    requires Lawful(c) && ValidLog(c, rs)
    requires k <= |EncodeLog(c, rs)| && f == EncodeLog(c, rs)[..k]
    ensures Readable(c, f)
    ensures var m := CompleteWithin(c, rs, k);
            && ReadOf(c, f).records == rs[..m]
            && ReadOf(c, f).byteCount == k
            && ReadOf(c, f).validBytes == |EncodeLog(c, rs[..m])|
            && ReadOf(c, f).validBytes + ReadOf(c, f).tornBytes == k
    decreases |rs|
  {
    hide Readable, ReadOf, Parse, CompleteWithin, Frame, Lawful;
    if k == |EncodeLog(c, rs)| {
      assert f == EncodeLog(c, rs) + [];
      CompleteAll(c, rs);
      ReadLog(c, rs);
      ReadTorn(c, EncodeLog(c, rs), rs, []);
    } else {
      CompleteInFront(c, rs, k);
      var front := rs[..|rs| - 1];
      var before := EncodeLog(c, front);
      if |before| <= k {
        var t := Frame(c, rs[|rs| - 1])[..k - |before|];
        assert f == before + t;
        ReadLog(c, front);
        PartOfFrame(c, rs[|rs| - 1], k - |before|);
        ReadTorn(c, before, front, t);
      } else {
        assert f == before[..k];
        ReadPrefix(c, front, k, f);
      }
    }
  }

  lemma CompleteAll(c: Codec, rs: seq<Record>)
    ensures CompleteWithin(c, rs, |EncodeLog(c, rs)|) == |rs|
    ensures rs[..|rs|] == rs
  {
  }

  lemma CompleteInFront(c: Codec, rs: seq<Record>, k: nat)
    requires k < |EncodeLog(c, rs)|
    ensures rs != []
    ensures var front := rs[..|rs| - 1];
            && CompleteWithin(c, rs, k) == CompleteWithin(c, front, k)
            && rs[..CompleteWithin(c, rs, k)] == front[..CompleteWithin(c, rs, k)]
            && (|EncodeLog(c, front)| <= k ==> CompleteWithin(c, rs, k) == |front| && rs[..|front|] == front)
  {
  }

  // ----- Planning recovery -----

  datatype Plan = Plan(
    checkpointExists: bool,
    checkpointLsn: u64,
    lastLsn: u64,
    recordCount: nat,
    tornBytes: nat,
    tornLine: nat,
    checkpointedCount: nat,
    replay: seq<Record>,
    pending: seq<Record>,
    commitCount: nat)

  predicate IsCommit(r: Record) {
    r.kind == KIND_COMMIT
  }

  function CountCommits(rs: seq<Record>): (n: nat)
    ensures n <= |rs|
  {
    if rs == [] then 0
    else CountCommits(rs[..|rs| - 1]) + if IsCommit(rs[|rs| - 1]) then 1 else 0
  }

  function CheckpointLsn(checkpoint: Option<u64>): (n: u64) {
    if checkpoint.Some? then checkpoint.value else 0
  }

  /** What a plan promises about the log it was made from. The three parts make
      up the log in order; the checkpoint separates the first from the rest; what
      is to be replayed ends in a commit; what is pending holds none. */
  ghost predicate PlanFits(read: ReadResult, checkpoint: Option<u64>, p: Plan) {
    var rs := read.records;
    && p.checkpointExists == checkpoint.Some?
    && p.checkpointLsn == CheckpointLsn(checkpoint)
    && p.lastLsn == LastLsn(rs)
    && p.recordCount == |rs|
    && p.tornBytes == read.tornBytes
    && p.tornLine == read.tornLine
    && p.checkpointedCount <= |rs|
    && rs == rs[..p.checkpointedCount] + p.replay + p.pending
    && (forall i | 0 <= i < |rs| :: rs[i].lsn <= p.checkpointLsn <==> i < p.checkpointedCount)
    && (p.replay != [] ==> IsCommit(p.replay[|p.replay| - 1]))
    && (forall r | r in p.pending :: !IsCommit(r))
    && p.commitCount == CountCommits(p.replay)
  }

  /** PlanLocalWALRecoveryWithOptions: the plan exists exactly for a readable log
      that the checkpoint is not ahead of, and it fits that log. */
  method PlanRecovery(c: Codec, file: seq<byte>, checkpoint: Option<u64>) returns (r: Result<Plan>)
    ensures r.Ok? <==> Readable(c, file) && CheckpointLsn(checkpoint) <= LastLsn(ReadOf(c, file).records)
    ensures r.Ok? ==> PlanFits(ReadOf(c, file), checkpoint, r.value)
  {
    var read := ReadLocalWal(c, file);
    if read.Err? {
      return Err(read.error);
    }
    if checkpoint.Some? && checkpoint.value > LastLsn(read.value.records) {
      return Err("WAL checkpoint LSN is ahead of WAL tail");
    }
    var plan := PlanFromRead(read.value, checkpoint);
    return Ok(plan);
  }

  method PlanFromRead(read: ReadResult, checkpoint: Option<u64>) returns (p: Plan)
    requires Increasing(read.records)
    ensures PlanFits(read, checkpoint, p)
  {
    var records := read.records;
    var checkpointLsn := CheckpointLsn(checkpoint);
    var checkpointed, tail := SplitAtCheckpoint(records, checkpointLsn);
    var lastCommit := LastCommitIndex(tail);
    var replay, pending := tail[..lastCommit + 1], tail[lastCommit + 1..];
    var commits := CommitTotal(replay);
    assert records == records[..checkpointed] + replay + pending;
    return Plan(checkpoint.Some?, checkpointLsn, LastLsn(records), |records|, read.tornBytes,
                read.tornLine, checkpointed, replay, pending, commits);
  }

  method CommitTotal(replay: seq<Record>) returns (commits: nat)
    ensures commits == CountCommits(replay)
  {
    commits := 0;
    for i := 0 to |replay|
      invariant commits == CountCommits(replay[..i])
    {
      assert replay[..i + 1][..i] == replay[..i];
      if IsCommit(replay[i]) {
        commits := commits + 1;
      }
    }
    assert replay[..|replay|] == replay;
  }

  /** The first loop of the planner: count the records at or below the
      checkpoint and keep the others. */
  method SplitAtCheckpoint(records: seq<Record>, checkpointLsn: u64) returns (count: nat, tail: seq<Record>)
    requires Increasing(records)
    ensures count <= |records| && tail == records[count..]
    ensures forall i | 0 <= i < |records| :: records[i].lsn <= checkpointLsn <==> i < count
  {
    count, tail := 0, [];
    for i := 0 to |records|
      invariant count <= i
      invariant tail == records[count..i]
      invariant forall k | 0 <= k < i :: records[k].lsn <= checkpointLsn <==> k < count
    {
      assert count < i ==> records[count].lsn < records[i].lsn;
      if records[i].lsn <= checkpointLsn {
        count := count + 1;
      } else {
        tail := tail + [records[i]];
      }
    }
  }

  /** The second loop: the index of the last commit, or -1. */
  method LastCommitIndex(tail: seq<Record>) returns (last: int)
    ensures -1 <= last < |tail|
    ensures last >= 0 ==> IsCommit(tail[last])
    ensures forall i | last < i < |tail| :: !IsCommit(tail[i])
  {
    last := -1;
    for i := 0 to |tail|
      invariant -1 <= last < i
      invariant last >= 0 ==> IsCommit(tail[last])
      invariant forall k | last < k < i :: !IsCommit(tail[k])
    {
      if IsCommit(tail[i]) {
        last := i;
      }
    }
  }

  /** At most one plan fits a log and a checkpoint. */
  lemma PlanUnique(read: ReadResult, checkpoint: Option<u64>, p: Plan, q: Plan)
    requires PlanFits(read, checkpoint, p) && PlanFits(read, checkpoint, q)
    ensures p == q
  {
    var rs := read.records;
    var n, m := p.checkpointedCount, q.checkpointedCount;
    assert n < |rs| ==> (rs[n].lsn <= p.checkpointLsn <==> n < m);
    assert m < |rs| ==> (rs[m].lsn <= p.checkpointLsn <==> m < n);
    assert n == m;
    assert rs[n..] == p.replay + p.pending;
    assert rs[n..] == q.replay + q.pending;
    SplitUnique(p.replay, p.pending, q.replay, q.pending);
  }

  lemma SplitUnique(a: seq<Record>, b: seq<Record>, a': seq<Record>, b': seq<Record>)
    requires a + b == a' + b'
    requires a != [] ==> IsCommit(a[|a| - 1])
    requires a' != [] ==> IsCommit(a'[|a'| - 1])
    requires forall r | r in b :: !IsCommit(r)
    requires forall r | r in b' :: !IsCommit(r)
    ensures a == a' && b == b'
  {
    var s := a + b;
    assert forall k | |a| <= k < |s| :: s[k] == b[k - |a|] && !IsCommit(s[k]);
    assert forall k | |a'| <= k < |s| :: s[k] == b'[k - |a'|] && !IsCommit(s[k]);
    assert a != [] ==> s[|a| - 1] == a[|a| - 1];
    assert a' != [] ==> s[|a'| - 1] == a'[|a'| - 1];
    assert |a| == |a'|;
    assert a == s[..|a|] && a' == s[..|a'|];
    assert b == s[|a|..] && b' == s[|a'|..];
  }

  /** A plan with nothing to replay and nothing pending has its checkpoint at the
      end of the log. */
  lemma CleanPlan(read: ReadResult, checkpoint: Option<u64>, p: Plan)
    requires PlanFits(read, checkpoint, p)
    requires p.checkpointLsn <= p.lastLsn
    requires p.replay == [] && p.pending == []
    ensures p.checkpointLsn == p.lastLsn
  {
    var rs := read.records;
    if rs != [] {
      assert |rs| == p.checkpointedCount;
      assert rs[|rs| - 1].lsn <= p.checkpointLsn;
    }
  }
}
