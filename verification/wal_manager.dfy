/**
 The file-backed WAL manager: records get consecutive LSNs in memory, flushing appends them to the
 segment files, and opening a directory reads them all back.
 */
module WalManager {
  import opened Types
  import opened Codec
  import opened WalCodec
  import opened LogShape
  import opened MemoryStreams
  import opened WalSerializer
  import opened WalFiles

  // The log directory; it outlives the managers opened on it.
  class WalDirectory {
    var files: map<nat, Bytes>

    constructor ()
      ensures files == map[]
    {
      files := map[];
    }
  }

  lemma BeforeAllOne(logs: Log, r: WalRecord, more: LogFile)
    ensures BeforeAll(logs, BeforeAll([r], more)) == BeforeAll(logs + [r], more)
    ensures BeforeAll([], more) == more
    ensures BeforeAll(logs, Records([])) == Records(logs)
  {
    if more.Records? {
      assert logs + ([r] + more.rs) == logs + [r] + more.rs;
      assert [] + more.rs == more.rs;
    }
    assert logs + [] == logs;
  }

  method ReadLogsFromFile(content: Bytes, junk: nat -> Byte) returns (result: LogFile)
    ensures result == GetEntries(content, junk)
  {
    hide GetLoose, GetRecord, BeforeAll;
    var stream := new ReadOnlyMemoryStream(content);
    var logs: seq<WalRecord> := [];
    BeforeAllOne([], WalRecord(0, 0, 0, Begin), GetEntries(content, junk));
    while stream.position < |stream.buffer|
      invariant stream.Valid()
      invariant GetEntries(content, junk) == BeforeAll(logs, GetEntries(stream.Rest(), junk))
      decreases |stream.Rest()|
    {
      ghost var before := stream.Rest();
      BeforeAllOne(logs, WalRecord(0, 0, 0, Begin), Broken);
      var ok, size := stream.ReadLoose(8, junk);
      if !ok || |stream.buffer| - stream.position < size {
        return Records(logs);
      }
      var record;
      ok, record := DeserializeRecord(stream, junk);
      if !ok {
        BrokenStays(logs);
        return Broken;
      }
      EntryStep(before, size, record, stream.Rest(), junk);
      BeforeAllOne(logs, record, GetEntries(stream.Rest(), junk));
      logs := logs + [record];
    }
    BeforeAllOne(logs, WalRecord(0, 0, 0, Begin), Broken);
    NoEntries(junk);
    return Records(logs);
  }

  lemma BrokenStays(logs: Log)
    ensures BeforeAll(logs, Broken) == Broken
  {
  }

  lemma EntryStep(s: Bytes, size: nat, record: WalRecord, rest: Bytes, junk: nat -> Byte)
    requires GetLoose(8, s, junk).Got? && GetLoose(8, s, junk).value == size
    requires size <= |GetLoose(8, s, junk).rest|
    requires GetRecord(GetLoose(8, s, junk).rest, junk) == Got(record, rest)
    ensures GetEntries(s, junk) == BeforeAll([record], GetEntries(rest, junk))
  {
    hide GetLoose, GetRecord;
  }

  method ReadSegment(dir: WalDirectory, first: nat, junk: nat -> Byte, ghost log: Log) returns (rs: Log)
    requires FilesHold(dir.files, log) && Storable(log) && first in dir.files
    ensures rs == Segment(log, first)
  {
    hide Storable, PutEntries, GetEntries, Segment;
    SegmentReads(log, first, junk);
    var content := ReadLogsFromFile(dir.files[first], junk);
    rs := content.rs;
  }

  // next_lsn_ moves past every record read.
  method NextAfter(lsn: nat, rs: Log) returns (next: nat)
    requires forall i :: 0 <= i < |rs| ==> rs[i].lsn == lsn + i
    ensures next == lsn + |rs|
  {
    next := lsn;
    for i := 0 to |rs|
      invariant next == lsn + i
    {
      if rs[i].lsn >= next {
        next := rs[i].lsn + 1;
      }
    }
  }

  lemma EntryBytes(r: WalRecord, content: Bytes)
    ensures content + LittleEndian(|PutRecord(r, [])|, 8) + PutRecord(r, []) == content + PutEntry(r, [])
  {
    hide PutRecord, LittleEndian;
  }

  class FileWalManager {
    const dir: WalDirectory
    var nextLsn: nat
    var flushedLsn: nat
    var flushed: Log
    var dirty: Log

    ghost predicate Valid()
      reads this, dir
    {
      && Numbered(flushed + dirty)
      && nextLsn == |flushed| + |dirty| + 1
      && flushedLsn == |flushed|
      && FilesHold(dir.files, flushed)
    }

    // All records, durable or not.
    ghost function Records(): Log
      reads this
    {
      flushed + dirty
    }

    // A new, empty log.
    constructor Create(dir: WalDirectory)
      requires dir.files == map[]
      modifies dir
      ensures Valid() && this.dir == dir && flushed == [] && dirty == []
    {
      this.dir := dir;
      nextLsn, flushedLsn, flushed, dirty := 1, 0, [], [];
      new;
      dir.files := map[1 := []];
    }

    // Opening the directory that holds log reconstructs log, and nothing else.
    constructor Open(dir: WalDirectory, junk: nat -> Byte, ghost log: Log)
      requires FilesHold(dir.files, log) && Numbered(log) && Storable(log)
      ensures Valid() && this.dir == dir && flushed == log && dirty == []
    {
      hide Storable, FilesHold, FirstSegments, Segment, Pending, Numbered;
      this.dir := dir;
      nextLsn, flushedLsn, flushed, dirty := 1, 0, [], [];
      new;
      AllPending(dir.files, log);
      var pending := dir.files.Keys;
      ghost var read := 0;
      while pending != {}
        invariant pending == Pending(dir.files, read)
        invariant dirty == [] && flushedLsn == 0 && nextLsn == |flushed| + 1
        invariant flushed == FirstSegments(log, read)
        decreases |pending|
      {
        // The files are read in the order of the numbers in their names.
        NextSegment(dir.files, log, read, pending);
        var first :| first in pending && forall f :: f in pending ==> first <= f;
        var rs := ReadSegment(dir, first, junk, log);
        SegmentNext(log, read);
        pending := pending - {first};
        flushed := flushed + rs;
        nextLsn := NextAfter(nextLsn, rs);
        read := read + 1;
      }
      NextSegment(dir.files, log, read, pending);
      if flushed != [] {
        LastNumber(log);
        flushedLsn := flushed[|flushed| - 1].lsn;
      }
      assert flushed + dirty == log;
    }

    // A record is given the next LSN, whatever LSN it carries.
    method AppendLog(record: WalRecord) returns (lsn: nat)
      requires Valid()
      modifies this
      ensures Valid() && lsn == |old(Records())| + 1
      ensures Records() == old(Records()) + [record.(lsn := lsn)]
      ensures flushed == old(flushed)
    {
      lsn := nextLsn;
      nextLsn := nextLsn + 1;
      assert flushed + (dirty + [record.(lsn := lsn)]) == (flushed + dirty) + [record.(lsn := lsn)];
      dirty := dirty + [record.(lsn := lsn)];
    }

    method AppendLogs(records: Log) returns (lastLsn: nat)
      requires Valid()
      modifies this
      ensures Valid() && flushed == old(flushed)
      ensures lastLsn == if records == [] then 0 else |Records()|
      ensures |Records()| == |old(Records())| + |records| && old(Records()) <= Records()
      ensures forall i :: 0 <= i < |records| ==>
                Records()[|old(Records())| + i] == records[i].(lsn := |old(Records())| + i + 1)
    {
      lastLsn := 0;
      for i := 0 to |records|
        invariant Valid() && flushed == old(flushed)
        invariant lastLsn == if i == 0 then 0 else |Records()|
        invariant |Records()| == |old(Records())| + i && old(Records()) <= Records()
        invariant forall j :: 0 <= j < i ==> Records()[|old(Records())| + j] == records[j].(lsn := |old(Records())| + j + 1)
      {
        lastLsn := AppendLog(records[i]);
      }
    }

    // The record with the wanted LSN; None stands for the exception.
    method ReadLog(lsn: nat) returns (result: Option<WalRecord>)
      requires Valid()
      ensures result == if 0 < lsn <= |Records()| then Some(Records()[lsn - 1]) else None
    {
      for i := 0 to |dirty|
        invariant forall j :: 0 <= j < i ==> dirty[j].lsn != lsn
      {
        assert dirty[i] == (flushed + dirty)[|flushed| + i];
        if dirty[i].lsn == lsn {
          return Some(dirty[i]);
        }
      }
      for i := 0 to |flushed|
        invariant forall j :: 0 <= j < i ==> flushed[j].lsn != lsn
      {
        assert flushed[i] == (flushed + dirty)[i];
        if flushed[i].lsn == lsn {
          return Some(flushed[i]);
        }
      }
      assert 0 < lsn <= |flushed| ==> flushed[lsn - 1] == (flushed + dirty)[lsn - 1];
      return None;
    }

    method ReadAllLogs() returns (all: Log)
      ensures all == Records()
    {
      all := flushed + dirty;
    }

    // Each record goes to the end of its segment file; a file is created when first needed.
    method WriteLogs(logs: Log)
      requires FilesHold(dir.files, flushed)
      requires Numbered(flushed + logs)
      modifies dir
      ensures FilesHold(dir.files, flushed + logs)
    {
      hide PutEntry, FilesHold, Segment, PutRecord, LittleEndian;
      var openedFirst := 0;
      assert flushed + logs[..0] == flushed;
      for i := 0 to |logs|
        invariant FilesHold(dir.files, flushed + logs[..i])
        invariant openedFirst > 0 ==> openedFirst in dir.files
      {
        ghost var files := dir.files;
        ghost var log := flushed + logs[..i];
        assert logs[i] == (flushed + logs)[|flushed| + i];
        assert flushed + logs[..i + 1] == log + [logs[i]];
        FilesAppend(dir.files, log, logs[i]);
        var fileFirst := SegmentOf(logs[i].lsn);
        if openedFirst != fileFirst {
          if fileFirst !in dir.files {
            dir.files := dir.files[fileFirst := []];
          }
          openedFirst := fileFirst;
        }
        var serialized := SerializeRecord(logs[i]);
        EntryBytes(logs[i], dir.files[fileFirst]);
        dir.files := dir.files[fileFirst := dir.files[fileFirst] + LittleEndian(|serialized.buffer|, 8) + serialized.buffer];
        assert dir.files == files[fileFirst := (if fileFirst in files then files[fileFirst] else []) + PutEntry(logs[i], [])];
      }
      assert logs[..|logs|] == logs;
    }

    method Flush()
      requires Valid()
      modifies this, dir
      ensures Valid() && Records() == old(Records())
      ensures flushed == old(Records()) && dirty == []
    {
      if dirty == [] {
        assert flushed + dirty == flushed;
        return;
      }
      var toFlush := dirty;
      assert toFlush[|toFlush| - 1] == (flushed + dirty)[|flushed| + |dirty| - 1];
      dirty := [];
      WriteLogs(toFlush);
      var batchMaxLsn := toFlush[|toFlush| - 1].lsn;
      flushed := flushed + toFlush;
      assert flushed + dirty == flushed;
      if batchMaxLsn > flushedLsn {
        flushedLsn := batchMaxLsn;
      }
    }

    // For an appended LSN, at most one flush: none when the record is durable already.
    method WaitForDurable(lsn: nat) returns (ghost flushes: nat)
      requires Valid() && lsn < nextLsn
      modifies this, dir
      ensures Valid() && Records() == old(Records()) && flushedLsn >= lsn
      ensures flushes <= 1
      ensures flushed == if old(flushedLsn) >= lsn then old(flushed) else old(Records())
    {
      flushes := 0;
      while flushedLsn < lsn
        invariant Valid() && Records() == old(Records())
        invariant flushes <= 1 && (flushes == 1 ==> flushedLsn >= lsn && old(flushedLsn) < lsn && flushed == old(Records()))
        invariant flushes == 0 ==> flushed == old(flushed) && flushedLsn == old(flushedLsn)
        decreases nextLsn - flushedLsn
      {
        Flush();
        flushes := flushes + 1;
      }
    }

    method GetNextLsn() returns (lsn: nat)
      requires Valid()
      ensures lsn == |Records()| + 1
    {
      lsn := nextLsn;
    }
  }
}
