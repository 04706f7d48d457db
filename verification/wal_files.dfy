/**
 The log directory: flushed records live in segment files of 1000 records, named after the first
 LSN they may hold.
 */
module WalFiles {
  import opened Types
  import opened Codec
  import opened WalCodec
  import opened LogShape

  const MAX_RECORDS_PER_LOGFILE: nat := 1000

  function SegmentOf(lsn: nat): nat
    requires lsn > 0
  {
    ((lsn - 1) / MAX_RECORDS_PER_LOGFILE) * MAX_RECORDS_PER_LOGFILE + 1
  }

  // The records that belong in the file whose first LSN is first.
  function Segment(log: Log, first: nat): Log {
    if first == 0 || |log| < first then []
    else if |log| < first + MAX_RECORDS_PER_LOGFILE then log[first - 1..]
    else log[first - 1..first - 1 + MAX_RECORDS_PER_LOGFILE]
  }

  ghost predicate IsSegment(first: nat) {
    first % MAX_RECORDS_PER_LOGFILE == 1
  }

  // The directory holds exactly the records of log, each in its segment.
  ghost predicate FilesHold(files: map<nat, Bytes>, log: Log) {
    && (forall f: nat :: f in files <==> IsSegment(f) && (f == 1 || f <= |log|))
    && (forall f | f in files :: files[f] == PutEntries(Segment(log, f), []))
  }

  lemma {:induction false} PutEntriesPrefix(rs: seq<WalRecord>, a: Bytes, b: Bytes)
    ensures PutEntries(rs, a) + b == PutEntries(rs, a + b)
  {
    hide Put, PutRecord;
    if rs != [] {
      PutEntriesPrefix(rs[1..], a, b);
      PutPrefix(|PutRecord(rs[0], [])|, 8, PutRecord(rs[0], PutEntries(rs[1..], a)), b);
      PutRecordPrefix(rs[0], PutEntries(rs[1..], a), b);
    }
  }

  lemma {:induction false} PutEntriesSplit(rs: seq<WalRecord>, r: WalRecord, rest: Bytes)
    ensures PutEntries(rs + [r], rest) == PutEntries(rs, PutEntry(r, rest))
  {
    hide PutEntry;
    if rs == [] {
      assert (rs + [r])[1..] == [];
    } else {
      assert (rs + [r])[1..] == rs[1..] + [r];
      PutEntriesSplit(rs[1..], r, rest);
    }
  }

  lemma PutEntriesAppend(rs: seq<WalRecord>, r: WalRecord)
    ensures PutEntries(rs + [r], []) == PutEntries(rs, []) + PutEntry(r, [])
  {
    hide PutEntry;
    PutEntriesSplit(rs, r, []);
    PutEntriesPrefix(rs, [], PutEntry(r, []));
    assert [] + PutEntry(r, []) == PutEntry(r, []);
  }

  lemma SegmentArithmetic(lsn: nat, f: nat)
    requires lsn > 0
    ensures IsSegment(SegmentOf(lsn)) && SegmentOf(lsn) <= lsn < SegmentOf(lsn) + 1000
    ensures IsSegment(f) && f <= lsn && SegmentOf(lsn) < f ==> false
    ensures IsSegment(f) && f < SegmentOf(lsn) ==> f + 1000 <= SegmentOf(lsn)
  {
  }

  // The next record goes to the end of its own segment and to no other.
  lemma OwnSegment(log: Log, r: WalRecord)
    ensures var f := SegmentOf(|log| + 1);
      Segment(log + [r], f) == Segment(log, f) + [r] && (f > |log| ==> Segment(log, f) == [])
  {
    hide SegmentOf, IsSegment;
    var f := SegmentOf(|log| + 1);
    SegmentArithmetic(|log| + 1, 1);
    if f <= |log| {
      assert (log + [r])[f - 1..] == log[f - 1..] + [r];
    }
  }

  lemma OtherSegment(log: Log, r: WalRecord, g: nat)
    requires IsSegment(g) && g <= |log| + 1 && g != SegmentOf(|log| + 1)
    ensures Segment(log + [r], g) == Segment(log, g)
  {
    hide SegmentOf, IsSegment;
    SegmentArithmetic(|log| + 1, g);
  }

  lemma SegmentNames(n: nat, g: nat)
    requires n > 0
    ensures IsSegment(g) && (g == 1 || g <= n) <==> g == SegmentOf(n) || (IsSegment(g) && (g == 1 || g < n))
  {
  }

  // Appending the next record's entry to its segment file keeps the directory in step.
  lemma FilesAppend(files: map<nat, Bytes>, log: Log, r: WalRecord)
    requires FilesHold(files, log)
    ensures var f := SegmentOf(|log| + 1);
      FilesHold(files[f := (if f in files then files[f] else []) + PutEntry(r, [])], log + [r])
  {
    hide PutEntries, PutEntry, SegmentOf, IsSegment, Segment;
    var f := SegmentOf(|log| + 1);
    PutEntriesAppend(Segment(log, f), r);
    OwnSegment(log, r);
    PutNothing();
    SegmentNames(|log| + 1, f);
    forall g: nat ensures g in files || g == f <==> IsSegment(g) && (g == 1 || g <= |log| + 1) {
      SegmentNames(|log| + 1, g);
    }
    forall g | g in files && g != f ensures Segment(log + [r], g) == Segment(log, g) {
      OtherSegment(log, r, g);
    }
  }

  lemma PutNothing()
    ensures PutEntries([], []) == []
  {
  }

  // Records that survive being written and read back: they fit their fields and hold no bytes
  // that are not written.
  ghost predicate Storable(log: Log) {
    FitsEntries(log) && forall i :: 0 <= i < |log| ==> CanonicalRecord(log[i]) == log[i]
  }

  lemma {:induction false} StoredAsIs(log: Log)
    requires Storable(log)
    ensures CanonicalRecords(log) == log
  {
    hide CanonicalRecord, FitsRecord, PutRecord;
    if log != [] {
      assert log == [log[0]] + log[1..];
      StoredAsIs(log[1..]);
    }
  }

  lemma SegmentReads(log: Log, first: nat, junk: nat -> Byte)
    requires Storable(log)
    ensures GetEntries(PutEntries(Segment(log, first), []), junk) == Records(Segment(log, first))
  {
    hide CanonicalRecord, FitsRecord, PutRecord, PutEntries, CanonicalRecords;
    var segment := Segment(log, first);
    assert forall i | 0 <= i < |segment| :: segment[i] == log[first - 1 + i];
    GetPutEntries(segment, [], junk);
    StoredAsIs(segment);
    assert segment + [] == segment;
  }

  lemma SegmentStep(f: nat, read: nat)
    ensures IsSegment(1000 * read + 1)
    ensures IsSegment(f) && f > 1000 * read && f != 1000 * read + 1 ==> f > 1000 * (read + 1)
  {
  }

  function Pending(files: map<nat, Bytes>, read: nat): set<nat> {
    set f | f in files && f > 1000 * read
  }

  lemma AllPending(files: map<nat, Bytes>, log: Log)
    requires FilesHold(files, log)
    ensures Pending(files, 0) == files.Keys && FirstSegments(log, 0) == []
  {
    hide PutEntries, Segment, IsSegment;
    forall f | f in files ensures f > 0 {
      SegmentPositive(f);
    }
  }

  lemma SegmentPositive(f: nat)
    requires IsSegment(f)
    ensures f > 0
  {
  }

  // The segment files not yet read, lowest first, are consecutive.
  lemma NextSegment(files: map<nat, Bytes>, log: Log, read: nat, pending: set<nat>)
    requires FilesHold(files, log) && pending == Pending(files, read)
    ensures pending != {} ==> 1000 * read + 1 in pending && 1000 * read + 1 in files
    ensures forall f :: f in pending ==> 1000 * read + 1 <= f
    ensures pending != {} ==> pending - {1000 * read + 1} == Pending(files, read + 1)
    ensures pending == {} ==> FirstSegments(log, read) == log
  {
    hide IsSegment, PutEntries, Segment;
    var next := 1000 * read + 1;
    SegmentStep(next, read);
    forall f | f in pending && f != next ensures f > 1000 * (read + 1) {
      SegmentStep(f, read);
    }
    if pending != {} {
      var f :| f in pending;
      assert next in files;
    } else {
      assert next !in pending;
    }
  }

  // The part of the log held by the first n segments.
  function FirstSegments(log: Log, n: nat): Log {
    if 1000 * n <= |log| then log[..1000 * n] else log
  }

  lemma LastNumber(log: Log)
    requires Numbered(log) && log != []
    ensures log[|log| - 1].lsn == |log|
  {
  }

  lemma SegmentNext(log: Log, read: nat)
    requires Numbered(log)
    ensures var segment := Segment(log, 1000 * read + 1);
      && FirstSegments(log, read + 1) == FirstSegments(log, read) + segment
      && (forall i :: 0 <= i < |segment| ==> segment[i].lsn == |FirstSegments(log, read)| + 1 + i)
  {
    var segment := Segment(log, 1000 * read + 1);
    forall i | 0 <= i < |segment| ensures segment[i].lsn == |FirstSegments(log, read)| + 1 + i {
      assert segment[i] == log[1000 * read + i];
    }
  }
}
