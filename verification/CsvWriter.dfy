/** The buffered evidence writer over a stream whose operations may fail at any time. Whatever fails,
    the file's text is a prefix of the header and the submitted rows in record order, each once; after
    a successful close it is all of them; and the buffer never reaches its capacity.

    `oracle` decides the outcome of each stream operation; `format` makes a measurement and its record
    number the fields of a row. Models src/telemetry/src/telemetry_csv.cpp. */
module CsvWriter {
  import opened Bytes
  import opened CsvText

  const BUFFER_CAPACITY: nat := 256
  const DRAIN_THRESHOLD: nat := 128

  datatype Failure =
    | WriteAfterClose
    | WriteFailed
    | FlushAfterClose
    | FlushFailed
    | CloseFailed
    | SubmittedAfterClose
    | DrainedAfterClose

  /** A failed operation may have let some characters through. */
  datatype StreamOutcome = Succeeds | Fails(after: nat)

  class EvidenceCsvFile {
    const oracle: nat -> StreamOutcome
    var operations: nat
    var text: string
    var failure: Option<Failure>
    var closed: bool

    constructor (oracle: nat -> StreamOutcome, header: string)
      ensures text == header + ['\n'] && failure.None? && !closed
    {
      this.oracle := oracle;
      operations, text, failure, closed := 0, header + ['\n'], None, false;
    }

    /** Once something has failed or the file is closed, nothing more is written. */
    method WriteRow(row: string) returns (ok: bool)
      modifies this
      ensures ok <==> failure.None?
      ensures closed == old(closed)
      ensures ok ==> !closed && text == old(text) + row + ['\n']
      ensures old(text) <= text <= old(text) + row + ['\n']
      ensures old(failure).Some? ==> failure == old(failure) && text == old(text)
      ensures old(closed) ==> !ok && text == old(text)
    {
      if closed {
        if failure.None? {
          failure := Some(WriteAfterClose);
        }
        return false;
      }
      if failure.Some? {
        return false;
      }
      var line := row + ['\n'];
      var outcome := oracle(operations);
      operations := operations + 1;
      assert text + line == text + row + ['\n'];
      if outcome.Fails? {
        text := text + if outcome.after < |line| then line[..outcome.after] else line;
        failure := Some(WriteFailed);
        return false;
      }
      text := text + line;
      ok := true;
    }

    method Flush() returns (ok: bool)
      modifies this
      ensures ok <==> failure.None?
      ensures text == old(text) && closed == old(closed)
      ensures old(failure).Some? ==> failure == old(failure)
      ensures old(closed) ==> !ok
    {
      if closed {
        if failure.None? {
          failure := Some(FlushAfterClose);
        }
        return false;
      }
      if failure.Some? {
        return false;
      }
      var outcome := oracle(operations);
      operations := operations + 1;
      if outcome.Fails? {
        failure := Some(FlushFailed);
        return false;
      }
      ok := true;
    }

    method Close() returns (ok: bool)
      modifies this
      ensures closed && text == old(text)
      ensures ok <==> failure.None?
      ensures old(failure).Some? ==> failure == old(failure)
      ensures old(closed) ==> failure == old(failure)
    {
      if closed {
        return failure.None?;
      }
      var flushed := Flush();
      var outcome := oracle(operations);
      operations := operations + 1;
      if outcome.Fails? && failure.None? {
        failure := Some(CloseFailed);
      }
      closed := true;
      ok := flushed && failure.None?;
    }
  }

  datatype Buffered = Buffered(measurement: seq<string>, record: nat)

  class ReplicationCsvWriter {
    const enabled: bool
    const header: string
    const format: (seq<string>, nat) -> seq<string>
    /** Present only when the writer is enabled. */
    const file: EvidenceCsvFile?
    var buffer: seq<Buffered>
    var failure: seq<Failure>
    var submitted: nat
    var closed: bool
    /** Every row the writer has taken, in record order. */
    ghost var log: seq<seq<string>>

    /** What the file holds when the first `n` rows have been written. */
    ghost function Ideal(n: nat): string
      requires n <= |log|
      reads this`log
    {
      header + ['\n'] + Lines(log[..n])
    }

    ghost predicate Valid()
      reads this, file
    {
      && submitted == |log|
      && |buffer| <= DRAIN_THRESHOLD && |buffer| <= |log|
      && (forall i :: 0 <= i < |buffer| ==>
            && buffer[i].record == |log| - |buffer| + i
            && format(buffer[i].measurement, buffer[i].record) == log[buffer[i].record])
      && (enabled <==> file != null)
      && (!enabled ==> buffer == [] && failure == [])
      && (enabled ==>
            && file.text <= Ideal(|log|)
            && (failure == [] && !closed ==> file.failure.None? && !file.closed && file.text == Ideal(|log| - |buffer|))
            && (failure != [] ==> file.failure.Some? || file.closed)
            && (closed ==> file.closed)
            && (closed && failure == [] ==> file.text == Ideal(|log|)))
    }

    /** Characters are only ever added to the file. */
    twostate predicate Extends()
      reads this, file
    {
      file != null ==> old(file.text) <= file.text
    }

    constructor (enabled: bool, oracle: nat -> StreamOutcome, header: string, format: (seq<string>, nat) -> seq<string>)
      ensures Valid() && log == [] && failure == [] && !closed && (file != null ==> fresh(file))
    {
      this.enabled, this.header, this.format := enabled, header, format;
      if enabled {
        file := new EvidenceCsvFile(oracle, header);
      } else {
        file := null;
      }
      buffer, failure, submitted, closed, log := [], [], 0, false, [];
    }

    method Reject(reason: Failure)
      modifies this`failure
      ensures failure == if old(failure) == [] then [reason] else old(failure)
    {
      if failure == [] {
        failure := [reason];
      }
    }

    method CaptureFileFailure()
      requires file != null && file.failure.Some?
      modifies this`failure
      ensures failure != [] && old(failure) <= failure
    {
      if file.failure.value in failure {
        return;
      }
      failure := failure + [file.failure.value];
    }

    /** Writes the buffered rows and flushes; the buffer is cleared only when all of it got through. */
    method PersistRows() returns (ok: bool)
      requires Valid() && enabled && buffer != [] && !closed
      modifies this`buffer, this`failure, file
      ensures Valid() && ok == (failure == [])
      ensures ok ==> buffer == []
      ensures old(failure) != [] ==> !ok
      ensures Extends() && old(failure) <= failure
      ensures file.closed == old(file.closed)
    {
      hide Lines, RowText;
      ghost var written := |log| - |buffer|;
      var healthy := failure == [];
      for i := 0 to |buffer|
        invariant buffer == old(buffer) && failure == old(failure) && file.closed == old(file.closed)
        invariant healthy ==> file.failure.None? && !file.closed && file.text == Ideal(written + i)
        invariant !healthy ==> i == 0 && file.text == old(file.text) && file.failure == old(file.failure)
        invariant old(file.text) <= file.text
      {
        var entry := buffer[i];
        var row := RowText(format(entry.measurement, entry.record));
        if healthy {
          IdealNext(written + i);
          PrefixOfAll(written + i + 1);
        }
        var wrote := file.WriteRow(row);
        if !wrote {
          CaptureFileFailure();
          return false;
        }
      }
      assert log[..|log|] == log;
      var flushed := file.Flush();
      if !flushed {
        CaptureFileFailure();
        return false;
      }
      buffer := [];
      ok := true;
    }

    lemma IdealNext(n: nat)
      requires n < |log|
      ensures Ideal(n + 1) == Ideal(n) + RowText(log[n]) + ['\n']
    {
      LinesAppend(log[..n], log[n]);
      assert log[..n + 1] == log[..n] + [log[n]];
    }

    lemma PrefixOfAll(n: nat)
      requires n <= |log|
      ensures Ideal(n) <= Ideal(|log|)
    {
      LinesPrefix(log, n);
      assert log[..|log|] == log;
    }

    method Drain() returns (ok: bool)
      requires Valid()
      modifies this`buffer, this`failure, file
      ensures Valid() && ok == (failure == []) && (!enabled ==> ok)
      ensures ok && enabled ==> buffer == [] && !closed
      ensures Extends() && old(failure) <= failure
    {
      if !enabled {
        return true;
      }
      if closed {
        Reject(DrainedAfterClose);
        return false;
      }
      if failure != [] {
        return false;
      }
      if buffer == [] {
        return true;
      }
      ok := PersistRows();
    }

    /** Taken measurements get the next record number; refused ones leave the log alone and the writer
        failed for good. The overflow branch is never reached. */
    method Submit(measurement: seq<string>) returns (ok: bool)
      requires Valid()
      modifies this, file
      ensures Valid() && closed == old(closed)
      ensures !enabled ==> ok && log == old(log)
      ensures enabled && ok ==> log == old(log) + [format(measurement, |old(log)|)] && failure == []
      ensures enabled && !ok ==> log == old(log) && failure != []
      ensures enabled && ok ==> |buffer| == 1 + if |old(buffer)| >= 128 then 0 else |old(buffer)|
      ensures old(failure) <= failure
      ensures Extends()
    {
      hide Lines, RowText;
      if |buffer| >= DRAIN_THRESHOLD {
        var drained := Drain();
        if !drained {
          return false;
        }
      }
      if !enabled {
        return true;
      }
      if closed {
        Reject(SubmittedAfterClose);
        return false;
      }
      if failure != [] {
        return false;
      }
      if |buffer| == BUFFER_CAPACITY {
        assert false;
        return false;
      }
      ghost var row := format(measurement, submitted);
      LinesAppend(log, row);
      assert log[..|log|] == log;
      ghost var before := log;
      buffer := buffer + [Buffered(measurement, submitted)];
      log := log + [row];
      submitted := submitted + 1;
      assert log[..|log|] == log && log[..|log| - |buffer|] == before[..|before| - (|buffer| - 1)];
      ok := true;
    }

    method Close() returns (ok: bool)
      requires Valid()
      modifies this, file
      ensures Valid() && closed && log == old(log)
      ensures ok == (failure == [])
      ensures ok && enabled ==> file.text == Ideal(|log|)
      ensures Extends() && old(failure) <= failure
    {
      if closed {
        return failure == [];
      }
      var success := true;
      if enabled && buffer != [] {
        success := PersistRows();
      }
      if file != null {
        var fileClosed := file.Close();
        if !fileClosed {
          CaptureFileFailure();
          success := false;
        }
      }
      closed := true;
      ok := success && failure == [];
    }
  }

  /** After a successful close the file reads back, behind its header line, as every row taken. */
  lemma ClosedFileReads(log: seq<seq<string>>, header: string, text: string)
    requires text == header + ['\n'] + Lines(log)
    requires forall i :: 0 <= i < |log| ==> log[i] != []
    ensures ReadRecords(text[|header| + 1..]) == Some(log)
  {
    assert text[|header| + 1..] == Lines(log);
    LinesRead(log);
  }

  /** Stopped anywhere, a prefix of whole rows reads back as the first rows in order. */
  lemma WholeRowsRead(log: seq<seq<string>>, n: nat)
    requires n <= |log| && forall i :: 0 <= i < |log| ==> log[i] != []
    ensures Lines(log[..n]) <= Lines(log) && ReadRecords(Lines(log[..n])) == Some(log[..n])
  {
    LinesPrefix(log, n);
    LinesRead(log[..n]);
  }
}
