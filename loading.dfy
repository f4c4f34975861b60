/**
 * The record-building loop of load_dataset: every entry of the dataset's
 * top-level JSON object becomes a (date, year, text) record or is counted as
 * skipped.
 */
module Loading {
  import opened Wrappers
  import Text
  import Dates

  /**
   * One key/value pair of the dataset, in the object's order: the date key and
   * the entry's "transcript" field, None when the field is absent or null.
   */
  datatype Entry = Entry(key: string, transcript: Option<string>)

  /** One row of the DataFrame load_dataset returns. */
  datatype Record = Record(date: string, year: int, text: string)

  /** The records kept and the number of entries skipped. */
  datatype Loaded = Loaded(records: seq<Record>, skipped: nat)

  /**
   * Building the summary of an empty record list fails: a DataFrame made from
   * no records has no "year" column.
   */
  datatype LoadError = NoUsableEntries

  /**
   * What the loop body makes of one entry: None when the entry is skipped for
   * an empty transcript or a key strptime rejects, else its record.
   */
  function BuildRecord(e: Entry): (r: Option<Record>)
    ensures r.Some? <==> e.transcript.Some? && !Text.AllSpace(e.transcript.value) && Dates.ParseDate(e.key).Some?
    ensures r.Some? ==>
      && r.value.date == e.key
      && r.value.text == Text.Strip(e.transcript.value)
      && r.value.text != []
      && !Text.IsSpace(r.value.text[0]) && !Text.IsSpace(r.value.text[|r.value.text| - 1])
      && Dates.HasYearDigits(e.key) && r.value.year == Dates.YearComponent(e.key)
  {
    if e.transcript.None? || Text.Strip(e.transcript.value) == [] then None
    else
      match Dates.ParseDate(e.key)
      case None => None
      case Some(d) => Some(Record(e.key, d.year, Text.Strip(e.transcript.value)))
  }

  function AsSeq<T>(o: Option<T>): (s: seq<T>)
  {
    match o
    case None => []
    case Some(x) => [x]
  }

  /** The records the loop appends, in input order. */
  function KeptRecords(entries: seq<Entry>): seq<Record>
  {
    if entries == [] then []
    else KeptRecords(entries[..|entries| - 1]) + AsSeq(BuildRecord(entries[|entries| - 1]))
  }

  /** The positions of the entries that are kept, in increasing order. */
  function KeptPositions(entries: seq<Entry>): seq<nat>
  {
    if entries == [] then []
    else
      var n := |entries| - 1;
      KeptPositions(entries[..n]) + if BuildRecord(entries[n]).Some? then [n] else []
  }

  /** There is one kept position per kept record, and the positions increase. */
  lemma {:induction false} KeptPositionsIncrease(entries: seq<Entry>)
    ensures |KeptPositions(entries)| == |KeptRecords(entries)|
    ensures forall j :: 0 <= j < |KeptPositions(entries)| ==> KeptPositions(entries)[j] < |entries|
    ensures forall j, k :: 0 <= j < k < |KeptPositions(entries)| ==> KeptPositions(entries)[j] < KeptPositions(entries)[k]
  {
    if entries != [] {
      var n := |entries| - 1;
      var prefix := entries[..n];
      KeptPositionsIncrease(prefix);
      var positions := KeptPositions(prefix);
      var tail: seq<nat> := if BuildRecord(entries[n]).Some? then [n] else [];
      assert KeptPositions(entries) == positions + tail;
      assert KeptRecords(entries) == KeptRecords(prefix) + AsSeq(BuildRecord(entries[n]));
      assert |tail| == |AsSeq(BuildRecord(entries[n]))|;
      assert forall j :: 0 <= j < |positions| ==> positions[j] < n;
    }
  }

  /** The j-th kept record is the record of the entry at the j-th kept position. */
  lemma {:induction false} KeptRecordsAtPositions(entries: seq<Entry>)
    ensures |KeptPositions(entries)| == |KeptRecords(entries)|
    ensures forall j :: 0 <= j < |KeptPositions(entries)| ==>
      KeptPositions(entries)[j] < |entries| && BuildRecord(entries[KeptPositions(entries)[j]]) == Some(KeptRecords(entries)[j])
  {
    KeptPositionsIncrease(entries);
    if entries != [] {
      var n := |entries| - 1;
      var prefix := entries[..n];
      KeptRecordsAtPositions(prefix);
      var positions, records := KeptPositions(prefix), KeptRecords(prefix);
      forall j | 0 <= j < |positions|
        ensures BuildRecord(entries[positions[j]]) == Some(records[j])
      {
        assert entries[positions[j]] == prefix[positions[j]];
      }
    }
  }

  /** An entry is kept exactly when BuildRecord accepts it. */
  lemma {:induction false} KeptPositionsExact(entries: seq<Entry>)
    ensures forall i :: 0 <= i < |entries| ==> (BuildRecord(entries[i]).Some? <==> i in KeptPositions(entries))
  {
    if entries != [] {
      var n := |entries| - 1;
      var prefix := entries[..n];
      KeptPositionsExact(prefix);
      KeptPositionsIncrease(prefix);
      var positions := KeptPositions(prefix);
      var tail: seq<nat> := if BuildRecord(entries[n]).Some? then [n] else [];
      var all := KeptPositions(entries);
      assert all == positions + tail;
      forall i | 0 <= i < |entries|
        ensures BuildRecord(entries[i]).Some? <==> i in KeptPositions(entries)
      {
        if i < n {
          assert entries[i] == prefix[i];
          assert i !in tail;
          assert BuildRecord(prefix[i]).Some? <==> i in positions;
        } else {
          assert i == n;
          assert forall j :: 0 <= j < |positions| ==> positions[j] < n;
          assert n !in positions;
          assert BuildRecord(entries[n]).Some? <==> n in tail;
        }
      }
    }
  }

  /**
   * The kept records are the records of the kept entries, one for one and in
   * the same order, and an entry is kept exactly when BuildRecord accepts it.
   */
  lemma KeptRecordsFollowInput(entries: seq<Entry>)
    ensures |KeptPositions(entries)| == |KeptRecords(entries)|
    ensures forall j, k :: 0 <= j < k < |KeptPositions(entries)| ==> KeptPositions(entries)[j] < KeptPositions(entries)[k]
    ensures forall j :: 0 <= j < |KeptPositions(entries)| ==>
      KeptPositions(entries)[j] < |entries| && BuildRecord(entries[KeptPositions(entries)[j]]) == Some(KeptRecords(entries)[j])
    ensures forall i :: 0 <= i < |entries| ==> (BuildRecord(entries[i]).Some? <==> i in KeptPositions(entries))
  {
    KeptPositionsIncrease(entries);
    KeptRecordsAtPositions(entries);
    KeptPositionsExact(entries);
  }

  /**
   * Every kept record carries its entry's key as date, a valid calendar date
   * whose year is the year written in the key, and the stripped transcript as
   * its text, which is non-empty with no whitespace at either end.
   */
  lemma {:induction false} KeptRecordsWellFormed(entries: seq<Entry>)
    ensures forall j :: 0 <= j < |KeptRecords(entries)| ==>
      var r := KeptRecords(entries)[j];
      && Dates.ParseDate(r.date).Some?
      && Dates.HasYearDigits(r.date) && r.year == Dates.YearComponent(r.date)
      && r.text != [] && !Text.IsSpace(r.text[0]) && !Text.IsSpace(r.text[|r.text| - 1])
      && exists i :: 0 <= i < |entries| && entries[i].key == r.date && entries[i].transcript.Some? && Text.Strip(entries[i].transcript.value) == r.text
  {
    KeptRecordsFollowInput(entries);
  }

  /**
   * The loop of load_dataset. Every entry is either appended as a record or
   * counted as skipped, never both; an empty result is the error that building
   * the DataFrame summary raises.
   */
  method LoadDataset(entries: seq<Entry>) returns (result: Result<Loaded, LoadError>)
    ensures result.Success? <==> KeptRecords(entries) != []
    ensures result.Success? ==> result.value.records == KeptRecords(entries)
    ensures result.Success? ==> result.value.skipped + |result.value.records| == |entries|
  {
    var records: seq<Record> := [];
    var skipped: nat := 0;
    var i := 0;
    while i < |entries|
      invariant 0 <= i <= |entries|
      invariant records == KeptRecords(entries[..i])
      invariant skipped + |records| == i
    {
      var entry := entries[i];
      assert entries[..i + 1][..i] == entries[..i];
      assert KeptRecords(entries[..i + 1]) == records + AsSeq(BuildRecord(entry));
      if entry.transcript.None? || Text.Strip(entry.transcript.value) == [] {
        assert BuildRecord(entry) == None;
        skipped := skipped + 1;
      } else {
        var parsed := Dates.ParseDate(entry.key);
        if parsed.None? {
          assert BuildRecord(entry) == None;
          skipped := skipped + 1;
        } else {
          var record := Record(entry.key, parsed.value.year, Text.Strip(entry.transcript.value));
          assert BuildRecord(entry) == Some(record);
          records := records + [record];
        }
      }
      i := i + 1;
    }
    assert entries[..i] == entries;
    if records == [] {
      return Failure(NoUsableEntries);
    }
    return Success(Loaded(records, skipped));
  }
}
