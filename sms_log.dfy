// The JSON log of sent and received messages: appending one record to the file, and showing
// the last records of it.

module SmsLog {

  /** Placeholder for a time that is not known. */
  const NotApplicable := "N/A"
  /** Placeholder for a sender or a send time that is not known. */
  const Unknown := "unknown"

  /** One logged message, with the six fields every record of the log carries. */
  datatype Record = Record(
    kind: string,
    sender: string,
    receiver: string,
    content: string,
    sentTime: string,
    receivedTime: string)

  /** The log file as the program finds it: missing, present but not valid JSON, or a list of
      records. */
  datatype LogFile = Absent | Malformed | Stored(records: seq<Record>)

  /** The records the program reads back before appending: none when the file is missing or
      malformed. */
  function Prior(f: LogFile): seq<Record> {
    if f.Stored? then f.records else []
  }

  /** The log file after one record is appended to it. */
  function Appended(f: LogFile, d: Record): LogFile {
    Stored(Prior(f) + [d])
  }

  /** The log file after the records `ds` are appended to it one by one, in order. */
  function AppendAll(f: LogFile, ds: seq<Record>): LogFile {
    if ds == [] then f else Appended(AppendAll(f, ds[..|ds| - 1]), ds[|ds| - 1])
  }

  /** Appending one record after others is appending them all. */
  lemma AppendAllSnoc(f: LogFile, ds: seq<Record>, d: Record)
    ensures AppendAll(f, ds + [d]) == Appended(AppendAll(f, ds), d)
  {
    assert (ds + [d])[..|ds|] == ds;
  }

  /** Appending a single record. */
  lemma AppendOne(f: LogFile, d: Record)
    ensures AppendAll(f, [d]) == Appended(f, d)
  {
    assert [d][..0] == [];
  }

  /** Appending at least one record leaves a well-formed log holding the prior records followed
      by the appended ones, in order: nothing already logged is lost or reordered. */
  lemma {:induction false} AppendAllRecords(f: LogFile, ds: seq<Record>)
    requires ds != []
    ensures AppendAll(f, ds) == Stored(Prior(f) + ds)
  {
    var n := |ds| - 1;
    var init := ds[..n];
    assert init + [ds[n]] == ds;
    AppendAllSnoc(f, init, ds[n]);
    if n > 0 {
      AppendAllRecords(f, init);
      assert Prior(f) + init + [ds[n]] == Prior(f) + ds;
    }
  }

  /** The log as a mutable object: the one file every append reads back and rewrites. */
  class JsonLog {
    var file: LogFile

    constructor (initial: LogFile)
      ensures file == initial
    {
      file := initial;
    }

    /** Reads the prior records (none when the file is missing or malformed), appends `d`
        and writes the list back. */
    method Append(d: Record)
      modifies this
      ensures file == Appended(old(file), d)
      ensures file.records == Prior(old(file)) + [d]
    {
      var records: seq<Record> := [];
      if file.Stored? {
        records := file.records;
      }
      records := records + [d];
      file := Stored(records);
    }
  }

  /** Where the slice `records[-count:]` starts in a list of `n` records. */
  function SliceStart(n: nat, count: int): (start: nat)
    ensures start <= n
  {
    if count > 0 then (if count <= n then n - count else 0)
    else if -count <= n then -count
    else n
  }

  /** `records[-count:]`: a suffix of the records. A positive count keeps the last `count`
      records (all of them when there are fewer); a count of zero keeps all of them, as `-0`
      is `0`; a negative count drops the first `-count`. */
  function LastRecords(rs: seq<Record>, count: int): (r: seq<Record>)
    ensures |r| <= |rs| && r == rs[|rs| - |r|..]
    ensures count > 0 ==> |r| == if count < |rs| then count else |rs|
    ensures count == 0 ==> r == rs
    ensures count < 0 ==> |r| == if -count < |rs| then |rs| + count else 0
  {
    rs[SliceStart(|rs|, count)..]
  }

  /** The time the display shows for a record: its send time, unless that is a placeholder, in
      which case its receive time. */
  function DisplayTime(r: Record): (t: string)
    ensures r.sentTime != NotApplicable && r.sentTime != Unknown ==> t == r.sentTime
    ensures r.sentTime == NotApplicable || r.sentTime == Unknown ==> t == r.receivedTime
  {
    if r.sentTime == NotApplicable || r.sentTime == Unknown then r.receivedTime else r.sentTime
  }

  /** What the display prints for one record. */
  datatype Entry = Entry(kind: string, sender: string, receiver: string, content: string, time: string)

  function EntryOf(r: Record): Entry {
    Entry(r.kind, r.sender, r.receiver, r.content, DisplayTime(r))
  }

  /** The outcome of displaying the log: no file, a file that cannot be parsed, or the entries
      shown (none when the slice is empty). */
  datatype Display = NoLogFile | Unreadable | Shown(entries: seq<Entry>)

  /** Displays the last `count` records of the log. */
  function DisplayLastSms(f: LogFile, count: int): (d: Display)
    ensures d.NoLogFile? <==> f.Absent?
    ensures d.Unreadable? <==> f.Malformed?
    ensures f.Stored? ==> d.Shown? && |d.entries| == |LastRecords(f.records, count)|
    ensures f.Stored? ==> forall i :: 0 <= i < |d.entries| ==>
              d.entries[i] == EntryOf(LastRecords(f.records, count)[i])
  {
    match f
    case Absent => NoLogFile
    case Malformed => Unreadable
    case Stored(rs) =>
      var last := LastRecords(rs, count);
      Shown(seq(|last|, i requires 0 <= i < |last| => EntryOf(last[i])))
  }

  /** After records are appended, asking for at most that many shows exactly the last of them,
      in the order they were appended, whatever the log held before. */
  lemma DisplayAfterAppend(f: LogFile, ds: seq<Record>, count: int)
    requires 0 < count <= |ds|
    ensures DisplayLastSms(AppendAll(f, ds), count).Shown?
    ensures |DisplayLastSms(AppendAll(f, ds), count).entries| == count
    ensures forall i :: 0 <= i < count ==>
              DisplayLastSms(AppendAll(f, ds), count).entries[i] == EntryOf(ds[|ds| - count + i])
  {
    AppendAllRecords(f, ds);
    LastOfAppended(Prior(f), ds, count);
  }

  /** The last `count` records of `prior + ds` are the last `count` of `ds`, when `ds` has
      that many. */
  lemma LastOfAppended(prior: seq<Record>, ds: seq<Record>, count: int)
    requires 0 < count <= |ds|
    ensures LastRecords(prior + ds, count) == ds[|ds| - count..]
  {
    var rs := prior + ds;
    assert SliceStart(|rs|, count) == |prior| + |ds| - count;
    assert rs[|prior| + |ds| - count..] == ds[|ds| - count..];
  }
}
