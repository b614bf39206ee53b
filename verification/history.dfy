/** The history log: a JSON file holding one array of question/answer records,
    read and rewritten whole by the request handlers. */
module History {
  import opened Wrappers

  /** One persisted chat exchange. `time` is the ISO-8601 stamp the server takes
      when it stores the record; the model receives it as an opaque string. */
  datatype Record = Record(question: string, answer: string, time: string)

  /** The history file as a handler finds it. */
  datatype LogFile =
    | Absent                        // never created
    | Stored(records: seq<Record>)  // a JSON array of records, oldest first
    | Unreadable                    // present, but not a readable record array

  /** Process start: an absent log is created empty; any other file is left as it is. */
  function Startup(f: LogFile): (g: LogFile)
    ensures !g.Absent?
    ensures f.Absent? ==> g == Stored([])
    ensures !f.Absent? ==> g == f
  {
    if f.Absent? then Stored([]) else f
  }

  /** Reading the whole log: its records, or `None` when the read fails, either
      because the medium fails (`readOk` false) or because the file holds no
      readable record array. */
  function ReadLog(f: LogFile, readOk: bool): (r: Option<seq<Record>>)
    ensures r.Some? <==> readOk && f.Stored?
    ensures r.Some? ==> r.value == f.records
  {
    if readOk && f.Stored? then Some(f.records) else None
  }

  /** Rewriting the whole log with `records`; a failed write leaves the file as it was. */
  function WriteLog(f: LogFile, records: seq<Record>, writeOk: bool): (g: LogFile)
    ensures writeOk ==> ReadLog(g, true) == Some(records)
    ensures !writeOk ==> g == f
  {
    if writeOk then Stored(records) else f
  }

  /** After startup, reading never finds the file missing: a fresh log reads as
      the empty sequence. */
  lemma StartupReadsEmpty(f: LogFile)
    requires f.Absent?
    ensures ReadLog(Startup(f), true) == Some([])
    ensures ReadLog(f, true).None?
  {
  }
}
