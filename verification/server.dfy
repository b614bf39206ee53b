/** The relay as a state machine over the history log: requests are served one
    after another, each meeting the outcomes of its own external calls. */
module Server {
  import opened Wrappers
  import opened History
  import opened Handlers

  datatype Request =
    | ChatRequest(question: string)
    | HistoryRequest
    | ClearRequest
    | OcrRequest(image: Option<Upload>)

  /** Everything outside the process one request can meet: the model call, the
      OCR engine, the log read and write, and the clock. */
  datatype World = World(call: ModelCall, recognized: Option<string>,
                         readOk: bool, writeOk: bool, time: string)

  /** One request together with the world it is served in. */
  datatype Exchange = Exchange(req: Request, world: World)

  /** A chat request served in a world where every external call it makes succeeds. */
  predicate ChatSucceeds(e: Exchange) {
    e.req.ChatRequest? && e.world.call.ModelReplied? && e.world.readOk && e.world.writeOk
  }

  /** The record a successful chat appends. */
  function ChatRecord(e: Exchange): Record
    requires ChatSucceeds(e)
  {
    Record(e.req.question, ChatAnswer(e.world.call.content), e.world.time)
  }

  /** Routes one request to its handler. Only a chat can add to the log, and
      only by one record at the end; only a clear can empty it. */
  function Step(log: LogFile, e: Exchange): (s: Served)
    ensures e.req.OcrRequest? || e.req.HistoryRequest? ==> s.log == log
    ensures e.req.ChatRequest? && s.log != log ==>
      && log.Stored? && ChatSucceeds(e)
      && s.log == Stored(log.records + [ChatRecord(e)])
      && s.response == Answer(ChatRecord(e).answer)
    ensures e.req.ClearRequest? && s.log != log ==> s.log == Stored([])
  {
    var w := e.world;
    match e.req
    case ChatRequest(q) =>
      var s := Chat(log, q, w.call, w.readOk, w.writeOk, w.time);
      assert s.log != log ==> s.log.records == log.records + [ChatRecord(e)];
      s
    case HistoryRequest => Served(GetHistory(log, w.readOk), log)
    case ClearRequest => ClearHistory(log, w.writeOk)
    case OcrRequest(image) => Served(Ocr(image, w.recognized, w.call), log)
  }

  /** The replies to a sequence of requests and the log they leave. */
  datatype Session = Session(responses: seq<Response>, log: LogFile)

  /** Serves `trace` in order, starting from `log`. */
  function Run(log: LogFile, trace: seq<Exchange>): (r: Session)
    ensures |r.responses| == |trace|
    decreases |trace|
  {
    if trace == [] then Session([], log)
    else
      var s := Step(log, trace[0]);
      var rest := Run(s.log, trace[1..]);
      Session([s.response] + rest.responses, rest.log)
  }

  /** Without a clear, the log only grows at its end: records once written stay
      where they are, and each request adds at most one. */
  lemma {:induction false} RecordsStayWithoutClear(log: LogFile, trace: seq<Exchange>)
    requires log.Stored?
    requires forall i :: 0 <= i < |trace| ==> !trace[i].req.ClearRequest?
    ensures Run(log, trace).log.Stored?
    ensures log.records <= Run(log, trace).log.records
    ensures |Run(log, trace).log.records| <= |log.records| + |trace|
    decreases |trace|
  {
    if trace != [] {
      var s := Step(log, trace[0]);
      RecordsStayWithoutClear(s.log, trace[1..]);
    }
  }

  /** The records a run of successful chats appends, one per chat, in order. */
  function ChatRecords(trace: seq<Exchange>): (rs: seq<Record>)
    requires forall i :: 0 <= i < |trace| ==> ChatSucceeds(trace[i])
    ensures |rs| == |trace|
    decreases |trace|
  {
    if trace == [] then [] else [ChatRecord(trace[0])] + ChatRecords(trace[1..])
  }

  /** The `i`-th appended record is the record of the `i`-th chat. */
  lemma {:induction false} ChatRecordsAt(trace: seq<Exchange>, i: nat)
    requires forall k :: 0 <= k < |trace| ==> ChatSucceeds(trace[k])
    requires i < |trace|
    ensures ChatRecords(trace)[i] == ChatRecord(trace[i])
    decreases i
  {
    if i > 0 {
      ChatRecordsAt(trace[1..], i - 1);
      assert trace[1..][i - 1] == trace[i];
    }
  }

  lemma AppendAssoc(a: seq<Record>, b: seq<Record>, c: seq<Record>)
    ensures (a + b) + c == a + (b + c)
  {
  }

  /** Chats whose calls all succeed, served one after another, append their
      records to the log in order. */
  lemma {:induction false} SuccessfulChatsAppendInOrder(log: LogFile, trace: seq<Exchange>)
    requires log.Stored?
    requires forall i :: 0 <= i < |trace| ==> ChatSucceeds(trace[i])
    ensures Run(log, trace).log == Stored(log.records + ChatRecords(trace))
    decreases |trace|
  {
    if trace != [] {
      var rec := ChatRecord(trace[0]);
      var next := Stored(log.records + [rec]);
      assert Step(log, trace[0]).log == next by { ChatStep(log, trace[0]); }
      SuccessfulChatsAppendInOrder(next, trace[1..]);
      AppendAssoc(log.records, [rec], ChatRecords(trace[1..]));
    }
  }

  /** A chat whose calls all succeed appends its record to a readable log. */
  lemma ChatStep(log: LogFile, e: Exchange)
    requires log.Stored? && ChatSucceeds(e)
    ensures Step(log, e) == Served(Answer(ChatRecord(e).answer), Stored(log.records + [ChatRecord(e)]))
  {
  }

  /** In the same run, each chat's reply is the answer its record stores. */
  lemma {:induction false} SuccessfulChatsReplyStored(log: LogFile, trace: seq<Exchange>)
    requires log.Stored?
    requires forall i :: 0 <= i < |trace| ==> ChatSucceeds(trace[i])
    ensures forall i :: 0 <= i < |trace| ==>
      Run(log, trace).responses[i] == Answer(ChatRecord(trace[i]).answer)
    decreases |trace|
  {
    if trace != [] {
      var s := Step(log, trace[0]);
      var rest := Run(s.log, trace[1..]);
      assert s.log.Stored?;
      assert Run(log, trace).responses == [s.response] + rest.responses;
      SuccessfulChatsReplyStored(s.log, trace[1..]);
      forall i | 0 < i < |trace|
        ensures Run(log, trace).responses[i] == Answer(ChatRecord(trace[i]).answer)
      {
        assert trace[1..][i - 1] == trace[i];
      }
    }
  }

  /** Reading the history after a run of successful chats yields the old records
      followed by one record per chat, in the order served. */
  lemma HistoryAfterChats(log: LogFile, trace: seq<Exchange>, w: World)
    requires log.Stored? && w.readOk
    requires forall i :: 0 <= i < |trace| ==> ChatSucceeds(trace[i])
    ensures Step(Run(log, trace).log, Exchange(HistoryRequest, w)).response
         == Records(log.records + ChatRecords(trace))
  {
    SuccessfulChatsAppendInOrder(log, trace);
  }

  /** OCR and history reads, in any number, leave the log exactly as it was. */
  lemma {:induction false} ReadOnlyRequestsKeepLog(log: LogFile, trace: seq<Exchange>)
    requires forall i :: 0 <= i < |trace| ==> trace[i].req.OcrRequest? || trace[i].req.HistoryRequest?
    ensures Run(log, trace).log == log
    decreases |trace|
  {
    if trace != [] {
      ReadOnlyRequestsKeepLog(log, trace[1..]);
    }
  }

  /** A successful clear followed by a successful read yields no records. */
  lemma ClearThenRead(log: LogFile, clear: World, read: World)
    requires clear.writeOk && read.readOk
    ensures var c := Step(log, Exchange(ClearRequest, clear));
      Step(c.log, Exchange(HistoryRequest, read)).response == Records([])
  {
  }

  /** From the first start-up, with no file yet, the history reads as empty. */
  lemma FirstStartReadsEmpty(w: World)
    requires w.readOk
    ensures Step(Startup(Absent), Exchange(HistoryRequest, w)).response == Records([])
  {
  }
}
