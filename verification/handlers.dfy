/** The four HTTP handlers of the relay, each a pure function of the request, the
    outcome of every external call it makes, and the history log it finds. Every
    failure is turned into a fixed reply text instead of an error. */
module Handlers {
  import opened Wrappers
  import opened Whitespace
  import opened History

  /** Chat answer used when the model's reply has no content. */
  const NoAnswer := "Sorry, I cannot answer right now."
  /** Chat answer on any failure of the model call or of the history file. */
  const ModelDown := "\U{26A0}\U{FE0F} Local AI not responding. Make sure Ollama is running."
  const HistoryCleared := "History cleared"
  const ClearFailed := "Failed to clear history"
  const NoFile := "No file received"
  /** OCR answer used when the model's reply has no content. */
  const NoResponse := "No response"
  const OcrFailed := "OCR Failed"

  /** What a call to the language model came back with: a transport or service
      failure, or a reply whose `message.content` may be missing. */
  datatype ModelCall = ModelFailed | ModelReplied(content: Option<string>)

  /** An uploaded image; its bytes only reach the OCR engine. */
  datatype Upload = Upload(bytes: seq<bv8>)

  datatype Response =
    | Answer(answer: string)                   // POST /chat
    | Records(records: seq<Record>)            // GET /history
    | Cleared(success: bool, message: string)  // POST /clear-history
    | OcrAnswer(text: string, answer: string)  // POST /ocr

  /** A handler's reply together with the history log it leaves behind. */
  datatype Served = Served(response: Response, log: LogFile)

  /** JavaScript's `content || fallback` on a string that may be missing: the
      empty string is falsy, every other string (white space included) is kept. */
  function OrElse(content: Option<string>, fallback: string): (r: string)
    ensures content.None? || content == Some([]) ==> r == fallback
    ensures content.Some? && content.value != [] ==> r == content.value
  {
    if content.Some? && content.value != [] then content.value else fallback
  }

  /** The chat answer: the reply content, or `NoAnswer` when it is missing or
      empty, then normalised. */
  function ChatAnswer(content: Option<string>): (a: string)
    ensures Normal(a)
    ensures content.None? || content == Some([]) ==> a == NoAnswer
    ensures content.Some? && content.value != [] ==> Words(a) == Words(content.value)
    ensures a == [] <==> content.Some? && content.value != [] && AllWs(content.value)
  {
    var text := OrElse(content, NoAnswer);
    NormalizeKeepsWords(text);
    NormalizeEmptyIff(text);
    NoAnswerIsNormal();
    Normalize(text)
  }

  /** The fallback text is already in normal form, so normalising it changes nothing. */
  lemma NoAnswerIsNormal()
    ensures Normalize(NoAnswer) == NoAnswer
  {
    NoAnswerShape();
    NormalizeFixesIff(NoAnswer);
  }

  /** The fallback text is its six words joined by single spaces, hence normal. */
  lemma NoAnswerShape()
    ensures Normal(NoAnswer)
  {
    var t := NormalFirstWords();
    var t1 := t + " " + "answer";
    NormalAddWord(t, "answer");
    var t2 := t1 + " " + "right";
    NormalAddWord(t1, "right");
    var t3 := t2 + " " + "now.";
    NormalAddWord(t2, "now.");
    assert t3 == NoAnswer;
  }

  lemma NormalFirstWords() returns (t: string)
    ensures t == "Sorry, I cannot" && Normal(t)
  {
    var t0 := "Sorry,";
    WordIsNormal(t0);
    var t1 := t0 + " " + "I";
    NormalAddWord(t0, "I");
    t := t1 + " " + "cannot";
    NormalAddWord(t1, "cannot");
  }

  /** POST /chat. The model is asked first; only when it replies is the log read,
      the new record appended and the whole log written back. A failure at any of
      the three steps yields `ModelDown` and appends nothing. */
  function Chat(log: LogFile, question: string, call: ModelCall,
                readOk: bool, writeOk: bool, time: string): (s: Served)
    ensures s.response.Answer?
    ensures s.log != log <==> call.ModelReplied? && readOk && log.Stored? && writeOk
    ensures s.log != log ==>
      && call.ModelReplied?
      && s.response.answer == ChatAnswer(call.content)
      && s.log.Stored? && log.Stored?
      && |s.log.records| == |log.records| + 1
      && s.log.records[..|log.records|] == log.records
      && s.log.records[|log.records|] == Record(question, s.response.answer, time)
    ensures s.log == log ==> s.response.answer == ModelDown
  {
    match call
    case ModelFailed => Served(Answer(ModelDown), log)
    case ModelReplied(content) =>
      var answer := ChatAnswer(content);
      match ReadLog(log, readOk)
      case None => Served(Answer(ModelDown), log)
      case Some(records) =>
        if !writeOk then Served(Answer(ModelDown), log)
        else Served(Answer(answer), WriteLog(log, records + [Record(question, answer, time)], writeOk))
  }

  /** GET /history: the stored records in order, or none when the read fails. */
  function GetHistory(log: LogFile, readOk: bool): (r: Response)
    ensures r.Records?
    ensures ReadLog(log, readOk).Some? ==> r.records == log.records
    ensures ReadLog(log, readOk).None? ==> r.records == []
  {
    Records(ReadLog(log, readOk).GetOr([]))
  }

  /** POST /clear-history: overwrite the log with an empty array. The failure is
      reported rather than swallowed. */
  function ClearHistory(log: LogFile, writeOk: bool): (s: Served)
    ensures s.response.Cleared?
    ensures s.response.success <==> writeOk
    ensures writeOk ==> ReadLog(s.log, true) == Some([]) && s.response.message == HistoryCleared
    ensures !writeOk ==> s.log == log && s.response.message == ClearFailed
  {
    if writeOk then Served(Cleared(true, HistoryCleared), WriteLog(log, [], writeOk))
    else Served(Cleared(false, ClearFailed), log)
  }

  /** Clearing is idempotent: clearing a cleared log gives the same log and the
      same reply, and an already empty log stays empty. */
  lemma ClearIdempotent(log: LogFile)
    ensures ClearHistory(ClearHistory(log, true).log, true) == ClearHistory(log, true)
    ensures ClearHistory(Stored([]), true).log == Stored([])
  {
  }

  /** POST /ocr. Without an upload nothing is called. Otherwise the recognised
      text (`None` when recognition fails) is sent to the model and its reply is
      returned unnormalised. The log is not an input: this handler never touches it. */
  function Ocr(image: Option<Upload>, recognized: Option<string>, call: ModelCall): (r: Response)
    ensures r.OcrAnswer?
    ensures image.None? ==> r == OcrAnswer([], NoFile)
    ensures image.Some? && (recognized.None? || call.ModelFailed?) ==> r == OcrAnswer([], OcrFailed)
    ensures image.Some? && recognized.Some? && call.ModelReplied? ==>
      && r.text == recognized.value
      && (call.content.None? || call.content == Some([]) ==> r.answer == NoResponse)
      && (call.content.Some? && call.content.value != [] ==> r.answer == call.content.value)
  {
    if image.None? then OcrAnswer([], NoFile)
    else match recognized
      case None => OcrAnswer([], OcrFailed)
      case Some(text) =>
        match call
        case ModelFailed => OcrAnswer([], OcrFailed)
        case ModelReplied(content) => OcrAnswer(text, OrElse(content, NoResponse))
  }
}
