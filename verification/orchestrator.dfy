/** `main(pdf_path, questions)` from src/main.py. The file-existence test, the PDF
    extractor, the answerer, the JSON serialiser and the chat notifier are
    parameters; the run records every call made to them, in order. */
module Orchestrator {
  import opened Wrappers
  import opened PyStr
  import opened OrderedDict
  import opened TextClean

  /** The `except` clause an exception lands in: `FileNotFoundError`, `ValueError`,
      or the catch-all `Exception`. */
  datatype Handler = NotFound | InvalidInput | Unexpected

  /** What the extractor does: return the document's text or raise. */
  datatype Extraction = Extracted(text: string) | ExtractRaised(handler: Handler)

  /** What the notifier does: return a response (truthy with `ok` set, or not) or
      raise. */
  datatype Delivery = Delivered(ok: bool) | DeliveryRaised(handler: Handler)

  /** A call `main` makes to a collaborator. */
  datatype Call =
    | CheckExists(path: string)
    | Extract(path: string)
    | Answer(question: string, context: string)
    | Notify(channel: Option<string>, message: string)

  /** How `main` ends: returning the results, or in an `except` clause, where it
      falls off the end and returns `None`. */
  datatype Ending = Returned(results: Dict) | Caught(handler: Handler)

  datatype MainRun = MainRun(ending: Ending, calls: seq<Call>)

  /** The Python return value. */
  function ReturnValue(run: MainRun): Option<Dict> {
    if run.ending.Returned? then Some(run.ending.results) else None
  }

  const MessageHead := "Results:\n```"
  const Fence := "```"

  /** The message posted to the chat channel: a "Results:" line, then the serialised
      results inside a code fence. */
  function SlackMessage(json: string): (m: string)
    ensures |m| == |MessageHead| + |json| + |Fence|
    ensures m[..|MessageHead|] == MessageHead
    ensures m[|MessageHead|..|m| - |Fence|] == json
    ensures m[|m| - |Fence|..] == Fence
  {
    MessageHead + json + Fence
  }

  /** The answers, `answerer(k, questions[k], context)` for the `k`-th call; the
      call index lets a stateful remote service answer a repeated question
      differently. */
  function Answers(questions: seq<string>, context: string, answerer: (nat, string, string) -> string): (answers: seq<string>)
    ensures |answers| == |questions|
  {
    seq(|questions|, k requires 0 <= k < |questions| => answerer(k, questions[k], context))
  }

  /** The answerer calls of the question loop, one per question, in order. */
  function AnswerCalls(questions: seq<string>, context: string): (cs: seq<Call>)
    ensures |cs| == |questions|
    ensures forall k :: 0 <= k < |cs| ==> cs[k] == Answer(questions[k], context)
  {
    if |questions| == 0 then []
    else [Answer(questions[0], context)] + AnswerCalls(questions[1..], context)
  }

  /** The calls made by a run that gets as far as the notifier. */
  function StageCalls(path: string, questions: seq<string>, context: string, channel: Option<string>, message: string): seq<Call> {
    [CheckExists(path), Extract(path)] + AnswerCalls(questions, context) + [Notify(channel, message)]
  }

  /** `main(pdf_path, questions)`. Quotes are stripped from the path before anything
      else, and the run goes on with the stripped path. */
  function Main(
    pdfPath: string,
    questions: seq<string>,
    pathExists: string -> bool,
    extract: string -> Extraction,
    answerer: (nat, string, string) -> string,
    serialize: Dict -> string,
    channel: Option<string>,
    notify: (Option<string>, string) -> Delivery
  ): (run: MainRun)
    ensures |run.calls| >= 1 && run.calls[0] == CheckExists(StripQuotes(pdfPath))
    ensures run.ending.Returned? ==> |questions| > 0 && pathExists(StripQuotes(pdfPath))
  {
    Checked(StripQuotes(pdfPath), questions, pathExists, extract, answerer, serialize, channel, notify)
  }

  /** The body of the `try` block from the existence test on, for the stripped
      `path`: the existence test comes first, then the empty-list test, then the
      extractor; results are returned only when the run gets past every stage. */
  function Checked(
    path: string,
    questions: seq<string>,
    pathExists: string -> bool,
    extract: string -> Extraction,
    answerer: (nat, string, string) -> string,
    serialize: Dict -> string,
    channel: Option<string>,
    notify: (Option<string>, string) -> Delivery
  ): (run: MainRun)
    ensures |run.calls| >= 1 && run.calls[0] == CheckExists(path)
    ensures run.ending.Returned? ==> |questions| > 0 && pathExists(path)
    ensures !pathExists(path) ==> run == MainRun(Caught(NotFound), [CheckExists(path)])
    ensures pathExists(path) && |questions| == 0 ==> run == MainRun(Caught(InvalidInput), [CheckExists(path)])
  {
    if !pathExists(path) then MainRun(Caught(NotFound), [CheckExists(path)])
    else if |questions| == 0 then MainRun(Caught(InvalidInput), [CheckExists(path)])
    else
      match extract(path)
      case ExtractRaised(handler) => MainRun(Caught(handler), [CheckExists(path), Extract(path)])
      case Extracted(context) => Answering(path, questions, context, answerer, serialize, channel, notify)
  }

  /** Lines 48-72 once the text is extracted: answer every question in order into the
      results dict, post the message, and return the results unless the notifier
      raises. */
  function Answering(
    path: string,
    questions: seq<string>,
    context: string,
    answerer: (nat, string, string) -> string,
    serialize: Dict -> string,
    channel: Option<string>,
    notify: (Option<string>, string) -> Delivery
  ): (run: MainRun)
    ensures run.calls == StageCalls(path, questions, context, channel,
                                    SlackMessage(serialize(FromPairs(questions, Answers(questions, context, answerer)))))
    ensures run.ending.Returned? <==> notify(channel, run.calls[|run.calls| - 1].message).Delivered?
    ensures run.ending.Caught? ==> run.ending == Caught(notify(channel, run.calls[|run.calls| - 1].message).handler)
    ensures run.ending.Returned? ==> InFirstOccurrenceOrder(Keys(run.ending.results), questions)
  {
    var results := FromPairs(questions, Answers(questions, context, answerer));
    FromPairsKeys(questions, Answers(questions, context, answerer));
    var message := SlackMessage(serialize(results));
    var calls := StageCalls(path, questions, context, channel, message);
    match notify(channel, message)
    case DeliveryRaised(handler) => MainRun(Caught(handler), calls)
    case Delivered(_) => MainRun(Returned(results), calls)
  }

  /** A path that does not exist (once quotes are stripped) ends the run in the
      `FileNotFoundError` clause after the existence test alone, whatever the
      questions are: this test comes before the empty-list test. */
  lemma MainMissingFile(
    pdfPath: string, questions: seq<string>, pathExists: string -> bool,
    extract: string -> Extraction, answerer: (nat, string, string) -> string,
    serialize: Dict -> string, channel: Option<string>, notify: (Option<string>, string) -> Delivery,
    run: MainRun)
    requires run == Main(pdfPath, questions, pathExists, extract, answerer, serialize, channel, notify)
    requires !pathExists(StripQuotes(pdfPath))
    ensures run == MainRun(Caught(NotFound), [CheckExists(StripQuotes(pdfPath))])
    ensures ReturnValue(run) == None
  {
  }

  /** An empty question list, with an existing file, ends the run in the
      `ValueError` clause; neither the extractor nor the answerer is called. */
  lemma MainNoQuestions(
    pdfPath: string, pathExists: string -> bool,
    extract: string -> Extraction, answerer: (nat, string, string) -> string,
    serialize: Dict -> string, channel: Option<string>, notify: (Option<string>, string) -> Delivery,
    run: MainRun)
    requires run == Main(pdfPath, [], pathExists, extract, answerer, serialize, channel, notify)
    requires pathExists(StripQuotes(pdfPath))
    ensures run == MainRun(Caught(InvalidInput), [CheckExists(StripQuotes(pdfPath))])
    ensures ReturnValue(run) == None
  {
  }

  /** An extractor that raises ends the run in the clause matching its exception,
      before any question is answered. */
  lemma MainExtractionFails(
    pdfPath: string, questions: seq<string>, pathExists: string -> bool,
    extract: string -> Extraction, answerer: (nat, string, string) -> string,
    serialize: Dict -> string, channel: Option<string>, notify: (Option<string>, string) -> Delivery,
    run: MainRun)
    requires run == Main(pdfPath, questions, pathExists, extract, answerer, serialize, channel, notify)
    requires pathExists(StripQuotes(pdfPath)) && |questions| > 0
    requires extract(StripQuotes(pdfPath)).ExtractRaised?
    ensures run.ending == Caught(extract(StripQuotes(pdfPath)).handler)
    ensures run.calls == [CheckExists(StripQuotes(pdfPath)), Extract(StripQuotes(pdfPath))]
  {
  }

  /** Once the text is extracted, `main` goes on with the answering stage. */
  lemma MainAnswers(
    pdfPath: string, questions: seq<string>, pathExists: string -> bool,
    extract: string -> Extraction, answerer: (nat, string, string) -> string,
    serialize: Dict -> string, channel: Option<string>, notify: (Option<string>, string) -> Delivery)
    requires pathExists(StripQuotes(pdfPath)) && |questions| > 0
    requires extract(StripQuotes(pdfPath)).Extracted?
    ensures Main(pdfPath, questions, pathExists, extract, answerer, serialize, channel, notify)
            == Answering(StripQuotes(pdfPath), questions, extract(StripQuotes(pdfPath)).text,
                         answerer, serialize, channel, notify)
  {
  }

  /** In a run that reaches the notifier, the extractor and the notifier are each
      called exactly once: the extractor second, the notifier last. */
  lemma StageCallsOrder(path: string, questions: seq<string>, context: string, channel: Option<string>, message: string)
    ensures var calls := StageCalls(path, questions, context, channel, message);
            && (forall i :: 0 <= i < |calls| && calls[i].Extract? ==> i == 1)
            && (forall i :: 0 <= i < |calls| && calls[i].Notify? ==> i == |calls| - 1)
  {
    var calls := StageCalls(path, questions, context, channel, message);
    StageCallsLayout(path, questions, context, channel, message);
    forall i | 0 <= i < |calls|
      ensures calls[i].Extract? ==> i == 1
      ensures calls[i].Notify? ==> i == |calls| - 1
    {
      if 2 <= i < |calls| - 1 {
        assert calls[(i - 2) + 2] == Answer(questions[i - 2], context);
      }
    }
  }

  /** The calls of a run that reaches the notifier: the existence test, the
      extractor with the path, the answerer once per question in list order and
      always with the one context, and the notifier last. This holds whether the
      notifier raises or not. */
  lemma StageCallsLayout(path: string, questions: seq<string>, context: string, channel: Option<string>, message: string)
    ensures var calls := StageCalls(path, questions, context, channel, message);
            && |calls| == |questions| + 3
            && calls[0] == CheckExists(path)
            && calls[1] == Extract(path)
            && (forall k :: 0 <= k < |questions| ==> calls[k + 2] == Answer(questions[k], context))
            && calls[|calls| - 1] == Notify(channel, message)
  {
    var calls := StageCalls(path, questions, context, channel, message);
    var middle := AnswerCalls(questions, context);
    assert forall k :: 0 <= k < |questions| ==> calls[k + 2] == middle[k];
  }

  /** The dict the answering stage builds has the distinct questions as keys, in
      order of first occurrence, each mapped to the answer given at its last
      occurrence; on success it is what `main` returns. */
  lemma AnsweringResults(
    path: string, questions: seq<string>, context: string,
    answerer: (nat, string, string) -> string, serialize: Dict -> string,
    channel: Option<string>, notify: (Option<string>, string) -> Delivery,
    results: Dict)
    requires results == FromPairs(questions, Answers(questions, context, answerer))
    ensures InFirstOccurrenceOrder(Keys(results), questions)
    ensures forall j :: 0 <= j < |questions| && (forall j' :: j < j' < |questions| ==> questions[j'] != questions[j])
              ==> Lookup(results, questions[j]) == Some(answerer(j, questions[j], context))
    ensures forall q :: q !in questions ==> Lookup(results, q) == None
    ensures notify(channel, SlackMessage(serialize(results))).Delivered? ==>
              Answering(path, questions, context, answerer, serialize, channel, notify).ending == Returned(results)
    ensures notify(channel, SlackMessage(serialize(results))).DeliveryRaised? ==>
              Answering(path, questions, context, answerer, serialize, channel, notify).ending.Caught?
  {
    var answers := Answers(questions, context, answerer);
    FromPairsKeys(questions, answers);
    forall j | 0 <= j < |questions| && (forall j' :: j < j' < |questions| ==> questions[j'] != questions[j])
      ensures Lookup(results, questions[j]) == Some(answerer(j, questions[j], context))
    {
      FromPairsLastWins(questions, answers, j);
    }
  }

  /** When every answer the answerer gives is clean text (of normal shape and free
      of asterisks), as the retry loop's answers are, so is every value of the
      results. */
  lemma AnsweringResultsClean(
    questions: seq<string>, context: string,
    answerer: (nat, string, string) -> string, results: Dict, q: string)
    requires results == FromPairs(questions, Answers(questions, context, answerer))
    requires forall k :: 0 <= k < |questions| ==>
               Normal(answerer(k, questions[k], context)) && '*' !in answerer(k, questions[k], context)
    requires Lookup(results, q).Some?
    ensures Normal(Lookup(results, q).value) && '*' !in Lookup(results, q).value
  {
    var answers := Answers(questions, context, answerer);
    FromPairsValue(questions, answers, q);
    var j :| 0 <= j < |questions| && questions[j] == q && Lookup(results, q).value == answers[j];
    assert answers[j] == answerer(j, questions[j], context);
  }

  /** The notifier's response is only logged: a delivered message that is not `ok`
      returns the same results as one that is. */
  lemma AnsweringIgnoresDeliveryStatus(
    path: string, questions: seq<string>, context: string,
    answerer: (nat, string, string) -> string, serialize: Dict -> string,
    channel: Option<string>, notify: (Option<string>, string) -> Delivery,
    notify': (Option<string>, string) -> Delivery)
    requires forall c, m :: notify(c, m).Delivered? && notify'(c, m).Delivered?
    ensures Answering(path, questions, context, answerer, serialize, channel, notify)
            == Answering(path, questions, context, answerer, serialize, channel, notify')
  {
  }

  /** The unit test's workflow: "dummy.pdf", one question, an answerer that says
      "Sample answer" and a notifier answering `ok` return exactly
      `{"Sample question": "Sample answer"}`, after one extractor call with the path,
      one answerer call and one notifier call. */
  lemma MainWorkflowExample(
    pathExists: string -> bool, extract: string -> Extraction,
    answerer: (nat, string, string) -> string, serialize: Dict -> string,
    channel: Option<string>, notify: (Option<string>, string) -> Delivery,
    run: MainRun)
    requires run == Main("dummy.pdf", ["Sample question"], pathExists, extract, answerer, serialize, channel, notify)
    requires pathExists("dummy.pdf")
    requires extract("dummy.pdf") == Extracted("Sample PDF content")
    requires answerer(0, "Sample question", "Sample PDF content") == "Sample answer"
    requires forall c, m :: notify(c, m) == Delivered(true)
    ensures ReturnValue(run) == Some([("Sample question", "Sample answer")])
    ensures run.calls == [CheckExists("dummy.pdf"), Extract("dummy.pdf"),
                          Answer("Sample question", "Sample PDF content"),
                          Notify(channel, SlackMessage(serialize([("Sample question", "Sample answer")])))]
  {
    DummyPathUnquoted();
    var questions := ["Sample question"];
    var answers := Answers(questions, "Sample PDF content", answerer);
    assert answers == ["Sample answer"];
    assert FromPairs(questions, answers) == [("Sample question", "Sample answer")];
    assert AnswerCalls(questions, "Sample PDF content") == [Answer("Sample question", "Sample PDF content")];
  }

  /** The same workflow as the unit test sets it up, where `os.path.exists` is left
      unpatched: without a file named dummy.pdf in the working directory the run
      stops at the existence test and returns `None`, so none of the extractor,
      answerer or notifier is called and the expected dict is not returned. */
  lemma MainWorkflowWithoutFile(
    pathExists: string -> bool, extract: string -> Extraction,
    answerer: (nat, string, string) -> string, serialize: Dict -> string,
    channel: Option<string>, notify: (Option<string>, string) -> Delivery,
    run: MainRun)
    requires run == Main("dummy.pdf", ["Sample question"], pathExists, extract, answerer, serialize, channel, notify)
    requires !pathExists("dummy.pdf")
    requires extract("dummy.pdf") == Extracted("Sample PDF content")
    requires answerer(0, "Sample question", "Sample PDF content") == "Sample answer"
    requires forall c, m :: notify(c, m) == Delivered(true)
    ensures ReturnValue(run) == None
    ensures ReturnValue(run) != Some([("Sample question", "Sample answer")])
    ensures run.calls == [CheckExists("dummy.pdf")]
  {
    DummyPathUnquoted();
  }

  lemma DummyPathUnquoted()
    ensures StripQuotes("dummy.pdf") == "dummy.pdf"
  {
    var path := "dummy.pdf";
    assert path[0] != '"' && path[|path| - 1] != '"';
    StripByNoop(path, c => c == '"');
  }

  /** Surrounding quotes, as a pasted path carries them, are removed before the
      existence test. */
  lemma QuotedPathExample()
    ensures StripQuotes("\"\"report.pdf\"") == "report.pdf"
  {
    var s := "\"\"report.pdf\"";
    var r := "report.pdf";
    assert s[2..12] == r;
    assert CutAt(s, c => c == '"', 2, r);
    StripByUnique(s, c => c == '"', 2, r);
  }
}
