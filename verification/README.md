# ai-pdf-qa-agent in Dafny

A Dafny model of the question-answering core of ai-pdf-qa-agent. This is a small
Python tool. It extracts the text of a PDF, answers a list of questions about it,
collects the answers in a dict, and posts that dict to a Slack channel.

The model covers two files:

- **src/question_answering.py**
  - `clean_text`: newlines become spaces, asterisks are deleted, and whitespace runs collapse to one space.
  - `exact_match`: the trimmed text after the first occurrence of the question, up to the next period.
  - `get_answer`: a truthy exact match first, otherwise the remote answerer.
  - The retry loop of `get_answer_from_openai`: at most three attempts, a quota error stops at once, any other failure sleeps and retries, and a completion is stripped and cleaned.
- **src/main.py**, `main(pdf_path, questions)`:
  - It strips quotes from the path, checks that the file exists, rejects an empty question list and extracts the text.
  - It answers every question into an insertion-ordered dict, then posts the serialised dict in a code fence.
  - It returns the dict, or `None` from whichever `except` clause catches the error.

Modules, one per concern:

| module | file | what it holds |
|---|---|---|
| `Wrappers` | wrappers.dfy | `Option` |
| `PyStr` | pystr.dfy | the Python `str` builtins the code relies on: `isspace`, `in`, `find`, `strip()` and `strip('"')` |
| `TextClean` | textclean.dfy | `clean_text`, `split()` and `' '.join` |
| `Remote` | remote.dfy | the retry loop, run over a sequence of abstract call outcomes |
| `Matching` | matching.dfy | `exact_match` and `get_answer` |
| `OrderedDict` | ordereddict.dfy | the Python `dict` that `main` fills: insertion order, and overwriting a key in place |
| `Orchestrator` | orchestrator.dfy | `main` |

How the effects of `main` are modelled:

- The existence test, the PDF extractor, the answerer, the JSON serialiser and the Slack notifier are function parameters.
- The run records every call it makes to them, in order.
- The answerer is the function `main` calls directly, `get_answer_from_openai`. `main` never calls `get_answer`.
- The answerer is given the index of the call. This lets a stateful remote service answer a repeated question differently, so "the last answer wins" is a statement about something.
- The remote chat-completion service is a sequence of outcomes. `outcomes[i]` is what attempt `i + 1` receives: a completion's content, or an exception's message.

## Model

| member | source | states |
|---|---|---|
| `PyStr.Find` | src/question_answering.py:80 | `s.find(sub, start)` is the lowest index at or after `start` where `sub` occurs, or -1 exactly when `sub` occurs nowhere from `start` on |
| `PyStr.InIffOccurs` | src/question_answering.py:78 | `question in context` holds exactly when the question occurs at some index; the empty string is in every string |
| `PyStr.StripBy` | src/question_answering.py:81 | `strip` returns a contiguous slice of its input; every character cut away at either end is a stripped character, and neither end of the result is one |
| `PyStr.StripByUnique` | src/main.py:36 | any slice with only strippable characters around it and unstrippable ends is the result of `strip`, so the result is determined by that property alone |
| `PyStr.StripByIdempotent` | src/question_answering.py:60 | stripping twice gives what stripping once gives |
| `PyStr.StripByChars` | src/question_answering.py:81 | every character of the stripped text occurs in the original |
| `PyStr.StripByNonEmpty` | src/question_answering.py:81 | a string holding one unstrippable character does not strip to the empty string |
| `TextClean.ReplaceChar` | src/question_answering.py:35 | `replace('\n', ' ')` keeps the length and puts a space exactly where the input has a newline, keeping every other character in place; so no newline is left, and a string without one is unchanged |
| `TextClean.RemoveChar` | src/question_answering.py:37 | `replace('*', '')` leaves no asterisk and keeps every other character as many times as the input has it; a string without an asterisk is unchanged |
| `TextClean.RemoveCharAppend` | src/question_answering.py:37 | deleting asterisks from a concatenation deletes them from each part, so the kept characters stay in their input order |
| `TextClean.Split` | src/question_answering.py:39 | `split()` yields non-empty, whitespace-free words built only from characters of the input |
| `TextClean.SplitSegments` | src/question_answering.py:39 | the input is exactly the words of `split()`, in order, with only whitespace before, between and after them, and at least one whitespace character between two words |
| `TextClean.SegmentsUnique` | src/question_answering.py:39 | any reading of a string as words separated by whitespace is its `split()`; with `SplitSegments` this determines `split()` on every input |
| `TextClean.Join` | src/question_answering.py:39 | `' '.join(ws)` of whitespace-free non-empty words reads back as exactly those words, in order, separated by whitespace |
| `TextClean.SplitJoin` | src/question_answering.py:39 | splitting undoes joining: `' '.join(ws).split() == ws` for whitespace-free non-empty words |
| `TextClean.JoinSplit` | src/question_answering.py:39 | joining undoes splitting on text of normal shape (single spaces only, none at the ends) |
| `TextClean.CleanText` | src/question_answering.py:30-40 | the cleaned text has no newline and no asterisk, has normal shape, and has the same words as the input once newlines become spaces and asterisks are deleted |
| `TextClean.CleanTextCharacterized` | src/question_answering.py:30-40 | `clean_text(s)` is the one string of normal shape whose words are those of `s` after newline replacement and asterisk removal |
| `TextClean.CleanTextFixedPoint` | src/question_answering.py:30-40 | text of normal shape without asterisks is left unchanged by cleaning |
| `TextClean.CleanTextIdempotent` | src/question_answering.py:30-40 | cleaning is idempotent |
| `Remote.Finish` | src/question_answering.py:60-62 | a completion's answer is its content stripped and cleaned; the "Data Not Available" test maps that sentinel to itself, so it changes nothing |
| `Remote.AttemptFrom` | src/question_answering.py:49-72 | from a given attempt on, the loop stops within the three attempts; every attempt before the last was a transient failure followed by one sleep; the last attempt decides the exit |
| `Remote.IsQuota` | src/question_answering.py:64 | an error counts as a quota error exactly when `insufficient_quota` occurs somewhere in its message |
| `Remote.RemoteAnswer` | src/question_answering.py:42-72 | the function makes one to three attempts and sleeps once fewer than it attempts. Every attempt but the last was a transient failure, and the last one decides the answer. The answer is always clean text |
| `Remote.RemoteAnswerForms` | src/question_answering.py:60-72 | the answer is the quota sentinel, the give-up sentinel, or the cleaned content of one of the three outcomes |
| `Remote.FirstCompletionWins` | src/question_answering.py:49-62 | a completion after only transient failures is returned cleaned, after exactly that many attempts, with one sleep fewer |
| `Remote.QuotaIsTerminal` | src/question_answering.py:63-66 | an error mentioning `insufficient_quota`, on any attempt after only transient failures, returns the quota sentinel at once without a further sleep |
| `Remote.ThreeTransientFailures` | src/question_answering.py:67-72 | three transient failures give the give-up sentinel after three attempts and two sleeps |
| `Remote.SleepsCountTransientFailures` | src/question_answering.py:67-69 | the number of sleeps equals the number of transient failures on attempts that are not the last possible one |
| `Remote.TotalDelay` | src/question_answering.py:47-69 | at five seconds per sleep the call waits at most ten seconds in all, and not at all exactly when the first attempt ends the loop |
| `Remote.NoFurtherAttempts` | src/question_answering.py:49-72 | outcomes after the attempt that ends the loop are never consulted: any two outcome sequences agreeing on the attempts made give the same run |
| `Remote.CompletionExample` | tests/test_main.py:21-28 | a first completion reading "Shruti Gupta" comes back unchanged after one attempt and no sleep |
| `Remote.AlreadyClean` | src/question_answering.py:60-61 | content already trimmed, of normal shape and without asterisks passes through stripping and cleaning unchanged |
| `Matching.SentenceEndFrom` | src/question_answering.py:80 | `context.find('.', start)` with the -1 case read as the end of the text: the first period at or after `start`, or the end when there is none |
| `Matching.ExactMatch` | src/question_answering.py:74-82 | `None` exactly when the question occurs nowhere in the context; otherwise a string with no period and no whitespace at either end |
| `Matching.SentenceFrom` | src/question_answering.py:80-81 | the text from the end of the question up to the next period, trimmed, has no period and no whitespace at either end |
| `Matching.ExactMatchFirstSentence` | src/question_answering.py:78-81 | given where the question first occurs and where the next period (or the end) is, the match is exactly the trimmed text between them |
| `Matching.EmptyQuestionMatches` | src/question_answering.py:78-81 | the empty question is in every context and matches the context's first sentence, trimmed |
| `Matching.Truthy` | src/question_answering.py:89 | the exact match counts as found unless it is `None` or the empty string, as in Python's truthiness |
| `Matching.GetAnswer` | src/question_answering.py:84-91 | the remote service is consulted exactly when the exact match is falsy (`None` or empty); without it the exact match is the answer, with it the retry loop's answer is |
| `Matching.GetAnswerLocal` | src/question_answering.py:88-90 | when the text after the question's first occurrence, up to the next period, holds a non-whitespace character, that text trimmed is the answer and no remote attempt is made |
| `Matching.GetAnswerRemote` | src/question_answering.py:88-91 | when the exact match is falsy, the answer is the retry loop's, after at least one remote attempt |
| `OrderedDict.Insert` | src/main.py:52 | after `results[question] = answer` the question maps to the answer and every other key keeps its value |
| `OrderedDict.InsertKeys` | src/main.py:52 | assigning a present key keeps the key order; assigning a new key appends it |
| `OrderedDict.FromPairs` | src/main.py:49-52 | after the loop, a string is a key of the results exactly when it is one of the questions |
| `OrderedDict.FromPairsKeys` | src/main.py:49-52 | the results' keys are the distinct questions, in the order of their first occurrence |
| `OrderedDict.FromPairsLastWins` | src/main.py:49-52 | a question maps to the answer given at its last occurrence in the list |
| `OrderedDict.FromPairsValue` | src/main.py:49-52 | every value in the results is an answer given to that very question |
| `Orchestrator.Main` | src/main.py:28-81 | the first call is always the existence test on the quote-stripped path; results are returned only when that file exists and the question list is non-empty |
| `Orchestrator.Checked` | src/main.py:39-46 | a missing file ends in the `FileNotFoundError` clause, and an empty question list with an existing file in the `ValueError` clause; each follows the existence test and nothing else |
| `Orchestrator.MainMissingFile` | src/main.py:39-40 | a missing file returns `None` after the existence test alone, whatever the questions are: that test comes before the empty-list test |
| `Orchestrator.MainNoQuestions` | src/main.py:42-43 | an empty question list returns `None` before the extractor or the answerer is called |
| `Orchestrator.MainExtractionFails` | src/main.py:46-81 | an extractor that raises ends the run in the clause matching its exception, after the existence test and the one extractor call, before any question is answered |
| `Orchestrator.MainAnswers` | src/main.py:46-52 | once the text is extracted, the run continues with the answering stage on that text |
| `Orchestrator.StageCallsLayout` | src/main.py:46-59 | a run that reaches the notifier makes the existence test, then the extractor call with the path, then one answerer call per question in list order, always with the one extracted text, then the notifier call |
| `Orchestrator.StageCallsOrder` | src/main.py:46-59 | in such a run the extractor and the notifier are each called exactly once: no later call is an extractor call, and no earlier call a notifier call |
| `Orchestrator.SlackMessage` | src/main.py:59 | the posted message is the `Results:` line and an opening code fence, then the serialised results unchanged, then the closing fence; the results can be read back from between the fences |
| `Orchestrator.Answering` | src/main.py:48-72 | the answering stage makes the stage calls with the message built from the results; it returns the results exactly when the notifier call (the last call) returns, and otherwise ends in the clause of the notifier's exception; returned results have the questions as keys in first-occurrence order |
| `Orchestrator.AnsweringResults` | src/main.py:49-72 | the results dict has the distinct questions as keys in first-occurrence order, and each maps to the answer at its last occurrence. A non-question is absent. The dict is returned when the notifier returns, and the run ends in an `except` clause when it raises |
| `Orchestrator.AnsweringResultsClean` | src/main.py:49-52 | when every answer is clean text, as the retry loop's answers are, every value of the results is clean text |
| `Orchestrator.AnsweringIgnoresDeliveryStatus` | src/main.py:62-72 | the notifier's `ok` flag is only logged: a delivered message that is not `ok` gives the same run as one that is |
| `Orchestrator.MainWorkflowExample` | tests/test_main.py:37-52 | when a file named dummy.pdf exists, the unit test's workflow returns exactly `{"Sample question": "Sample answer"}`, after one extractor call with the path, one answerer call and one notifier call |
| `Orchestrator.MainWorkflowWithoutFile` | tests/test_main.py:37-52 | when no file named dummy.pdf exists, the same workflow returns `None` after the existence test alone, so the expected dict is not returned and the extractor is never called |
| `Orchestrator.QuotedPathExample` | src/main.py:36 | surrounding double quotes are removed from a pasted path, however many there are at each end |

## Left out

- `load_config`, the YAML file, `load_dotenv` and the OpenAI and Slack client set-up are configuration I/O. A `load_config` failure at src/main.py:32 would raise out of `main`, because that line is outside the `try`. The model starts inside the `try`.
- The prompt, the model name and `max_tokens` only shape the remote request. The outcome of each call is a parameter, so the question and the context do not influence it.
- A completion whose message content is `None` makes `.strip()` raise `AttributeError`. The loop then treats it as a transient failure. The model's `Ok` always carries a string, so such a response is to be supplied as an `Err` outcome.
- Logging, `print`, and the clock. Sleeps are counted; `TotalDelay` converts the count to seconds with `RetryDelaySeconds`, but when each sleep happens is not timed.
- `json.dumps(results, indent=2)` is an abstract serialiser parameter. `os.getenv("SLACK_CHANNEL")` is the `channel` parameter.
- `os.path.exists`, `extract_text_from_pdf` (src/pdf_processor.py) and `post_to_slack` (src/slack_notifier.py) are parameters. An exception they raise is represented by the `except` clause it lands in. `post_to_slack` re-raises `SlackApiError`, which lands in the catch-all clause.
- The answerer inside `main` is assumed never to raise, as `get_answer_from_openai` catches every exception of its own calls.
- `Orchestrator.AnsweringResultsClean`: it takes the cleanliness of each answer as a requirement, which `Remote.RemoteAnswer` establishes for the retry loop. It is not proved about one composed function, because the answerer's outcome streams are per call and left abstract.
- The interactive `__main__` block (src/main.py:83-103) reads paths and questions from standard input and is not modelled.
- `Remote.RemoteAnswer`: requires at least three outcomes, one per possible attempt. Fewer would only mean the service was never asked, and `NoFurtherAttempts` shows that outcomes after the last attempt do not matter.
- `Remote.SleepsCountTransientFailures`: states the count of sleeps, not when they happen relative to the attempts. `AttemptFrom` fixes the order: one sleep after each retried failure.
- `Orchestrator.MainWorkflowExample`: requires that a file named dummy.pdf exists. test_main_workflow does not patch `os.path.exists`, so it holds only in a checkout that has such a file; `MainWorkflowWithoutFile` covers the other case (see Findings).
- Python `str` is a sequence of code points and Dafny's `char` is a Unicode scalar value. Lone surrogates, which Python strings can hold, are not modelled.

## Findings

| source | as written | input that shows it | evidently intended | confidence | as-written member | corrected member |
|---|---|---|---|---|---|---|
| tests/test_main.py:37-52 | `test_main_workflow` patches the extractor, the answerer and `post_to_slack`, but not `os.path.exists`, so `main` checks the real file system for dummy.pdf (src/main.py:39-40) | a working directory without a file named dummy.pdf: `main` returns `None`, so the `assertEqual` at line 49 fails | `os.path.exists` patched to return true (or a dummy.pdf fixture), so that the run reaches the extractor | not executed | `Orchestrator.MainWorkflowWithoutFile` | `Orchestrator.MainWorkflowExample` |
