/** The retry loop of `get_answer_from_openai` in src/question_answering.py. The
    remote chat-completion call is replaced by the sequence of outcomes the service
    gives to successive calls: `outcomes[i]` is what attempt `i + 1` receives. The
    prompt, the model name and `max_tokens` only shape the request and are not
    modelled; the question and the context therefore do not appear. */
module Remote {
  import opened PyStr
  import opened TextClean

  /** `max_retries`: the number of attempts, not of retries. */
  const MaxRetries: nat := 3
  /** `retry_delay`, the seconds of each sleep between attempts. */
  const RetryDelaySeconds: nat := 5

  const QuotaMarker := "insufficient_quota"
  const QuotaExceeded := "Error: API quota exceeded"
  const Unavailable := "Error: Unable to get answer from OpenAI"
  const NotAvailable := "Data Not Available"

  /** What one API call yields: a completion whose message content is `content`, or
      an exception whose `str(e)` is `message`. */
  datatype Outcome = Ok(content: string) | Err(message: string)

  /** How the loop ends: by returning a completion's content, on a quota error, or
      by giving up after the last attempt. */
  datatype Exit = Completed(content: string) | QuotaError | GaveUp

  /** How the loop ended, after how many attempts and how many sleeps. */
  datatype Loop = Loop(exit: Exit, attempts: nat, sleeps: nat)

  /** The string returned, how many attempts were made and how many times the loop
      slept. */
  datatype AnswerRun = AnswerRun(answer: string, attempts: nat, sleeps: nat)

  /** `"insufficient_quota" in str(e)`: the marker occurs somewhere in the message. */
  predicate IsQuota(message: string): (b: bool)
    ensures b <==> exists i: nat :: OccursAt(message, QuotaMarker, i)
  {
    InIffOccurs(QuotaMarker, message);
    In(QuotaMarker, message)
  }

  /** A failure the loop retries. */
  predicate Transient(o: Outcome) {
    o.Err? && !IsQuota(o.message)
  }

  /** How the attempt that ends the loop ends it: a completion returns its content, a
      quota error returns at once, and any other failure ends the loop only on the
      last attempt. */
  ghost predicate Exits(o: Outcome, exit: Exit, attempts: nat) {
    match o
    case Ok(content) => exit == Completed(content)
    case Err(message) =>
      if IsQuota(message) then exit == QuotaError
      else attempts == MaxRetries && exit == GaveUp
  }

  /** The answer the ending attempt decides: a completion stripped and cleaned, the
      quota sentinel, or the give-up sentinel. */
  ghost predicate Settles(o: Outcome, answer: string, attempts: nat) {
    match o
    case Ok(content) => answer == CleanText(Strip(content))
    case Err(message) =>
      if IsQuota(message) then answer == QuotaExceeded
      else attempts == MaxRetries && answer == Unavailable
  }

  /** Lines 60-62 on a completion: strip, clean, and pass the "Data Not Available"
      sentinel through; that last test maps the sentinel to itself, so the cleaned
      text is what comes back. */
  function Finish(content: string): (answer: string)
    ensures answer == CleanText(Strip(content))
  {
    var cleaned := CleanText(Strip(content));
    if cleaned != NotAvailable then cleaned else NotAvailable
  }

  /** Iteration `attempt` (0-based) of the `for` loop onward, `sleeps` sleeps so far.
      Every attempt before the last one was a transient failure, each followed by one
      sleep, and the last attempt decides how the loop ends. */
  function AttemptFrom(outcomes: seq<Outcome>, attempt: nat, sleeps: nat): (run: Loop)
    requires attempt < MaxRetries <= |outcomes|
    ensures attempt < run.attempts <= MaxRetries
    ensures run.sleeps == sleeps + (run.attempts - 1 - attempt)
    ensures forall j :: attempt <= j < run.attempts - 1 ==> Transient(outcomes[j])
    ensures Exits(outcomes[run.attempts - 1], run.exit, run.attempts)
    decreases MaxRetries - attempt
  {
    match outcomes[attempt]
    case Ok(content) => Loop(Completed(content), attempt + 1, sleeps)
    case Err(message) =>
      if IsQuota(message) then Loop(QuotaError, attempt + 1, sleeps)
      else if attempt < MaxRetries - 1 then AttemptFrom(outcomes, attempt + 1, sleeps + 1)
      else Loop(GaveUp, attempt + 1, sleeps)
  }

  /** `get_answer_from_openai(question, context)`: never raises, makes between one and
      three attempts, sleeps once between consecutive attempts, retries only
      transient failures, and the attempt that ends the loop decides the answer.
      Whatever path the loop takes, the answer is clean text: of normal shape and
      free of asterisks, which by `CleanTextFixedPoint` is what cleaning leaves
      unchanged. */
  function RemoteAnswer(outcomes: seq<Outcome>): (run: AnswerRun)
    requires |outcomes| >= MaxRetries
    ensures 1 <= run.attempts <= MaxRetries
    ensures run.sleeps == run.attempts - 1
    ensures forall j :: 0 <= j < run.attempts - 1 ==> Transient(outcomes[j])
    ensures Settles(outcomes[run.attempts - 1], run.answer, run.attempts)
    ensures Normal(run.answer) && '*' !in run.answer
  {
    SentinelsShaped();
    var loop := AttemptFrom(outcomes, 0, 0);
    var answer := match loop.exit
      case Completed(content) => Finish(content)
      case QuotaError => QuotaExceeded
      case GaveUp => Unavailable;
    AnswerRun(answer, loop.attempts, loop.sleeps)
  }

  /** The loop waits `retry_delay` seconds per sleep: at most ten seconds in all,
      and not at all when the first attempt ends the loop. */
  lemma TotalDelay(outcomes: seq<Outcome>)
    requires |outcomes| >= MaxRetries
    ensures var run := RemoteAnswer(outcomes);
            && run.sleeps * RetryDelaySeconds <= (MaxRetries - 1) * RetryDelaySeconds
            && (run.sleeps * RetryDelaySeconds == 0 <==> !Transient(outcomes[0]))
  {
  }

  /** The answer is always one of the two error sentinels or the cleaned content of a
      completion. */
  lemma RemoteAnswerForms(outcomes: seq<Outcome>)
    requires |outcomes| >= MaxRetries
    ensures var a := RemoteAnswer(outcomes).answer;
            || a == QuotaExceeded
            || a == Unavailable
            || exists j :: 0 <= j < MaxRetries && outcomes[j].Ok? && a == CleanText(Strip(outcomes[j].content))
  {
    var run := RemoteAnswer(outcomes);
    var j := run.attempts - 1;
    if outcomes[j].Ok? {
      assert run.answer == CleanText(Strip(outcomes[j].content));
    }
  }

  /** The first completion, after only transient failures, is returned cleaned. */
  lemma {:induction false} FirstCompletionWins(outcomes: seq<Outcome>, k: nat)
    requires |outcomes| >= MaxRetries && k < MaxRetries
    requires forall j :: 0 <= j < k ==> Transient(outcomes[j])
    requires outcomes[k].Ok?
    ensures RemoteAnswer(outcomes) == AnswerRun(CleanText(Strip(outcomes[k].content)), k + 1, k)
  {
  }

  /** A quota error on any attempt, the last included, after only transient
      failures, ends the loop at once with the quota sentinel. */
  lemma {:induction false} QuotaIsTerminal(outcomes: seq<Outcome>, k: nat)
    requires |outcomes| >= MaxRetries && k < MaxRetries
    requires forall j :: 0 <= j < k ==> Transient(outcomes[j])
    requires outcomes[k].Err? && IsQuota(outcomes[k].message)
    ensures RemoteAnswer(outcomes) == AnswerRun(QuotaExceeded, k + 1, k)
  {
  }

  /** Three transient failures give the give-up sentinel after two sleeps. */
  lemma {:induction false} ThreeTransientFailures(outcomes: seq<Outcome>)
    requires |outcomes| >= MaxRetries
    requires forall j :: 0 <= j < MaxRetries ==> Transient(outcomes[j])
    ensures RemoteAnswer(outcomes) == AnswerRun(Unavailable, MaxRetries, MaxRetries - 1)
  {
    var run := RemoteAnswer(outcomes);
    assert Transient(outcomes[run.attempts - 1]);
  }

  /** The two error sentinels have the shape `clean_text` produces. */
  lemma SentinelsShaped()
    ensures Normal(QuotaExceeded) && '*' !in QuotaExceeded
    ensures Normal(Unavailable) && '*' !in Unavailable
  {
    QuotaShaped();
    UnavailableShaped();
  }

  lemma QuotaShaped()
    ensures Normal(QuotaExceeded) && '*' !in QuotaExceeded
  {
    SentinelShape(QuotaExceeded);
  }

  lemma UnavailableShaped()
    ensures Normal(Unavailable) && '*' !in Unavailable
  {
    SentinelShape(Unavailable);
  }

  /** Letters and colons separated by single spaces make a string of normal shape. */
  lemma SentinelShape(s: string)
    requires forall i :: 0 <= i < |s| ==> s[i] == ' ' || 'A' <= s[i] <= 'z' || s[i] == ':'
    requires |s| > 0 ==> s[0] != ' ' && s[|s| - 1] != ' '
    requires forall i :: 0 <= i < |s| - 1 && s[i] == ' ' ==> s[i + 1] != ' '
    ensures Normal(s) && '*' !in s
  {
  }

  /** Number of transient failures in `os`. */
  function CountTransient(os: seq<Outcome>): (n: nat)
    ensures n <= |os|
  {
    if |os| == 0 then 0
    else CountTransient(os[..|os| - 1]) + (if Transient(os[|os| - 1]) then 1 else 0)
  }

  /** The loop sleeps once for each transient failure on attempts 1 and 2 (a
      failure on attempt 3 is not followed by a sleep). */
  lemma SleepsCountTransientFailures(outcomes: seq<Outcome>)
    requires |outcomes| >= MaxRetries
    ensures RemoteAnswer(outcomes).sleeps
            == CountTransient(outcomes[..if RemoteAnswer(outcomes).attempts < MaxRetries
                                          then RemoteAnswer(outcomes).attempts
                                          else MaxRetries - 1])
  {
    var run := RemoteAnswer(outcomes);
    var n := if run.attempts < MaxRetries then run.attempts else MaxRetries - 1;
    CountAllTransient(outcomes, run.attempts - 1);
    if run.attempts < MaxRetries {
      assert !Transient(outcomes[run.attempts - 1]);
      assert outcomes[..n][..n - 1] == outcomes[..run.attempts - 1];
    } else {
      assert n == run.attempts - 1;
    }
  }

  /** When the first `n` outcomes are all transient failures, they count `n`. */
  lemma {:induction false} CountAllTransient(outcomes: seq<Outcome>, n: nat)
    requires n <= |outcomes|
    requires forall j :: 0 <= j < n ==> Transient(outcomes[j])
    ensures CountTransient(outcomes[..n]) == n
  {
    if n > 0 {
      assert outcomes[..n][..n - 1] == outcomes[..n - 1];
      CountAllTransient(outcomes, n - 1);
    }
  }

  /** No outcome beyond the attempts made is ever consulted: two outcome sequences
      that agree on the attempts made by the first give the same run. */
  lemma NoFurtherAttempts(a: seq<Outcome>, b: seq<Outcome>)
    requires |a| >= MaxRetries && |b| >= MaxRetries
    requires forall j :: 0 <= j < RemoteAnswer(a).attempts ==> a[j] == b[j]
    ensures RemoteAnswer(b) == RemoteAnswer(a)
  {
    AgreeFrom(a, b, 0, 0);
  }

  lemma {:induction false} AgreeFrom(a: seq<Outcome>, b: seq<Outcome>, attempt: nat, sleeps: nat)
    requires attempt < MaxRetries <= |a| && MaxRetries <= |b|
    requires forall j :: attempt <= j < AttemptFrom(a, attempt, sleeps).attempts ==> a[j] == b[j]
    ensures AttemptFrom(b, attempt, sleeps) == AttemptFrom(a, attempt, sleeps)
    decreases MaxRetries - attempt
  {
    assert a[attempt] == b[attempt];
    if Transient(a[attempt]) && attempt < MaxRetries - 1 {
      AgreeFrom(a, b, attempt + 1, sleeps + 1);
    }
  }

  /** The answer the unit test expects: a completion reading "Shruti Gupta" on the
      first attempt is returned as it is, after one attempt and no sleep. */
  lemma CompletionExample(outcomes: seq<Outcome>)
    requires |outcomes| >= MaxRetries && outcomes[0] == Ok("Shruti Gupta")
    ensures RemoteAnswer(outcomes) == AnswerRun("Shruti Gupta", 1, 0)
  {
    NameIsClean();
    FirstCompletionWins(outcomes, 0);
  }

  lemma NameIsClean()
    ensures CleanText(Strip("Shruti Gupta")) == "Shruti Gupta"
  {
    SentinelShape("Shruti Gupta");
    AlreadyClean("Shruti Gupta");
  }

  /** Content that is already trimmed, of normal shape and free of asterisks passes
      through stripping and cleaning unchanged. */
  lemma AlreadyClean(s: string)
    requires Normal(s) && '*' !in s
    ensures CleanText(Strip(s)) == s
  {
    if s != [] {
      assert !IsSpace(s[0]) && !IsSpace(s[|s| - 1]);
    }
    StripByNoop(s, IsSpace);
    CleanTextFixedPoint(s);
  }
}
