/** `exact_match` and `get_answer` from src/question_answering.py: a local
    substring heuristic tried before the remote answerer. */
module Matching {
  import opened Wrappers
  import opened PyStr
  import opened Remote

  /** `i` is where `question` first occurs in `context`. */
  ghost predicate FirstOccurrence(context: string, question: string, i: nat) {
    OccursAt(context, question, i) && forall j: nat :: j < i ==> !OccursAt(context, question, j)
  }

  /** `e` is the first '.' at or after `start`, or the end of `context` when there is
      none. */
  ghost predicate SentenceEnd(context: string, start: nat, e: nat) {
    && start <= e <= |context|
    && (forall k :: start <= k < e ==> context[k] != '.')
    && (e == |context| || context[e] == '.')
  }

  /** The end of the first '.'-free stretch of `context` from `start` on, found with
      `context.find('.', start)`. */
  function SentenceEndFrom(context: string, start: nat): (e: nat)
    requires start <= |context|
    ensures SentenceEnd(context, start, e)
  {
    var dot := Find(context, ".", start);
    forall k | start <= k < (if dot != -1 then dot else |context|)
      ensures context[k] != '.'
    {
      OccursAtChar(context, '.', k);
    }
    if dot != -1 then
      OccursAtChar(context, '.', dot);
      dot
    else |context|
  }

  /** `exact_match(question, context)`: `None` exactly when the question does not
      occur in the context; otherwise the text after its first occurrence up to the
      next period (or the end), trimmed, which therefore has no period and no
      whitespace at either end. */
  function ExactMatch(question: string, context: string): (r: Option<string>)
    ensures r.None? <==> !exists i: nat :: OccursAt(context, question, i)
    ensures r.Some? ==> '.' !in r.value
    ensures r.Some? && r.value != [] ==> !IsSpace(r.value[0]) && !IsSpace(r.value[|r.value| - 1])
  {
    InIffOccurs(question, context);
    if !In(question, context) then None
    else
      var index := Find(context, question, 0);
      assert OccursAt(context, question, index as nat);
      Some(SentenceFrom(context, index + |question|))
  }

  /** The stretch of `context` from `start` up to the next period (or the end),
      trimmed. */
  function SentenceFrom(context: string, start: nat): (r: string)
    requires start <= |context|
    ensures '.' !in r
    ensures r != [] ==> !IsSpace(r[0]) && !IsSpace(r[|r| - 1])
  {
    var end := SentenceEndFrom(context, start);
    TrimmedSentence(context, start, end);
    Strip(context[start..end])
  }

  /** The trimmed stretch up to a sentence end has no period and no whitespace at
      either end. */
  lemma {:induction false} TrimmedSentence(context: string, start: nat, e: nat)
    requires SentenceEnd(context, start, e)
    ensures var r := Strip(context[start..e]);
            && '.' !in r
            && (r != [] ==> !IsSpace(r[0]) && !IsSpace(r[|r| - 1]))
  {
    var seg := context[start..e];
    StripByChars(seg, IsSpace);
    forall k | 0 <= k < |seg|
      ensures seg[k] != '.'
    {
      assert seg[k] == context[start + k];
    }
  }

  /** The answer follows from where the question first occurs and where the next
      period is: `exact_match` returns exactly that trimmed stretch. */
  lemma {:induction false} ExactMatchFirstSentence(question: string, context: string, i: nat, e: nat)
    requires FirstOccurrence(context, question, i)
    requires SentenceEnd(context, i + |question|, e)
    ensures ExactMatch(question, context) == Some(Strip(context[i + |question|..e]))
  {
    FindFirstOccurrence(context, question, i);
    ExactMatchAtSentence(question, context, i, e);
  }

  /** Given where `context.index(question)` lands and where the next period is. */
  lemma {:induction false} ExactMatchAtSentence(question: string, context: string, i: nat, e: nat)
    requires Find(context, question, 0) == i
    requires SentenceEnd(context, i + |question|, e)
    ensures ExactMatch(question, context) == Some(Strip(context[i + |question|..e]))
  {
    ExactMatchAt(question, context, i);
    SentenceFromAt(context, i + |question|, e);
    var sentence := SentenceFrom(context, i + |question|);
    assert sentence == Strip(context[i + |question|..e]);
    assert ExactMatch(question, context) == Some(sentence);
  }

  /** Given where `context.index(question)` lands. */
  lemma {:induction false} ExactMatchAt(question: string, context: string, i: nat)
    requires Find(context, question, 0) == i
    ensures i + |question| <= |context|
    ensures ExactMatch(question, context) == Some(SentenceFrom(context, i + |question|))
  {
    ExactMatchFound(question, context);
  }

  /** `SentenceFrom` cuts at the sentence end. */
  lemma {:induction false} SentenceFromAt(context: string, start: nat, e: nat)
    requires SentenceEnd(context, start, e)
    ensures SentenceFrom(context, start) == Strip(context[start..e])
  {
    SentenceEndUnique(context, start, e, SentenceEndFrom(context, start));
  }

  /** When the question is in the context, the match starts right after its first
      occurrence. */
  lemma {:induction false} ExactMatchFound(question: string, context: string)
    requires In(question, context)
    ensures Find(context, question, 0) + |question| <= |context|
    ensures ExactMatch(question, context) == Some(SentenceFrom(context, Find(context, question, 0) + |question|))
  {
  }

  /** `context.index(question)` is the first occurrence. */
  lemma {:induction false} FindFirstOccurrence(context: string, question: string, i: nat)
    requires FirstOccurrence(context, question, i)
    ensures Find(context, question, 0) == i
  {
    var f := Find(context, question, 0);
    assert OccursAt(context, question, i);
    assert f != -1;
    assert f <= i;
    assert OccursAt(context, question, f as nat);
  }

  lemma {:induction false} SentenceEndUnique(context: string, start: nat, e1: nat, e2: nat)
    requires SentenceEnd(context, start, e1) && SentenceEnd(context, start, e2)
    ensures e1 == e2
  {
  }

  /** The empty question occurs at index 0 of every context, so it always matches:
      the answer is the first sentence, trimmed. */
  lemma {:induction false} EmptyQuestionMatches(context: string, e: nat)
    requires SentenceEnd(context, 0, e)
    ensures ExactMatch("", context) == Some(Strip(context[..e]))
  {
    assert OccursAt(context, "", 0);
    ExactMatchFirstSentence("", context, 0, e);
  }

  /** Python truthiness of `exact_match`'s result: `None` and `""` are false. */
  predicate Truthy(r: Option<string>): (b: bool)
    ensures b <==> r != None && r != Some("")
  {
    r.Some? && r.value != ""
  }

  /** The answer `get_answer` returns and how many remote attempts it cost. */
  datatype Resolution = Resolution(answer: string, remoteAttempts: nat)

  /** `get_answer(question, context)`, with the remote service's outcomes as a
      parameter: a truthy exact match is returned with no remote call; otherwise the
      remote answerer decides. */
  function GetAnswer(question: string, context: string, outcomes: seq<Outcome>): (r: Resolution)
    requires |outcomes| >= MaxRetries
    ensures r.remoteAttempts == 0 <==> Truthy(ExactMatch(question, context))
    ensures r.remoteAttempts == 0 ==> ExactMatch(question, context) == Some(r.answer)
    ensures r.remoteAttempts > 0 ==> r.answer == RemoteAnswer(outcomes).answer
                                     && r.remoteAttempts == RemoteAnswer(outcomes).attempts
  {
    var exact := ExactMatch(question, context);
    if Truthy(exact) then Resolution(exact.value, 0)
    else
      var run := RemoteAnswer(outcomes);
      Resolution(run.answer, run.attempts)
  }

  /** When the question occurs and the stretch after its first occurrence up to the
      next period holds any non-whitespace character, that stretch, trimmed, is the
      answer and the remote service is never called. */
  lemma {:induction false} GetAnswerLocal(question: string, context: string, outcomes: seq<Outcome>, i: nat, e: nat, k: nat)
    requires |outcomes| >= MaxRetries
    requires FirstOccurrence(context, question, i)
    requires SentenceEnd(context, i + |question|, e)
    requires i + |question| <= k < e && !IsSpace(context[k])
    ensures GetAnswer(question, context, outcomes)
            == Resolution(Strip(context[i + |question|..e]), 0)
  {
    ExactMatchFirstSentence(question, context, i, e);
    var seg := context[i + |question|..e];
    assert seg[k - i - |question|] == context[k];
    StripByNonEmpty(seg, IsSpace, k - i - |question|);
  }

  /** When the question does not occur, or the stretch after it is blank, the
      remote answerer is called and its answer returned. */
  lemma {:induction false} GetAnswerRemote(question: string, context: string, outcomes: seq<Outcome>)
    requires |outcomes| >= MaxRetries
    requires !Truthy(ExactMatch(question, context))
    ensures GetAnswer(question, context, outcomes).answer == RemoteAnswer(outcomes).answer
    ensures GetAnswer(question, context, outcomes).remoteAttempts >= 1
  {
  }
}
