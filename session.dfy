/**
 * The `chat_bot` session loop. `Iteration` is one pass of the loop body: read
 * a line, quit, reprompt, answer, or ask to be taught and read one more line.
 * `Converse` is the loop over a whole sequence of input lines. The class
 * `ChatBot` holds the state the loop mutates; its methods are proved to
 * behave as those two functions say.
 */
module Session {
  import opened Wrappers
  import opened Text
  import opened Matcher
  import opened Knowledge
  import opened Store

  const QuitCommand: string := "quit"
  const SkipCommand: string := "skip"

  /** What one iteration does: say goodbye and leave, ask for a valid question,
      print an answer, report a match without an answer, or ask to be taught,
      which ends in a skip or in a taught (and saved) record. */
  datatype Outcome = Quit | Reprompt | Answered(answer: string) | FoundNoAnswer | Skipped | Taught

  /** An iteration's outcome, the records afterwards, and whether the
      knowledge base was saved. */
  datatype StepResult = StepResult(outcome: Outcome, records: seq<QAPair>, saved: bool)

  /** Python's truth value of the best match: a non-empty string. */
  predicate IsHit(best: Option<string>)
  {
    best.Some? && best.value != []
  }

  /** The iteration for `line` reaches the teach prompt, and so reads an
      answer line: the input is not `quit`, not empty, and not matched. */
  predicate AsksToTeach(m: Metric, records: seq<QAPair>, line: string)
  {
    var userInput := Strip(line);
    && Lower(userInput) != QuitCommand
    && userInput != []
    && !IsHit(FindBestMatch(m, userInput, Questions(records)))
  }

  /** Looking up whatever the matcher returns always finds a record: the
      matched text is the lower-cased question of some record, and the lookup
      returns the answer of the first record with that question. */
  lemma BestMatchHasRecord(m: Metric, records: seq<QAPair>, userInput: string)
    ensures var best := FindBestMatch(m, userInput, Questions(records));
            best.Some? ==>
              exists i :: IsFirstMatch(best.value, records, i) && Lookup(best.value, records) == Some(records[i].answer)
  {
    var best := FindBestMatch(m, userInput, Questions(records));
    if best.Some? {
      var i :| 0 <= i < |records| && best.value == Lower(Questions(records)[i]);
      LowerIdempotent(records[i].question);
      assert SameQuestion(records[i].question, best.value);
      LookupFirstMatch(best.value, records);
    }
  }

  /** One pass of the loop body of `chat_bot`; `answerLine` is the line the
      teach prompt reads, and is used only when the prompt is reached. */
  function Iteration(m: Metric, records: seq<QAPair>, line: string, answerLine: string): (r: StepResult)
    ensures Lower(Strip(line)) == QuitCommand ==> r == StepResult(Quit, records, false)
    ensures r.outcome == Quit <==> Lower(Strip(line)) == QuitCommand
    ensures r.outcome == Reprompt <==> Strip(line) == []
    ensures r.saved <==> r.outcome == Taught
    ensures r.outcome != Taught ==> r.records == records
    ensures r.outcome == Taught ==> r.records == records + [QAPair(Strip(line), Strip(answerLine))]
    ensures (r.outcome == Taught || r.outcome == Skipped) <==> AsksToTeach(m, records, line)
    ensures AsksToTeach(m, records, line) ==> (r.outcome == Skipped <==> Lower(Strip(answerLine)) == SkipCommand)
    ensures r.outcome.Answered? ==>
              r.outcome.answer != [] && exists i :: 0 <= i < |records| && records[i].answer == r.outcome.answer
    ensures r.outcome == FoundNoAnswer ==> exists i :: 0 <= i < |records| && records[i].answer == []
    ensures var best := FindBestMatch(m, Strip(line), Questions(records));
            Strip(line) != [] && Lower(Strip(line)) != QuitCommand && IsHit(best) ==>
              exists i :: IsFirstMatch(best.value, records, i) &&
                r.outcome == (if records[i].answer != [] then Answered(records[i].answer) else FoundNoAnswer)
  {
    var userInput := Strip(line);
    if Lower(userInput) == QuitCommand then StepResult(Quit, records, false)
    else if userInput == [] then StepResult(Reprompt, records, false)
    else
      var bestMatch := FindBestMatch(m, userInput, Questions(records));
      if IsHit(bestMatch) then
        BestMatchHasRecord(m, records, userInput);
        var answer := Lookup(bestMatch.value, records);
        if answer.Some? && answer.value != [] then StepResult(Answered(answer.value), records, false)
        else StepResult(FoundNoAnswer, records, false)
      else
        var newAnswer := Strip(answerLine);
        if Lower(newAnswer) != SkipCommand then
          StepResult(Taught, records + [QAPair(userInput, newAnswer)], true)
        else
          StepResult(Skipped, records, false)
  }

  /** Reaching the teach prompt means that no stored question is close to the
      input: none passes the cutoff, and none equals it ignoring case. */
  lemma MissMeansNoStoredQuestion(m: Metric, records: seq<QAPair>, line: string)
    requires ValidMetric(m)
    requires AsksToTeach(m, records, line)
    ensures forall i :: 0 <= i < |records| ==>
              10 * m(Lower(records[i].question), Lower(Strip(line))) < 3 * (|records[i].question| + |Strip(line)|)
    ensures forall i :: 0 <= i < |records| ==> !SameQuestion(records[i].question, Strip(line))
  {
    var userInput := Strip(line);
    var questions := Questions(records);
    var best := FindBestMatch(m, userInput, questions);
    MatchOfNonEmptyIsNonEmpty(m, userInput, questions);
    assert best.None?;
    assert forall i :: 0 <= i < |questions| ==>
      10 * m(Lower(questions[i]), Lower(userInput)) < 3 * (|questions[i]| + |userInput|);
    assert forall i :: 0 <= i < |records| ==> questions[i] == records[i].question;
    forall i | 0 <= i < |records|
      ensures !SameQuestion(records[i].question, userInput)
    {
      if SameQuestion(records[i].question, userInput) {
        ExactQuestionMatches(m, userInput, questions, i);
        assert false;
      }
    }
  }

  /** An input equal, ignoring case, to a stored question is answered from the
      first record with that question, and changes nothing. */
  lemma ExactQuestionAnswered(m: Metric, records: seq<QAPair>, line: string, answerLine: string, i: int)
    requires ValidMetric(m)
    requires Strip(line) != [] && Lower(Strip(line)) != QuitCommand
    requires IsFirstMatch(Strip(line), records, i)
    ensures Iteration(m, records, line, answerLine) ==
              StepResult(if records[i].answer != [] then Answered(records[i].answer) else FoundNoAnswer, records, false)
  {
    var userInput := Strip(line);
    ExactQuestionMatches(m, userInput, Questions(records), i);
    LowerIdempotent(userInput);
    assert IsFirstMatch(Lower(userInput), records, i);
    LookupFirstMatch(Lower(userInput), records);
  }

  /** After the bot is taught an answer for a question, asking that question
      again, in any letter case, is answered with the taught answer. */
  lemma TeachThenAsk(m: Metric, records: seq<QAPair>, line: string, answerLine: string,
                     again: string, nextAnswerLine: string)
    requires ValidMetric(m)
    requires AsksToTeach(m, records, line) && Lower(Strip(answerLine)) != SkipCommand
    requires SameQuestion(Strip(again), Strip(line))
    ensures Iteration(m, records, line, answerLine).outcome == Taught
    ensures var reply := Strip(answerLine);
            var taught := records + [QAPair(Strip(line), reply)];
            Iteration(m, taught, again, nextAnswerLine) ==
              StepResult(if reply != [] then Answered(reply) else FoundNoAnswer, taught, false)
  {
    var taught := records + [QAPair(Strip(line), Strip(answerLine))];
    MissMeansNoStoredQuestion(m, records, line);
    TaughtIsFirstMatch(records, Strip(line), Strip(answerLine), Strip(again));
    assert |Lower(Strip(again))| == |Strip(again)|;
    ExactQuestionAnswered(m, taught, again, nextAnswerLine, |records|);
  }

  /** A question taught when no record matched it is the first match of any
      question equal to it ignoring case. */
  lemma TaughtIsFirstMatch(records: seq<QAPair>, question: string, answer: string, asked: string)
    requires forall i :: 0 <= i < |records| ==> !SameQuestion(records[i].question, question)
    requires SameQuestion(asked, question)
    ensures IsFirstMatch(asked, records + [QAPair(question, answer)], |records|)
  {
    var taught := records + [QAPair(question, answer)];
    assert forall j :: 0 <= j < |records| ==> taught[j] == records[j];
  }

  /** An empty knowledge base knows nothing: every question other than `quit`
      reaches the teach prompt, and an answer other than `skip` becomes the
      first record. */
  lemma EmptyKnowledgeBaseTeaches(m: Metric, line: string, answerLine: string)
    requires Strip(line) != [] && Lower(Strip(line)) != QuitCommand
    requires Lower(Strip(answerLine)) != SkipCommand
    ensures AsksToTeach(m, [], line)
    ensures Iteration(m, [], line, answerLine) ==
              StepResult(Taught, [QAPair(Strip(line), Strip(answerLine))], true)
  {
    assert Questions([]) == [];
  }

  /** The loop's result over a sequence of input lines: the outcomes of the
      iterations, the final records, and the records of each save. */
  datatype Transcript = Transcript(outcomes: seq<Outcome>, records: seq<QAPair>, saves: seq<seq<QAPair>>)

  /** The `while True` loop of `chat_bot` fed with `lines`. It stops after
      `quit`, or when the input runs out, possibly at the teach prompt. */
  function Converse(m: Metric, records: seq<QAPair>, lines: seq<string>): (t: Transcript)
    ensures |t.outcomes| <= |lines|
    ensures |t.saves| <= |t.outcomes|
    decreases |lines|
  {
    if lines == [] then Transcript([], records, [])
    else
      var asks := AsksToTeach(m, records, lines[0]);
      if asks && |lines| == 1 then Transcript([], records, [])
      else
        var step := Iteration(m, records, lines[0], if asks then lines[1] else []);
        if step.outcome == Quit then Transcript([Quit], records, [])
        else
          var t := Converse(m, step.records, lines[if asks then 2 else 1..]);
          Transcript([step.outcome] + t.outcomes, t.records,
                     (if step.saved then [step.records] else []) + t.saves)
  }

  /** What every record the session adds looks like: a stripped, non-empty
      question other than `quit`, and a stripped answer other than `skip`. */
  predicate WellTaught(p: QAPair)
  {
    && p.question != [] && Strip(p.question) == p.question && Lower(p.question) != QuitCommand
    && Strip(p.answer) == p.answer && Lower(p.answer) != SkipCommand
  }

  /** One iteration either leaves the records alone, or appends one well
      taught record and saves. */
  lemma IterationAppendsWellTaught(m: Metric, records: seq<QAPair>, line: string, answerLine: string)
    ensures var r := Iteration(m, records, line, answerLine);
            && (!r.saved ==> r.records == records)
            && (r.saved ==> |r.records| == |records| + 1 && r.records[..|records|] == records
                            && WellTaught(r.records[|records|]))
  {
    var r := Iteration(m, records, line, answerLine);
    if r.saved {
      StripIdempotent(line);
      StripIdempotent(answerLine);
      var p := QAPair(Strip(line), Strip(answerLine));
      assert r.records == records + [p];
      assert |Lower(p.question)| == |p.question|;
      assert |Lower(p.answer)| == |p.answer|;
      assert WellTaught(p);
    }
  }

  /** `quit` can only be the last outcome of a session. */
  predicate QuitOnlyLast(outcomes: seq<Outcome>)
  {
    forall k :: 0 <= k < |outcomes| - 1 ==> outcomes[k] != Quit
  }

  /** Every record of `later` beyond the first `n` is well taught. */
  predicate WellTaughtFrom(later: seq<QAPair>, n: nat)
  {
    forall k :: n <= k < |later| ==> WellTaught(later[k])
  }

  /** `later` extends `records`, and `saves` holds one save per added record:
      save k wrote the records up to and including the k-th added one. */
  predicate SavedPrefixes(records: seq<QAPair>, later: seq<QAPair>, saves: seq<seq<QAPair>>)
  {
    && records <= later
    && |saves| == |later| - |records|
    && (forall k :: 0 <= k < |saves| ==> saves[k] == later[..|records| + k + 1])
  }

  /** A session that started from `records` only appended: the old records
      are a prefix, every new record is well taught, and the saves are the
      successive prefixes. */
  predicate AppendsOnly(records: seq<QAPair>, t: Transcript)
  {
    WellTaughtFrom(t.records, |records|) && SavedPrefixes(records, t.records, t.saves)
  }

  lemma QuitOnlyLastCons(o: Outcome, outcomes: seq<Outcome>)
    requires o != Quit && QuitOnlyLast(outcomes)
    ensures QuitOnlyLast([o] + outcomes)
  {
    forall k | 0 <= k < |outcomes|
      ensures ([o] + outcomes)[k] != Quit
    {
      if k > 0 {
        assert ([o] + outcomes)[k] == outcomes[k - 1];
      }
    }
  }

  /** Appending at most one well taught record, then running a session that
      only appends, is a session that only appends. */
  lemma AppendsOnlyCons(records: seq<QAPair>, next: seq<QAPair>, saved: bool, t: Transcript, outcomes: seq<Outcome>)
    requires !saved ==> next == records
    requires saved ==> |next| == |records| + 1 && next[..|records|] == records && WellTaught(next[|records|])
    requires AppendsOnly(next, t)
    ensures AppendsOnly(records, Transcript(outcomes, t.records, (if saved then [next] else []) + t.saves))
  {
    if saved {
      SavedPrefixesCons(records, next, t.records, t.saves);
      WellTaughtFromCons(records, next, t.records);
    } else {
      assert [] + t.saves == t.saves;
    }
  }

  /** A save of `next`, one record longer than `records`, followed by the
      saves of a session from `next`, are the saves of a session from `records`. */
  lemma SavedPrefixesCons(records: seq<QAPair>, next: seq<QAPair>, later: seq<QAPair>, saves: seq<seq<QAPair>>)
    requires |next| == |records| + 1 && next[..|records|] == records
    requires SavedPrefixes(next, later, saves)
    ensures SavedPrefixes(records, later, [next] + saves)
  {
    assert later[..|records|] == next[..|records|];
    forall k | 0 <= k < |saves| + 1
      ensures ([next] + saves)[k] == later[..|records| + k + 1]
    {
      if k > 0 {
        assert ([next] + saves)[k] == saves[k - 1];
      }
    }
  }

  /** The record added to `records` is well taught, and so is every record a
      session from `next` added after it. */
  lemma WellTaughtFromCons(records: seq<QAPair>, next: seq<QAPair>, later: seq<QAPair>)
    requires |next| == |records| + 1 && next <= later
    requires WellTaught(next[|records|]) && WellTaughtFrom(later, |next|)
    ensures WellTaughtFrom(later, |records|)
  {
    assert later[|records|] == next[|records|];
  }

  /** The session only appends, and `quit` ends it. */
  lemma {:induction false} ConverseAppendsOnly(m: Metric, records: seq<QAPair>, lines: seq<string>)
    ensures AppendsOnly(records, Converse(m, records, lines))
    ensures QuitOnlyLast(Converse(m, records, lines).outcomes)
    decreases |lines|
  {
    if lines != [] {
      var asks := AsksToTeach(m, records, lines[0]);
      if !(asks && |lines| == 1) {
        var answerLine := if asks then lines[1] else [];
        var step := Iteration(m, records, lines[0], answerLine);
        if step.outcome != Quit {
          var rest := lines[if asks then 2 else 1..];
          var t := Converse(m, step.records, rest);
          var outcomes := [step.outcome] + t.outcomes;
          assert Converse(m, records, lines) ==
            Transcript(outcomes, t.records, (if step.saved then [step.records] else []) + t.saves);
          IterationAppendsWellTaught(m, records, lines[0], answerLine);
          ConverseAppendsOnly(m, step.records, rest);
          QuitOnlyLastCons(step.outcome, t.outcomes);
          AppendsOnlyCons(records, step.records, step.saved, t, outcomes);
        }
      }
    }
  }

  lemma AppendAssociative<T>(a: seq<T>, b: seq<T>, c: seq<T>)
    ensures a + (b + c) == (a + b) + c
  {
  }

  /** The state `chat_bot` keeps across iterations. */
  class ChatBot {
    /** The matched-character count of the similarity ratio. */
    const metric: Metric
    /** The dictionary as loaded, including its entries other than `question`. */
    var knowledge: map<string, Json>
    /** The list under `question`, which teaching appends to. */
    var records: seq<QAPair>
    /** The records of each save, in order; save k writes
        `WithRecords(knowledge, saves[k])`. */
    var saves: seq<seq<QAPair>>

    /** The document a save of the current state writes. */
    function Document(): map<string, Json>
      reads this
    {
      WithRecords(knowledge, records)
    }

    /** Start a session on a loaded knowledge base whose list holds records. */
    constructor (metric: Metric, loaded: map<string, Json>)
      requires HasValidStructure(loaded) && RecordsOf(loaded).Some?
      ensures this.metric == metric && knowledge == loaded && saves == []
      ensures records == RecordsOf(loaded).value
      ensures Document() == loaded
    {
      this.metric := metric;
      knowledge := loaded;
      records := RecordsOf(loaded).value;
      saves := [];
      new;
      WithOwnRecords(loaded);
    }

    /** One pass of the loop body: the user's line, and the answer line the
        teach prompt reads if it is reached. */
    method Turn(line: string, answerLine: string) returns (outcome: Outcome)
      modifies this
      ensures knowledge == old(knowledge)
      ensures var r := Iteration(metric, old(records), line, answerLine);
              && outcome == r.outcome && records == r.records
              && saves == old(saves) + (if r.saved then [records] else [])
    {
      var userInput := Strip(line);
      if Lower(userInput) == QuitCommand {
        return Quit;
      }
      if userInput == [] {
        return Reprompt;
      }
      var questionList := Questions(records);
      var bestMatch := FindBestMatch(metric, userInput, questionList);
      if IsHit(bestMatch) {
        var answer := GetAnswerForQuestion(bestMatch.value, records);
        if answer.Some? && answer.value != [] {
          return Answered(answer.value);
        }
        return FoundNoAnswer;
      }
      var newAnswer := Strip(answerLine);
      if Lower(newAnswer) != SkipCommand {
        records := records + [QAPair(userInput, newAnswer)];
        saves := saves + [records];
        return Taught;
      }
      return Skipped;
    }

    /** The loop of `chat_bot` over the input lines. */
    method Run(lines: seq<string>) returns (outcomes: seq<Outcome>)
      modifies this
      ensures knowledge == old(knowledge)
      ensures var t := Converse(metric, old(records), lines);
              outcomes == t.outcomes && records == t.records && saves == old(saves) + t.saves
    {
      ghost var whole := Converse(metric, records, lines);
      outcomes := [];
      var i := 0;
      while i < |lines|
        invariant 0 <= i <= |lines|
        invariant knowledge == old(knowledge)
        invariant var rest := Converse(metric, records, lines[i..]);
                  && whole.outcomes == outcomes + rest.outcomes
                  && whole.records == rest.records
                  && old(saves) + whole.saves == saves + rest.saves
        decreases |lines| - i
      {
        var line := lines[i];
        var asks := AsksToTeach(metric, records, line);
        if asks && i + 1 == |lines| {
          break;
        }
        var answerLine := if asks then lines[i + 1] else [];
        ghost var before := records;
        ghost var savesBefore := saves;
        ghost var outcomesBefore := outcomes;
        ghost var rest := Converse(metric, before, lines[i..]);
        ghost var step := Iteration(metric, before, line, answerLine);
        var outcome := Turn(line, answerLine);
        outcomes := outcomes + [outcome];
        var next := i + if asks then 2 else 1;
        assert lines[i..][if asks then 2 else 1..] == lines[next..];
        i := next;
        if outcome == Quit {
          assert rest == Transcript([Quit], before, []);
          break;
        }
        ghost var added := if step.saved then [records] else [];
        ghost var after := Converse(metric, records, lines[i..]);
        assert rest == Transcript([outcome] + after.outcomes, after.records, added + after.saves);
        assert saves == savesBefore + added;
        AppendAssociative(savesBefore, added, after.saves);
        AppendAssociative(outcomesBefore, [outcome], after.outcomes);
      }
    }
  }
}
