/**
 * The knowledge base's records and `get_answer_for_question`: an in-order
 * scan of the records that returns the answer of the first record whose
 * question equals the asked one, ignoring case.
 */
module Knowledge {
  import opened Wrappers
  import opened Text

  /** One `{"question": ..., "answer": ...}` record. */
  datatype QAPair = QAPair(question: string, answer: string)

  /** The comparison the lookup makes: equal after lower-casing both sides. */
  predicate SameQuestion(stored: string, asked: string)
  {
    Lower(stored) == Lower(asked)
  }

  /** The stored question texts, in record order. */
  function Questions(records: seq<QAPair>): (r: seq<string>)
    ensures |r| == |records|
    ensures forall i :: 0 <= i < |records| ==> r[i] == records[i].question
  {
    if records == [] then [] else [records[0].question] + Questions(records[1..])
  }

  /** Record `i` is the first record whose question matches `question`. */
  predicate IsFirstMatch(question: string, records: seq<QAPair>, i: int)
  {
    && 0 <= i < |records|
    && SameQuestion(records[i].question, question)
    && forall j :: 0 <= j < i ==> !SameQuestion(records[j].question, question)
  }

  /** The answer the lookup returns, as a function of the records. */
  function Lookup(question: string, records: seq<QAPair>): (r: Option<string>)
    ensures r.Some? ==> exists i :: 0 <= i < |records| && SameQuestion(records[i].question, question)
                                    && r.value == records[i].answer
  {
    if records == [] then None
    else if SameQuestion(records[0].question, question) then Some(records[0].answer)
    else Lookup(question, records[1..])
  }

  /** The lookup yields None exactly when no record matches. */
  lemma {:induction false} LookupNoneIffNoMatch(question: string, records: seq<QAPair>)
    ensures Lookup(question, records).None? <==>
              forall i :: 0 <= i < |records| ==> !SameQuestion(records[i].question, question)
  {
    if records != [] && !SameQuestion(records[0].question, question) {
      var rest := records[1..];
      LookupNoneIffNoMatch(question, rest);
      assert forall i :: 0 < i < |records| ==> records[i] == rest[i - 1];
    }
  }

  /** The lookup yields the answer of the first matching record. */
  lemma {:induction false} LookupIsFirstMatch(question: string, records: seq<QAPair>, i: int)
    requires IsFirstMatch(question, records, i)
    ensures Lookup(question, records) == Some(records[i].answer)
  {
    if i > 0 {
      var rest := records[1..];
      assert IsFirstMatch(question, rest, i - 1) by {
        assert forall j :: 0 <= j < i - 1 ==> rest[j] == records[j + 1];
      }
      LookupIsFirstMatch(question, rest, i - 1);
    }
  }

  /** A found answer is that of the first matching record. */
  lemma {:induction false} LookupFoundFirstMatch(question: string, records: seq<QAPair>)
    requires Lookup(question, records).Some?
    ensures exists i :: IsFirstMatch(question, records, i) && Lookup(question, records).value == records[i].answer
  {
    if SameQuestion(records[0].question, question) {
      assert IsFirstMatch(question, records, 0);
    } else {
      var rest := records[1..];
      LookupFoundFirstMatch(question, rest);
      var k :| IsFirstMatch(question, rest, k) && Lookup(question, rest).value == rest[k].answer;
      assert IsFirstMatch(question, records, k + 1) by {
        assert forall j :: 0 < j <= k + 1 ==> records[j] == rest[j - 1];
      }
    }
  }

  /** The three facts together: None exactly when no record matches, else the
      answer of the first matching record. */
  lemma LookupFirstMatch(question: string, records: seq<QAPair>)
    ensures Lookup(question, records).None? <==>
              forall i :: 0 <= i < |records| ==> !SameQuestion(records[i].question, question)
    ensures forall i :: IsFirstMatch(question, records, i) ==>
              Lookup(question, records) == Some(records[i].answer)
    ensures Lookup(question, records).Some? ==>
              exists i :: IsFirstMatch(question, records, i) && Lookup(question, records).value == records[i].answer
  {
    LookupNoneIffNoMatch(question, records);
    forall i | IsFirstMatch(question, records, i)
      ensures Lookup(question, records) == Some(records[i].answer)
    {
      LookupIsFirstMatch(question, records, i);
    }
    if Lookup(question, records).Some? {
      LookupFoundFirstMatch(question, records);
    }
  }

  /** `get_answer_for_question`; the records are only read. */
  method GetAnswerForQuestion(question: string, records: seq<QAPair>) returns (answer: Option<string>)
    ensures answer == Lookup(question, records)
    ensures answer.None? <==> forall i :: 0 <= i < |records| ==> !SameQuestion(records[i].question, question)
    ensures answer.Some? ==> exists i :: IsFirstMatch(question, records, i) && answer.value == records[i].answer
  {
    for i := 0 to |records|
      invariant forall j :: 0 <= j < i ==> !SameQuestion(records[j].question, question)
    {
      if Lower(records[i].question) == Lower(question) {
        assert IsFirstMatch(question, records, i);
        LookupIsFirstMatch(question, records, i);
        return Some(records[i].answer);
      }
    }
    LookupNoneIffNoMatch(question, records);
    return None;
  }
}
