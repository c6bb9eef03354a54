# Learning chatbot: knowledge base, fuzzy matcher and session loop

This project models the command-line chatbot in `src/source_code.py`, and proves properties of the model.
The bot keeps a JSON knowledge base: a `question` list of `{question, answer}` records.
It answers a typed question from the closest stored question.
When nothing is close enough, it asks the user to teach it an answer, appends the new record and saves the file.

The model has six modules, one per file:

- `Wrappers` (`wrappers.dfy`): the `Option` type.
- `Text` (`text.dfy`): the string primitives the program relies on.
  - `Lower` models `str.lower`; `Strip` models `str.strip()`.
  - `StrLess` is Python's `<` on strings, used as the tie-break of the close-match search.
- `Matcher` (`matcher.dfy`): `find_best_match`.
  - `difflib`'s similarity ratio is 2·M/T. T is the total length of the two strings. M is the number of characters the matching blocks cover.
  - M is a parameter. `ValidMetric` constrains it: it never exceeds either length, a string matches itself fully, and a full match of both strings means they are equal.
  - `BestOf` keeps the candidate whose pair (ratio, string) is greatest among those reaching the cutoff 0.6. That is the pair `get_close_matches(..., n=1)` ranks first.
- `Knowledge` (`knowledge.dfy`): the records and `get_answer_for_question`.
  - The function `Lookup` specifies the lookup.
  - The method `GetAnswerForQuestion` is the loop of the program, proved against `Lookup`.
- `Store` (`store.dfy`): `load_knowledge_base` after parsing, and the shape of a record in the JSON list.
  - A parsed JSON value is the datatype `Json`.
  - A saved document is the loaded dictionary with its `question` list replaced.
- `Session` (`session.dfy`): the `chat_bot` loop.
  - `Iteration` is one pass of the loop body; `Converse` is the loop over a sequence of input lines.
  - The class `ChatBot` holds the state the loop mutates: the loaded dictionary, the record list, and a log of the record lists handed to each save.
  - Its methods `Turn` and `Run` are proved to do what `Iteration` and `Converse` say.

Three behaviours of the code are easy to miss, and the model keeps them:

- Ties between equally similar candidates go to the greatest (ratio, lower-cased string) pair, not to the first candidate in record order. `BestOf` chooses the same way.
- A blank answer at the teach prompt is stored as an empty answer. Asking the question again later gives "I found a match, but I don't have an answer for it". `Iteration` does the same, and `TeachThenAsk` states it.
- The no-answer reply never comes from a match missing from the records: `BestMatchHasRecord` proves that the lookup of a match always finds the first record with that question. In the model the reply comes only from an empty stored answer. The program also gives it for other falsy answers (`null`, `0`, `false`), which the model does not admit; see `Session.ChatBot.constructor` under "## Left out".

## Model

| member | source | states |
|---|---|---|
| Text.Lower | src/source_code.py:52 | the lower-cased string has the same length, and each character is the ASCII lower-case form of the original character at that position |
| Text.Strip | src/source_code.py:80 | the stripped input neither starts nor ends with whitespace, and is a slice of the line with only whitespace before and after it |
| Text.StripIdempotent | src/source_code.py:101-104 | stripping a stripped line changes nothing, so a taught record holds the stripped text exactly once stripped |
| Text.StrLess | src/source_code.py:52 | Python's `<` on strings, the tie-break of the close-match search: it never holds between a string and itself |
| Text.StrLessTransitive | src/source_code.py:52 | Python's string order, which breaks ties between equally similar candidates, is transitive |
| Text.StrLessTotal | src/source_code.py:52 | of two different strings one precedes the other, so the tie-break always picks a single candidate |
| Text.StrLessIrreflexive | src/source_code.py:52 | no string precedes itself |
| Matcher.CutoffIsIntegral | src/source_code.py:52 | a ratio of at least 0.6 means exactly 10·M ≥ 3·(total length) |
| Matcher.RatioAtMostOne | src/source_code.py:52 | no similarity ratio exceeds 1 |
| Matcher.RatioOneIffEqual | src/source_code.py:52 | the ratio reaches 1 exactly when the candidate equals the word |
| Matcher.BestOf | src/source_code.py:52-53 | no match exactly when no candidate reaches the cutoff; otherwise the result is one of the candidates, reaches the cutoff, and ranks at or above every candidate that reaches it |
| Matcher.FindBestMatch | src/source_code.py:43-53 | an empty question list gives no match; there is no match exactly when no lower-cased question meets 10·M ≥ 3·T; a match is the lower-cased form of some stored question, meets the cutoff, and no stored question has a higher ratio |
| Matcher.ExactQuestionMatches | src/source_code.py:52-53 | a user question equal to a stored question, ignoring case, is matched by its own lower-cased form |
| Matcher.MatchOfNonEmptyIsNonEmpty | src/source_code.py:52-53 | a non-empty question is never matched by an empty candidate, so the match the loop tests is truthy |
| Knowledge.Questions | src/source_code.py:90 | the question list has one entry per record: the question of that record, in record order |
| Knowledge.Lookup | src/source_code.py:65-68 | a found answer is the answer of a record whose question equals the asked one, ignoring case |
| Knowledge.LookupNoneIffNoMatch | src/source_code.py:65-68 | the lookup gives None exactly when no record's question equals the asked one, ignoring case |
| Knowledge.LookupIsFirstMatch | src/source_code.py:65-67 | when record i is the first match, the lookup gives its answer |
| Knowledge.LookupFoundFirstMatch | src/source_code.py:65-67 | a found answer is the answer of the first matching record |
| Knowledge.LookupFirstMatch | src/source_code.py:65-68 | the three lookup facts together: None iff no match, else the first match's answer |
| Knowledge.GetAnswerForQuestion | src/source_code.py:56-68 | the scan returns the lookup's answer: None iff no record matches, otherwise the answer of the first matching record |
| Store.LoadKnowledgeBase | src/source_code.py:14-26 | the result always has a `question` list; a missing file, non-JSON text, or a document without a `question` list each gives the empty knowledge base with its own error; a valid document is returned unchanged with no error |
| Store.ReloadChangesNothing | src/source_code.py:17-20 | whatever a load returns passes the structure check unchanged |
| Store.DecodeRecord | src/source_code.py:104 | a list element read as a record is exactly the object the session appends for that record |
| Store.EncodeRecords | src/source_code.py:104 | the list holds one element per record |
| Store.DecodeEncode | src/source_code.py:104-105 | records written to the list read back as the same records, in order |
| Store.EncodeDecode | src/source_code.py:17-20 | a list that reads as records is exactly their encoding |
| Store.WithRecords | src/source_code.py:104-105 | the document a save writes has a `question` list with one element per record, has the keys of the loaded dictionary plus `question`, and keeps every other entry unchanged |
| Store.SaveThenLoad | src/source_code.py:29-40 | a saved document loads back as itself with no error, holds the saved records, and keeps every other top-level entry of the loaded dictionary |
| Store.WithOwnRecords | src/source_code.py:20 | re-encoding a loaded knowledge base's own records gives back that knowledge base |
| Session.IsHit | src/source_code.py:93 | the truth test on the best match: a match that is a non-empty string |
| Session.AsksToTeach | src/source_code.py:80-101 | the pass reaches the teach prompt, and so reads an answer line: the stripped input is not `quit` in any case, not empty, and has no truthy match |
| Session.BestMatchHasRecord | src/source_code.py:90-94 | looking up any match the matcher returns yields the answer of the first record whose question equals the match, ignoring case |
| Session.Iteration | src/source_code.py:79-106 | `quit` in any case ends the loop with no change and no save; an empty line reprompts; saving happens exactly when a record is taught; only teaching changes the records, by appending the stripped question and answer; the teach prompt is reached exactly when there is no truthy match; `skip` in any case declines; for a truthy match, the reply is the answer of the first record whose question equals the match, ignoring case, if that answer is non-empty, and the no-answer reply otherwise |
| Session.MissMeansNoStoredQuestion | src/source_code.py:91-100 | reaching the teach prompt means no stored question meets the cutoff, and none equals the input ignoring case |
| Session.ExactQuestionAnswered | src/source_code.py:90-98 | an input equal to a stored question, ignoring case, gets the first such record's answer (or the no-answer reply if it is empty), and nothing changes |
| Session.TeachThenAsk | src/source_code.py:100-106 | after a question is taught, asking it again in any letter case is answered with the taught answer |
| Session.EmptyKnowledgeBaseTeaches | src/source_code.py:90-106 | with no records, every question other than `quit` reaches the teach prompt, and an answer other than `skip` becomes the only record, and is saved |
| Session.IterationAppendsWellTaught | src/source_code.py:101-105 | one iteration either keeps the records or appends one record whose question is stripped, non-empty and not `quit`, and whose answer is stripped and not `skip` |
| Session.Converse | src/source_code.py:79-106 | the `while True` loop over the input lines: each pass consumes at least one line, so there are at most as many outcomes as lines, and at most one save per outcome |
| Session.ConverseAppendsOnly | src/source_code.py:79-106 | over any input, the session keeps the old records as a prefix; every added record is well formed; there is one save per added record, and save k writes the records up to the k-th added one; `quit` can only be the last outcome |
| Session.ChatBot.constructor | src/source_code.py:77 | the session starts from the loaded knowledge base, with its records decoded, no saves, and a document equal to the loaded one |
| Session.ChatBot.Turn | src/source_code.py:80-106 | one mutated pass: the outcome and the new records are those of `Iteration`, a save logs the new records, and the loaded dictionary is untouched |
| Session.ChatBot.Run | src/source_code.py:79-106 | the loop over the input lines produces the outcomes, final records and saves of `Converse` |

## Left out

- Reading and writing `knowledge_base.json`, the JSON text, `input`, and the printed messages are not modelled.
  - A load starts from the parse outcome (`Source`).
  - A save is the record list logged in `ChatBot.saves`. The document it writes is `WithRecords(knowledge, saves[k])`.
  - Input lines are a parameter.
- Store.LoadKnowledgeBase: a file that exists but cannot be opened or decoded is not modelled. Examples are a permission error, a directory, or bytes that are not valid text. The program does not catch these errors, so it stops.
- Save failures are not modelled. An `IOError` only prints a message and leaves the in-memory state as it is, so the model logs every save attempt.
- How `difflib` computes matching blocks is not modelled. M is an abstract parameter obeying `ValidMetric`.
  - For a word of 200 or more characters, `difflib`'s automatic junk heuristic changes M on different strings. `ValidMetric`'s bounds allow any such value, so the model covers it.
- Matcher.FindBestMatch: the ratio is an exact rational, not a floating-point number. The rounding of 2·M/T near 0.6 is not modelled.
- Text.Lower: case folding covers the ASCII letters only; `str.lower` folds all of Unicode.
- Text.Strip: whitespace covers the ASCII characters only; `str.strip` also removes other Unicode whitespace.
- Store.LoadKnowledgeBase: a JSON document whose top level is not an object is not modelled. The program's membership test and indexing behave differently on lists and strings.
- Session.ChatBot.constructor: a session starts only from a knowledge base whose list elements are objects with exactly `question` and `answer`, both strings.
  - The program keeps records with extra keys.
  - It treats falsy non-string answers (`null`, `0`, `false`) as missing answers.
  - It fails with an exception on other malformed records.
  - None of these is modelled.
- Session.Converse: when the input ends, the program fails with `EOFError`; the model stops there, including at the teach prompt.
- Interrupting the program (Ctrl-C) is not modelled.
- A near-duplicate, such as a taught "What is your name?" asked again as "what is your name", is not proved to be answered. That depends on the concrete value of M, which the model leaves abstract. `TeachThenAsk` covers re-asking the same question in any letter case.
- The older top-level `source_code.py`, a loader without the structure check, is not part of this model.
