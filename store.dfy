/**
 * `load_knowledge_base` after parsing, and the shape of the document that
 * `save_knowledge_base` writes. Reading and writing the file and the JSON
 * text itself are not modelled: a load starts from the parse outcome, and a
 * save is the document handed to the writer.
 */
module Store {
  import opened Wrappers
  import opened Knowledge

  /** A parsed JSON value. */
  datatype Json =
    | JNull
    | JBool(b: bool)
    | JNumber(n: real)
    | JString(s: string)
    | JArray(items: seq<Json>)
    | JObject(fields: map<string, Json>)

  /** What opening and parsing the file produced: no file, text that is not
      JSON, or a JSON object. */
  datatype Source = NoFile | NotJson | Parsed(document: map<string, Json>)

  /** The three conditions the loader reports before falling back. */
  datatype LoadError = FileNotFound | InvalidJson | InvalidStructure

  /** The knowledge base the session starts with, and the condition reported
      on the way, if any. */
  datatype Loaded = Loaded(knowledge: map<string, Json>, error: Option<LoadError>)

  const QuestionKey: string := "question"
  const AnswerKey: string := "answer"

  /** `{"question": []}` */
  function EmptyKnowledgeBase(): map<string, Json>
  {
    map[QuestionKey := JArray([])]
  }

  /** The structure check: a `question` key holding a list. */
  predicate HasValidStructure(kb: map<string, Json>)
  {
    QuestionKey in kb && kb[QuestionKey].JArray?
  }

  /** `load_knowledge_base`: a parsed object with a valid structure is returned
      unchanged; anything else is replaced by the empty knowledge base. */
  function LoadKnowledgeBase(source: Source): (r: Loaded)
    ensures HasValidStructure(r.knowledge)
    ensures r.error.None? <==> source.Parsed? && HasValidStructure(source.document)
    ensures r.error.None? ==> r.knowledge == source.document
    ensures r.error.Some? ==> r.knowledge == EmptyKnowledgeBase() && r.knowledge[QuestionKey].items == []
    ensures source.NoFile? ==> r.error == Some(FileNotFound)
    ensures source.NotJson? ==> r.error == Some(InvalidJson)
    ensures source.Parsed? && !HasValidStructure(source.document) ==> r.error == Some(InvalidStructure)
  {
    match source
    case NoFile => Loaded(EmptyKnowledgeBase(), Some(FileNotFound))
    case NotJson => Loaded(EmptyKnowledgeBase(), Some(InvalidJson))
    case Parsed(data) =>
      if QuestionKey !in data || !data[QuestionKey].JArray? then
        Loaded(EmptyKnowledgeBase(), Some(InvalidStructure))
      else
        Loaded(data, None)
  }

  /** Loading again whatever a load produced gives it back with no error. */
  lemma ReloadChangesNothing(source: Source)
    ensures var kb := LoadKnowledgeBase(source).knowledge;
            LoadKnowledgeBase(Parsed(kb)) == Loaded(kb, None)
  {
  }

  /** A record as the session appends it to the list. */
  function EncodeRecord(p: QAPair): Json
  {
    JObject(map[QuestionKey := JString(p.question), AnswerKey := JString(p.answer)])
  }

  /** A list element read as a record: an object whose only keys are
      `question` and `answer`, both holding strings. */
  function DecodeRecord(j: Json): (r: Option<QAPair>)
    ensures r.Some? ==> EncodeRecord(r.value) == j
  {
    if && j.JObject?
       && j.fields.Keys == {QuestionKey, AnswerKey}
       && j.fields[QuestionKey].JString?
       && j.fields[AnswerKey].JString?
    then
      var p := QAPair(j.fields[QuestionKey].s, j.fields[AnswerKey].s);
      assert EncodeRecord(p).fields == j.fields;
      Some(p)
    else None
  }

  function EncodeRecords(records: seq<QAPair>): (r: seq<Json>)
    ensures |r| == |records|
  {
    if records == [] then [] else [EncodeRecord(records[0])] + EncodeRecords(records[1..])
  }

  /** The list read as records; None when some element is not a record. */
  function DecodeRecords(items: seq<Json>): Option<seq<QAPair>>
  {
    if items == [] then Some([])
    else
      match (DecodeRecord(items[0]), DecodeRecords(items[1..]))
      case (Some(p), Some(ps)) => Some([p] + ps)
      case _ => None
  }

  /** Records survive being written and read back. */
  lemma {:induction false} DecodeEncode(records: seq<QAPair>)
    ensures DecodeRecords(EncodeRecords(records)) == Some(records)
  {
    if records != [] {
      var p := records[0];
      var e := EncodeRecord(p);
      assert e.fields.Keys == {QuestionKey, AnswerKey};
      assert DecodeRecord(e) == Some(p);
      DecodeEncode(records[1..]);
      var items := EncodeRecords(records);
      assert items[0] == e;
      assert items[1..] == EncodeRecords(records[1..]);
      assert DecodeRecords(items) == Some([p] + records[1..]);
      assert [p] + records[1..] == records;
    }
  }

  /** A list that reads as records is exactly their encoding. */
  lemma {:induction false} EncodeDecode(items: seq<Json>)
    requires DecodeRecords(items).Some?
    ensures EncodeRecords(DecodeRecords(items).value) == items
  {
    if items != [] {
      EncodeDecode(items[1..]);
      var ps := DecodeRecords(items).value;
      assert ps[1..] == DecodeRecords(items[1..]).value;
    }
  }

  /** The records of a structurally valid knowledge base, if its list holds
      records only. */
  function RecordsOf(kb: map<string, Json>): Option<seq<QAPair>>
    requires HasValidStructure(kb)
  {
    DecodeRecords(kb[QuestionKey].items)
  }

  /** The document saved for `records`: the loaded dictionary with its
      `question` list replaced; every other top-level entry is kept. */
  function WithRecords(kb: map<string, Json>, records: seq<QAPair>): (r: map<string, Json>)
    ensures HasValidStructure(r) && |r[QuestionKey].items| == |records|
    ensures r.Keys == kb.Keys + {QuestionKey}
    ensures forall k :: k in kb && k != QuestionKey ==> r[k] == kb[k]
  {
    kb[QuestionKey := JArray(EncodeRecords(records))]
  }

  /** A saved document loads back without error, to itself, and holds the
      records that were saved. */
  lemma SaveThenLoad(kb: map<string, Json>, records: seq<QAPair>)
    ensures var doc := WithRecords(kb, records);
            && LoadKnowledgeBase(Parsed(doc)) == Loaded(doc, None)
            && RecordsOf(doc) == Some(records)
            && forall k :: k in kb && k != QuestionKey ==> k in doc && doc[k] == kb[k]
  {
    DecodeEncode(records);
  }

  /** Re-encoding the records of a loaded knowledge base gives back the
      knowledge base itself. */
  lemma WithOwnRecords(kb: map<string, Json>)
    requires HasValidStructure(kb) && RecordsOf(kb).Some?
    ensures WithRecords(kb, RecordsOf(kb).value) == kb
  {
    EncodeDecode(kb[QuestionKey].items);
  }
}
