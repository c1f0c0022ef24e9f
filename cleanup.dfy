/**
  The cleanup of the batch results (`clean_openapi_responses` in
  batch_cleanup.py): every line of every result file is a response record;
  the assistant's answer is dug out of it with a chain of `.get` calls with
  defaults, parsed, and merged into one dictionary, later answers overwriting
  earlier ones key by key. Any line that fails aborts the whole run.
 */
module Cleanup {
  import opened Wrappers
  import opened Dicts
  import Text

  /** A JSON value as `json.loads` returns it. */
  datatype Json =
    | JNull
    | JBool(b: bool)
    | JNum(n: int)
    | JStr(s: string)
    | JArr(items: seq<Json>)
    | JObj(fields: Dict<string, Json>)

  /** The Python exceptions the cleanup can raise. */
  datatype PyError =
    | AttributeError  // `.get` or `.items` on something that is not a dict
    | IndexError      // `[0]` on an empty list or string
    | KeyError        // `[0]` on a dict, whose keys are strings
    | TypeError       // `[0]` on a number, boolean or None; `json.loads` of a non-string
    | DecodeError     // `json.loads` of text that is not JSON
    | NotAMapping     // `dict.update` with parsed content that is not an object

  /** `o.get(key, default)`. */
  function Get(o: Json, key: string, default: Json): (r: Result<Json, PyError>)
    ensures r.Success? <==> o.JObj?
    ensures r.Failure? ==> r.error == AttributeError
    ensures o.JObj? && key !in Keys(o.fields) ==> r == Success(default)
    ensures o.JObj? && key in Keys(o.fields) ==> (key, r.value) in o.fields
  {
    match o
    case JObj(fields) => Success(Lookup(fields, key).GetOr(default))
    case _ => Failure(AttributeError)
  }

  /** `o[0]`. */
  function Index0(o: Json): (r: Result<Json, PyError>)
    ensures o.JArr? && o.items != [] ==> r == Success(o.items[0])
    ensures o.JStr? && o.s != [] ==> r == Success(JStr([o.s[0]]))
    ensures (o.JArr? && o.items == []) || (o.JStr? && o.s == []) ==> r == Failure(IndexError)
    ensures o.JObj? ==> r == Failure(KeyError)
    ensures o.JNull? || o.JBool? || o.JNum? ==> r == Failure(TypeError)
  {
    match o
    case JArr(items) => if items == [] then Failure(IndexError) else Success(items[0])
    case JStr(s) => if s == [] then Failure(IndexError) else Success(JStr([s[0]]))
    case JObj(_) => Failure(KeyError)
    case _ => Failure(TypeError)
  }

  /** An object with no fields, `{}`. */
  const Empty: Json := JObj([])

  /**
    `response.get("response", {}).get("body", {}).get("choices", [{}])[0]
    .get("message", {}).get("content", "")`.
   */
  function ExtractContent(record: Json): (r: Result<Json, PyError>)
    // a record without a response, or a response without a body, has empty content
    ensures record.JObj? && "response" !in Keys(record.fields) ==> r == Success(JStr(""))
    ensures record.JObj? && Lookup(record.fields, "response") == Some(Empty) ==> r == Success(JStr(""))
    // a record that is not an object fails at the first `.get`
    ensures !record.JObj? ==> r == Failure(AttributeError)
    // an empty `choices` list fails at `[0]`
    ensures (record.JObj? && Lookup(record.fields, "response") == Some(JObj([("body", JObj([("choices", JArr([]))]))])))
            ==> r == Failure(IndexError)
  {
    var response :- Get(record, "response", Empty);
    var body :- Get(response, "body", Empty);
    var choices :- Get(body, "choices", JArr([Empty]));
    var first :- Index0(choices);
    var message :- Get(first, "message", Empty);
    Get(message, "content", JStr(""))
  }

  /** The record `{"response": {"body": {"choices": [{"message": {"content": content}}]}}}`. */
  function Record(content: Json): Json {
    JObj([("response", JObj([("body", JObj([("choices", JArr([JObj([("message", JObj([("content", content)]))])]))]))]))])
  }

  /** The extraction finds the content of a record of the expected shape. */
  lemma ExtractRecord(content: Json)
    ensures ExtractContent(Record(content)) == Success(content)
  {
    var message := JObj([("content", content)]);
    var first := JObj([("message", message)]);
    var body := JObj([("choices", JArr([first]))]);
    var response := JObj([("body", body)]);
    assert Keys(Record(content).fields) == ["response"];
    assert Keys(response.fields) == ["body"];
    assert Keys(body.fields) == ["choices"];
    assert Keys(first.fields) == ["message"];
    assert Keys(message.fields) == ["content"];
  }

  /** `o` is an object whose field `key` holds `v`. */
  ghost predicate At(o: Json, key: string, v: Json) {
    o.JObj? && Lookup(o.fields, key) == Some(v)
  }

  /** `o` is an object without a field `key`. */
  ghost predicate Lacks(o: Json, key: string) {
    o.JObj? && key !in Keys(o.fields)
  }

  /**
    The extraction on any record, level by level along
    `response.body.choices[0].message.content`. A missing level gives the
    empty content; an empty `choices` list (or string) raises IndexError.
    A level that is there but is not an object raises AttributeError at
    its `.get`; `choices` that is an object raises KeyError at `[0]`, and
    one that is a number, boolean or null raises TypeError. A full path
    gives its content.
   */
  lemma ExtractContentPath(record: Json, response: Json, body: Json, choices: Json, message: Json, content: Json)
    ensures !record.JObj? ==> ExtractContent(record) == Failure(AttributeError)
    ensures Lacks(record, "response") ==> ExtractContent(record) == Success(JStr(""))
    ensures At(record, "response", response) ==>
              && (!response.JObj? ==> ExtractContent(record) == Failure(AttributeError))
              && (Lacks(response, "body") ==> ExtractContent(record) == Success(JStr("")))
    ensures At(record, "response", response) && At(response, "body", body) ==>
              && (!body.JObj? ==> ExtractContent(record) == Failure(AttributeError))
              && (Lacks(body, "choices") ==> ExtractContent(record) == Success(JStr("")))
    ensures At(record, "response", response) && At(response, "body", body) && At(body, "choices", choices) ==>
              && (choices == JArr([]) || choices == JStr("") ==> ExtractContent(record) == Failure(IndexError))
              && (choices.JObj? ==> ExtractContent(record) == Failure(KeyError))
              && (choices.JNull? || choices.JBool? || choices.JNum? ==> ExtractContent(record) == Failure(TypeError))
              && (choices.JStr? && choices.s != [] ==> ExtractContent(record) == Failure(AttributeError))
    ensures At(record, "response", response) && At(response, "body", body) && At(body, "choices", choices)
            && choices.JArr? && choices.items != [] ==>
              var first := choices.items[0];
              && (!first.JObj? ==> ExtractContent(record) == Failure(AttributeError))
              && (Lacks(first, "message") ==> ExtractContent(record) == Success(JStr("")))
              && (At(first, "message", message) ==>
                    && (!message.JObj? ==> ExtractContent(record) == Failure(AttributeError))
                    && (Lacks(message, "content") ==> ExtractContent(record) == Success(JStr("")))
                    && (At(message, "content", content) ==> ExtractContent(record) == Success(content)))
  {
    if At(record, "response", response) && At(response, "body", body) {
      ExtractFromBody(record, response, body);
      if At(body, "choices", choices) {
        ExtractFromChoices(record, response, body, choices);
        if choices.JArr? && choices.items != [] {
          ExtractFromFirst(record, response, body, choices, message, content);
        }
      }
    }
  }

  /** The content of a record is that of its response's body. */
  lemma ExtractFromBody(record: Json, response: Json, body: Json)
    requires At(record, "response", response) && At(response, "body", body)
    ensures ExtractContent(record) == ExtractContent(JObj([("response", JObj([("body", body)]))]))
  {
    assert Keys([("response", JObj([("body", body)]))]) == ["response"];
    assert Keys([("body", body)]) == ["body"];
  }

  /** The content of a body is determined by its `choices`. */
  lemma ExtractFromChoices(record: Json, response: Json, body: Json, choices: Json)
    requires At(record, "response", response) && At(response, "body", body) && At(body, "choices", choices)
    ensures && (choices == JArr([]) || choices == JStr("") ==> ExtractContent(record) == Failure(IndexError))
            && (choices.JObj? ==> ExtractContent(record) == Failure(KeyError))
            && (choices.JNull? || choices.JBool? || choices.JNum? ==> ExtractContent(record) == Failure(TypeError))
            && (choices.JStr? && choices.s != [] ==> ExtractContent(record) == Failure(AttributeError))
  {
  }

  /** The content of a non-empty `choices` list is that of its first element. */
  lemma ExtractFromFirst(record: Json, response: Json, body: Json, choices: Json, message: Json, content: Json)
    requires At(record, "response", response) && At(response, "body", body) && At(body, "choices", choices)
    requires choices.JArr? && choices.items != []
    ensures var first := choices.items[0];
            && (!first.JObj? ==> ExtractContent(record) == Failure(AttributeError))
            && (Lacks(first, "message") ==> ExtractContent(record) == Success(JStr("")))
            && (At(first, "message", message) ==>
                  && (!message.JObj? ==> ExtractContent(record) == Failure(AttributeError))
                  && (Lacks(message, "content") ==> ExtractContent(record) == Success(JStr("")))
                  && (At(message, "content", content) ==> ExtractContent(record) == Success(content)))
  {
  }

  /** Any missing level of the nesting yields the empty content, which `json.loads` then rejects. */
  lemma ExtractDefaults()
    ensures ExtractContent(JObj([])) == Success(JStr(""))
    ensures ExtractContent(JObj([("response", JObj([("body", JObj([]))]))])) == Success(JStr(""))
    ensures ExtractContent(JObj([("response", JObj([("body", JObj([("choices", JArr([JObj([])]))]))]))]))
         == Success(JStr(""))
    ensures ExtractContent(Record(JNull)) == Success(JNull)
  {
    var b := JObj([]);
    assert Keys(b.fields) == [];
    assert Keys(JObj([("body", b)]).fields) == ["body"];
    assert Keys(JObj([("response", JObj([("body", b)]))]).fields) == ["response"];
    var c := JObj([("choices", JArr([JObj([])]))]);
    assert Keys(c.fields) == ["choices"];
    assert Keys(JObj([("body", c)]).fields) == ["body"];
    assert Keys(JObj([("response", JObj([("body", c)]))]).fields) == ["response"];
    ExtractRecord(JNull);
  }

  /** Localization key to the object of translations for it. */
  type Answers = Dict<string, Json>

  /**
    The text of the content must parse to an object: `json.loads` of a
    value that is not a string is a TypeError, of text that is not JSON a
    decode error.
   */
  function ParseContent(content: Json, parse: string -> Option<Json>): (r: Result<Answers, PyError>)
    ensures r.Success? <==> content.JStr? && parse(content.s).Some? && parse(content.s).value.JObj?
    ensures r.Success? ==> parse(content.s) == Some(JObj(r.value))
    ensures !content.JStr? ==> r == Failure(TypeError)
    ensures content.JStr? && parse(content.s).None? ==> r == Failure(DecodeError)
  {
    if !content.JStr? then Failure(TypeError)
    else
      match parse(content.s)
      case None => Failure(DecodeError)
      case Some(JObj(fields)) => Success(fields)
      case Some(_) => Failure(NotAMapping)
  }

  /** The answers one result line contributes: `json.loads(line.strip())`, extraction, `json.loads(content)`. */
  function LineAnswers(line: string, parse: string -> Option<Json>): Result<Answers, PyError> {
    match parse(Text.Strip(line))
    case None => Failure(DecodeError)
    case Some(record) =>
      var content :- ExtractContent(record);
      ParseContent(content, parse)
  }

  /**
    A line contributes the answers `a` exactly when its stripped text
    parses to a record whose content is text that parses to the object `a`;
    a line whose stripped text does not parse fails with a decode error.
   */
  lemma LineAnswersCorrect(line: string, parse: string -> Option<Json>, a: Answers)
    ensures LineAnswers(line, parse) == Success(a)
        <==> exists record, text :: parse(Text.Strip(line)) == Some(record)
                                 && ExtractContent(record) == Success(JStr(text))
                                 && parse(text) == Some(JObj(a))
    ensures parse(Text.Strip(line)).None? ==> LineAnswers(line, parse) == Failure(DecodeError)
  {
    if LineAnswers(line, parse) == Success(a) {
      var record := parse(Text.Strip(line)).value;
      var text := ExtractContent(record).value.s;
      assert ExtractContent(record) == Success(JStr(text));
    }
  }

  /** The answers of all lines, in order, or the error of the first line that fails. */
  function ParseLines(lines: seq<string>, parse: string -> Option<Json>): (r: Result<seq<Answers>, PyError>)
    ensures r.Success? ==> |r.value| == |lines|
  {
    if lines == [] then Success([])
    else
      var n := |lines| - 1;
      var before := ParseLines(lines[..n], parse);
      if before.Failure? then Failure(before.error)
      else
        match LineAnswers(lines[n], parse)
        case Failure(e) => Failure(e)
        case Success(a) => Success(before.value + [a])
  }

  /** Parsed lines give, in order, the answers of each line. */
  lemma {:induction false} ParseLinesValues(lines: seq<string>, parse: string -> Option<Json>)
    requires ParseLines(lines, parse).Success?
    ensures forall i :: 0 <= i < |lines| ==> LineAnswers(lines[i], parse) == Success(ParseLines(lines, parse).value[i])
  {
    if lines != [] {
      var n := |lines| - 1;
      var pre := lines[..n];
      ParseLinesValues(pre, parse);
      var v := ParseLines(pre, parse).value;
      var a := LineAnswers(lines[n], parse).value;
      assert ParseLines(lines, parse).value == v + [a];
      forall i | 0 <= i < n
        ensures LineAnswers(lines[i], parse) == Success((v + [a])[i])
      {
        assert pre[i] == lines[i] && (v + [a])[i] == v[i];
      }
    }
  }

  /** A failure is the error of the first line that fails. */
  lemma {:induction false} ParseLinesError(lines: seq<string>, parse: string -> Option<Json>)
    requires ParseLines(lines, parse).Failure?
    ensures exists i :: 0 <= i < |lines| && LineAnswers(lines[i], parse) == Failure(ParseLines(lines, parse).error)
                     && forall j :: 0 <= j < i ==> LineAnswers(lines[j], parse).Success?
  {
    var n := |lines| - 1;
    var pre := lines[..n];
    var before := ParseLines(pre, parse);
    if before.Failure? {
      ParseLinesError(pre, parse);
      var i :| 0 <= i < n && LineAnswers(pre[i], parse) == Failure(before.error)
             && forall j :: 0 <= j < i ==> LineAnswers(pre[j], parse).Success?;
      assert forall j :: 0 <= j <= i ==> pre[j] == lines[j];
      assert LineAnswers(lines[i], parse) == Failure(before.error);
    } else {
      ParseLinesValues(pre, parse);
      assert forall j :: 0 <= j < n ==> pre[j] == lines[j];
      assert LineAnswers(lines[n], parse) == Failure(ParseLines(lines, parse).error);
    }
  }

  /**
    The lines parse exactly when each of them does; the answers are those of
    the lines, and a failure is that of the first line that fails.
   */
  lemma ParseLinesCorrect(lines: seq<string>, parse: string -> Option<Json>)
    ensures var r := ParseLines(lines, parse);
            && (r.Success? <==> forall i :: 0 <= i < |lines| ==> LineAnswers(lines[i], parse).Success?)
            && (r.Success? ==> forall i :: 0 <= i < |lines| ==> LineAnswers(lines[i], parse) == Success(r.value[i]))
            && (r.Failure? ==> exists i :: 0 <= i < |lines| && LineAnswers(lines[i], parse) == Failure(r.error)
                                        && forall j :: 0 <= j < i ==> LineAnswers(lines[j], parse).Success?)
  {
    if ParseLines(lines, parse).Success? {
      ParseLinesValues(lines, parse);
    } else {
      ParseLinesError(lines, parse);
    }
  }

  /** `cleaned_responses.update(...)` over all answers, in order. */
  function MergeAll(answers: seq<Answers>): Answers {
    if answers == [] then []
    else Update(MergeAll(answers[..|answers| - 1]), answers[|answers| - 1])
  }

  /** The cleanup's result: the merge of all answers, or the first error. */
  function CleanAll(files: seq<seq<string>>, parse: string -> Option<Json>): Result<Answers, PyError> {
    var answers :- ParseLines(Concat(files), parse);
    Success(MergeAll(answers))
  }

  lemma MergeAllLast(answers: seq<Answers>)
    requires answers != []
    ensures MergeAll(answers) == Update(MergeAll(answers[..|answers| - 1]), answers[|answers| - 1])
  {
  }

  lemma MergeAllSnoc(answers: seq<Answers>, a: Answers)
    ensures MergeAll(answers + [a]) == Update(MergeAll(answers), a)
  {
    assert (answers + [a])[..|answers|] == answers;
  }

  /** A key is in the merge exactly when it is in some answer. */
  lemma MergeKeysStep(answers: seq<Answers>, pre: seq<Answers>, m: Answers, r: Answers, k: string)
    requires answers != [] && pre == answers[..|answers| - 1]
    requires k in Keys(m) <==> exists i :: 0 <= i < |pre| && k in Keys(pre[i])
    requires k in Keys(r) <==> k in Keys(m) || k in Keys(answers[|answers| - 1])
    ensures k in Keys(r) <==> exists i :: 0 <= i < |answers| && k in Keys(answers[i])
  {
    if k in Keys(m) {
      var i :| 0 <= i < |pre| && k in Keys(pre[i]);
      assert pre[i] == answers[i];
    }
    if exists i :: 0 <= i < |answers| && k in Keys(answers[i]) {
      var i :| 0 <= i < |answers| && k in Keys(answers[i]);
      if i < |pre| {
        assert pre[i] == answers[i];
      }
    }
  }

  lemma {:induction false} MergeAllKeys(answers: seq<Answers>, k: string)
    ensures k in Keys(MergeAll(answers)) <==> exists i :: 0 <= i < |answers| && k in Keys(answers[i])
  {
    if answers != [] {
      var pre := answers[..|answers| - 1];
      MergeAllLast(answers);
      MergeAllKeys(pre, k);
      MergeKeysStep(answers, pre, MergeAll(pre), MergeAll(answers), k);
    }
  }

  /** The merge is a dictionary: every key once. */
  lemma {:induction false} MergeAllDistinct(answers: seq<Answers>)
    ensures DistinctKeys(MergeAll(answers))
  {
    if answers != [] {
      MergeAllDistinct(answers[..|answers| - 1]);
    }
  }

  /** Each answer is a dictionary (as parsed JSON objects are). */
  ghost predicate AllDistinct(answers: seq<Answers>) {
    forall i :: 0 <= i < |answers| ==> DistinctKeys(answers[i])
  }

  /** Last write wins: a key takes its value from the last answer that has it. */
  lemma {:induction false} MergeAllLastWins(answers: seq<Answers>, k: string, i: nat)
    requires AllDistinct(answers)
    requires i < |answers| && k in Keys(answers[i])
    requires forall j :: i < j < |answers| ==> k !in Keys(answers[j])
    ensures Lookup(MergeAll(answers), k) == Lookup(answers[i], k)
  {
    var n := |answers| - 1;
    MergeAllLast(answers);
    UpdateLookup(MergeAll(answers[..n]), answers[n], k);
    if i < n {
      MergeAllLastWins(answers[..n], k, i);
    }
  }

  /** The answers have pairwise disjoint key sets. */
  ghost predicate Disjoint(answers: seq<Answers>) {
    forall i, j, k :: 0 <= i < j < |answers| && k in Keys(answers[i]) ==> k !in Keys(answers[j])
  }

  lemma LookupDisjoint(answers: seq<Answers>, k: string, i: nat)
    requires AllDistinct(answers) && Disjoint(answers)
    requires i < |answers| && k in Keys(answers[i])
    ensures Lookup(MergeAll(answers), k) == Lookup(answers[i], k)
  {
    MergeAllLastWins(answers, k, i);
  }

  /** For answers with disjoint keys, the order they come in does not change the merged mapping. */
  lemma MergeAllOrderIrrelevant(a: seq<Answers>, b: seq<Answers>)
    requires multiset(a) == multiset(b)
    requires AllDistinct(a) && AllDistinct(b) && Disjoint(a) && Disjoint(b)
    ensures ToMap(MergeAll(a)) == ToMap(MergeAll(b))
  {
    var ma, mb := ToMap(MergeAll(a)), ToMap(MergeAll(b));
    forall k ensures k in ma <==> k in mb {
      MergeAllKeys(a, k);
      MergeAllKeys(b, k);
      if k in ma {
        var i :| 0 <= i < |a| && k in Keys(a[i]);
        assert a[i] in multiset(b);
      }
      if k in mb {
        var j :| 0 <= j < |b| && k in Keys(b[j]);
        assert b[j] in multiset(a);
      }
    }
    forall k | k in ma ensures ma[k] == mb[k] {
      MergeAllKeys(a, k);
      var i :| 0 <= i < |a| && k in Keys(a[i]);
      assert a[i] in multiset(b);
      var j :| 0 <= j < |b| && b[j] == a[i];
      LookupDisjoint(a, k, i);
      LookupDisjoint(b, k, j);
    }
  }

  lemma ConcatSnoc(files: seq<seq<string>>, i: nat)
    requires i < |files|
    ensures Concat(files[..i + 1]) == Concat(files[..i]) + files[i]
  {
    assert files[..i + 1] == files[..i] + [files[i]];
    ConcatAppend(files[..i], [files[i]]);
    assert [files[i]][1..] == [];
  }

  /** The answers of one more line: a success extends the answers, a failure is the result. */
  lemma ParseLinesSnoc(lines: seq<string>, line: string, parse: string -> Option<Json>)
    requires ParseLines(lines, parse).Success?
    ensures ParseLines(lines + [line], parse)
         == match LineAnswers(line, parse)
            case Failure(e) => Failure(e)
            case Success(a) => Success(ParseLines(lines, parse).value + [a])
  {
    assert (lines + [line])[..|lines|] == lines;
  }

  /** Once a prefix of the lines fails, the whole fails with the same error. */
  lemma {:induction false} ParseLinesFailed(a: seq<string>, b: seq<string>, parse: string -> Option<Json>)
    requires ParseLines(a, parse).Failure?
    ensures ParseLines(a + b, parse) == ParseLines(a, parse)
    decreases |b|
  {
    if b == [] {
      assert a + b == a;
    } else {
      var n := |b| - 1;
      ParseLinesFailed(a, b[..n], parse);
      assert (a + b)[..|a + b| - 1] == a + b[..n];
    }
  }

  /** The lines of all files, split just after line `j` of file `i`. */
  lemma ConcatAt(files: seq<seq<string>>, i: nat, j: nat)
    requires i < |files| && j < |files[i]|
    ensures Concat(files) == (Concat(files[..i]) + files[i][..j + 1]) + (files[i][j + 1..] + Concat(files[i + 1..]))
  {
    assert files == files[..i] + files[i..];
    ConcatAppend(files[..i], files[i..]);
    assert files[i..][1..] == files[i + 1..];
    assert files[i] == files[i][..j + 1] + files[i][j + 1..];
  }

  /** No partial result: a single line that fails, anywhere, makes the whole cleanup fail. */
  lemma LineFailureFatal(files: seq<seq<string>>, parse: string -> Option<Json>, i: nat, j: nat)
    requires i < |files| && j < |files[i]| && LineAnswers(files[i][j], parse).Failure?
    ensures CleanAll(files, parse).Failure?
  {
    ConcatAt(files, i, j);
    ParseLinesCorrect(Concat(files), parse);
    var k := |Concat(files[..i])| + j;
    assert Concat(files)[k] == files[i][j];
  }

  /** A record whose content defaults to "" fails, as `json.loads("")` raises. */
  lemma EmptyContentFails(line: string, record: Json, parse: string -> Option<Json>)
    requires parse(Text.Strip(line)) == Some(record) && ExtractContent(record) == Success(JStr(""))
    requires parse("") == None
    ensures LineAnswers(line, parse) == Failure(DecodeError)
  {
  }

  /** A line that fails makes the whole run fail with its error. */
  lemma FailsHere(files: seq<seq<string>>, i: nat, j: nat, parse: string -> Option<Json>)
    requires i < |files| && j < |files[i]|
    requires ParseLines(Concat(files[..i]) + files[i][..j + 1], parse).Failure?
    ensures CleanAll(files, parse) == Failure(ParseLines(Concat(files[..i]) + files[i][..j + 1], parse).error)
  {
    ConcatAt(files, i, j);
    ParseLinesFailed(Concat(files[..i]) + files[i][..j + 1], files[i][j + 1..] + Concat(files[i + 1..]), parse);
  }

  lemma AllFiles(files: seq<seq<string>>)
    ensures files[..|files|] == files
  {
  }

  /**
    `clean_openapi_responses`: for each file, for each line, parse it, dig
    out the content, parse that and merge it in; the first failure ends the
    run with no result.
   */
  method CleanResponses(files: seq<seq<string>>, parse: string -> Option<Json>) returns (r: Result<Answers, PyError>)
    ensures r == CleanAll(files, parse)
    ensures r.Success? ==> DistinctKeys(r.value)
  {
    var cleaned: Answers := [];
    ghost var answers: seq<Answers> := [];
    for i := 0 to |files|
      invariant ParseLines(Concat(files[..i]), parse) == Success(answers)
      invariant cleaned == MergeAll(answers)
    {
      ghost var start := Concat(files[..i]);
      SliceNone(start, files[i]);
      for j := 0 to |files[i]|
        invariant ParseLines(start + files[i][..j], parse) == Success(answers)
        invariant cleaned == MergeAll(answers)
      {
        ghost var seen := start + files[i][..j];
        SnocSlice(start, files[i], j);
        ParseLinesSnoc(seen, files[i][j], parse);
        var response := parse(Text.Strip(files[i][j]));
        if response.None? {
          FailsHere(files, i, j, parse);
          return Failure(DecodeError);
        }
        var content := ExtractContent(response.value);
        if content.Failure? {
          FailsHere(files, i, j, parse);
          return Failure(content.error);
        }
        var answer := ParseContent(content.value, parse);
        if answer.Failure? {
          FailsHere(files, i, j, parse);
          return Failure(answer.error);
        }
        MergeAllSnoc(answers, answer.value);
        cleaned := Update(cleaned, answer.value);
        answers := answers + [answer.value];
      }
      SliceAll(start, files[i]);
      ConcatSnoc(files, i);
    }
    AllFiles(files);
    MergeAllDistinct(answers);
    return Success(cleaned);
  }
}
