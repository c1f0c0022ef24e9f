/**
  From the grouped localization entries to the batch job files (the
  top-level loop of main.py): each category's entries are cut into chunks of
  at most 50, every chunk becomes one chat-completion request numbered within
  its category, and the requests of a category go into one job file named
  after the category and the sorted language list.
 */
module Batching {
  import opened Wrappers
  import opened Dicts
  import opened Text
  import opened Grouping

  /** A request carries at most this many localization strings. */
  const ChunkSize := 50

  /**
    `chunks` cuts `entries` into pieces of 1 to ChunkSize entries, all full
    but the last, which concatenated in order give back `entries`.
   */
  ghost predicate IsChunking(chunks: seq<Entries>, entries: Entries) {
    && (forall i :: 0 <= i < |chunks| ==> 1 <= |chunks[i]| <= ChunkSize)
    && (forall i :: 0 <= i < |chunks| - 1 ==> |chunks[i]| == ChunkSize)
    && Concat(chunks) == entries
  }

  /** The state of the chunking loop: the chunks emitted so far and the one being filled. */
  datatype Fill = Fill(full: seq<Entries>, open: Entries)

  /** One entry into the open chunk, which is emitted once it is ChunkSize long. */
  function FillStep(st: Fill, p: (string, string)): Fill {
    var open := Set(st.open, p.0, p.1);
    if |open| >= ChunkSize then Fill(st.full + [open], []) else Fill(st.full, open)
  }

  /** The loop state after the entries `e`, starting from `st`. */
  function FillFrom(st: Fill, e: Entries): Fill {
    if e == [] then st
    else FillStep(FillFrom(st, e[..|e| - 1]), e[|e| - 1])
  }

  /** The loop state after the entries `e`, starting with nothing. */
  function FillAll(e: Entries): Fill {
    FillFrom(Fill([], []), e)
  }

  /** The chunks of `e`: those emitted by the loop, then the open one unless it is empty. */
  function Chunks(e: Entries): seq<Entries> {
    var st := FillAll(e);
    if |st.open| > 0 then st.full + [st.open] else st.full
  }

  lemma FillFromSnoc(st: Fill, e: Entries, p: (string, string))
    ensures FillFrom(st, e + [p]) == FillStep(FillFrom(st, e), p)
  {
    assert (e + [p])[..|e|] == e;
  }

  /** Filling with `a + b` is filling with `a`, then with `b`. */
  lemma {:induction false} FillFromAppend(st: Fill, a: Entries, b: Entries)
    ensures FillFrom(st, a + b) == FillFrom(FillFrom(st, a), b)
  {
    if b == [] {
      assert a + b == a;
    } else {
      var n := |b| - 1;
      assert a + b == (a + b[..n]) + [b[n]];
      assert b == b[..n] + [b[n]];
      FillFromAppend(st, a, b[..n]);
      FillFromSnoc(st, a + b[..n], b[n]);
      FillFromSnoc(FillFrom(st, a), b[..n], b[n]);
    }
  }

  lemma ConcatOne(b: Entries)
    ensures Concat([b]) == b
  {
    assert [b][1..] == [];
  }

  /** An entry whose key the open chunk lacks is appended to it. */
  lemma FillStepFresh(st: Fill, p: (string, string))
    requires p.0 !in Keys(st.open)
    ensures FillStep(st, p) == if |st.open| + 1 >= ChunkSize then Fill(st.full + [st.open + [p]], [])
                               else Fill(st.full, st.open + [p])
  {
  }

  /** The last key of a sequence with distinct keys is not among the earlier ones. */
  lemma LastKeyFresh(e: Entries)
    requires e != [] && DistinctKeys(e)
    ensures DistinctKeys(e[..|e| - 1])
    ensures e[|e| - 1].0 !in Keys(e[..|e| - 1])
  {
    var n := |e| - 1;
    var pre := e[..n];
    assert Keys(pre) == Keys(e)[..n];
    forall j | 0 <= j < n ensures Keys(pre)[j] != e[n].0 {
      assert Keys(e)[n] == e[n].0;
    }
  }

  /** What the loop keeps: full chunks, a short open one, and the entries so far in order. */
  ghost predicate FillInvariant(st: Fill, e: Entries) {
    && (forall i :: 0 <= i < |st.full| ==> |st.full[i]| == ChunkSize)
    && |st.open| < ChunkSize
    && Concat(st.full) + st.open == e
    && |e| == ChunkSize * |st.full| + |st.open|
  }

  /** An entry that fills the open chunk: the chunk is emitted and a new one opened. */
  lemma FillEmitKeeps(full: seq<Entries>, open: Entries, e: Entries, p: (string, string))
    requires FillInvariant(Fill(full, open), e) && |open| + 1 >= ChunkSize
    ensures FillInvariant(Fill(full + [open + [p]], []), e + [p])
  {
    ConcatAppend(full, [open + [p]]);
    ConcatOne(open + [p]);
    assert Concat(full) + (open + [p]) == e + [p];
    assert Concat(full + [open + [p]]) + [] == Concat(full + [open + [p]]);
  }

  /** An entry that leaves the open chunk short: it is appended to it. */
  lemma FillOpenKeeps(full: seq<Entries>, open: Entries, e: Entries, p: (string, string))
    requires FillInvariant(Fill(full, open), e) && |open| + 1 < ChunkSize
    ensures FillInvariant(Fill(full, open + [p]), e + [p])
  {
    assert Concat(full) + (open + [p]) == e + [p];
  }

  /** One entry with a fresh key keeps the invariant. */
  lemma FillStepKeeps(st: Fill, e: Entries, p: (string, string))
    requires FillInvariant(st, e) && p.0 !in Keys(e)
    ensures FillInvariant(FillStep(st, p), e + [p])
  {
    assert p.0 !in Keys(st.open) by {
      KeysAppend(Concat(st.full), st.open);
    }
    FillStepFresh(st, p);
    if |st.open| + 1 >= ChunkSize {
      FillEmitKeeps(st.full, st.open, e, p);
    } else {
      FillOpenKeeps(st.full, st.open, e, p);
    }
  }

  lemma {:induction false} FillAllInvariant(e: Entries)
    requires DistinctKeys(e)
    ensures FillInvariant(FillAll(e), e)
  {
    if e != [] {
      var n := |e| - 1;
      var pre, p := e[..n], e[n];
      assert e == pre + [p];
      LastKeyFresh(e);
      FillAllInvariant(pre);
      FillFromSnoc(Fill([], []), pre, p);
      FillStepKeeps(FillAll(pre), pre, p);
    }
  }

  /** With distinct keys, the loop's chunks are a chunking of its input. */
  lemma ChunksCorrect(e: Entries)
    requires DistinctKeys(e)
    ensures IsChunking(Chunks(e), e)
  {
    FillAllInvariant(e);
    var st := FillAll(e);
    if |st.open| > 0 {
      ConcatAppend(st.full, [st.open]);
      ConcatOne(st.open);
    }
  }

  /** The number of chunks is the entry count divided by ChunkSize, rounded up. */
  lemma ChunkCount(e: Entries)
    requires DistinctKeys(e)
    ensures |Chunks(e)| == (|e| + ChunkSize - 1) / ChunkSize
  {
    FillAllInvariant(e);
  }

  lemma FlattenSnoc(fs: Features, i: nat)
    requires i < |fs|
    ensures Flatten(fs[..i + 1]) == Flatten(fs[..i]) + fs[i].1
  {
    assert fs[..i + 1] == fs[..i] + [fs[i]];
    FlattenAppend(fs[..i], [fs[i]]);
    FlattenCons(fs[i], []);
    assert [fs[i]] + [] == [fs[i]];
  }

  lemma FillSliceStep(start: Fill, lines: Entries, j: nat)
    requires j < |lines|
    ensures FillFrom(start, lines[..j + 1]) == FillStep(FillFrom(start, lines[..j]), lines[j])
  {
    assert lines[..j + 1] == lines[..j] + [lines[j]];
    FillFromSnoc(start, lines[..j], lines[j]);
  }

  lemma FillFeatureStep(features: Features, i: nat, start: Fill, lines: Entries, j: nat)
    requires i < |features| && lines == features[i].1 && j == |lines|
    requires start == FillAll(Flatten(features[..i]))
    ensures FillFrom(start, lines[..j]) == FillAll(Flatten(features[..i + 1]))
  {
    assert lines[..j] == lines;
    FillFromAppend(Fill([], []), Flatten(features[..i]), lines);
    FlattenSnoc(features, i);
  }

  lemma FillFeaturesEnd(features: Features)
    ensures Flatten(features[..|features|]) == Flatten(features)
  {
    assert features[..|features|] == features;
  }

  /**
    The chunking loop of one category: every entry of every feature goes
    into the open chunk, which is emitted at ChunkSize entries; a non-empty
    remainder is emitted last.
   */
  method ChunkCategory(features: Features) returns (taskLines: seq<Entries>)
    ensures taskLines == Chunks(Flatten(features))
    ensures DistinctKeys(Flatten(features)) ==> IsChunking(taskLines, Flatten(features))
  {
    taskLines := [];
    var batched: Entries := [];
    var i := 0;
    while i < |features|
      invariant 0 <= i <= |features|
      invariant Fill(taskLines, batched) == FillAll(Flatten(features[..i]))
    {
      var lines := features[i].1;
      ghost var start := Fill(taskLines, batched);
      var j := 0;
      while j < |lines|
        invariant 0 <= j <= |lines|
        invariant Fill(taskLines, batched) == FillFrom(start, lines[..j])
      {
        FillSliceStep(start, lines, j);
        batched := Set(batched, lines[j].0, lines[j].1);
        if |batched| >= ChunkSize {
          taskLines := taskLines + [batched];
          batched := [];
        }
        j := j + 1;
      }
      FillFeatureStep(features, i, start, lines, j);
      i := i + 1;
    }
    FillFeaturesEnd(features);
    if |batched| > 0 {
      taskLines := taskLines + [batched];
    }
    if DistinctKeys(Flatten(features)) {
      ChunksCorrect(Flatten(features));
    }
  }


  /** The three parts of a request's `custom_id`: category, request number and clock reading. */
  datatype CustomId = CustomId(category: string, index: nat, stamp: int)

  /** The user message before it is serialised: the language codes wanted and the chunk to translate. */
  datatype UserPayload = UserPayload(requested: seq<string>, data: Entries)

  datatype Content = Text(text: string) | Payload(payload: UserPayload)

  datatype Message = Message(role: string, content: Content)

  datatype RequestBody = RequestBody(
    model: string,
    temperature: real,
    maxTokens: nat,
    responseFormat: string,
    messages: seq<Message>)

  /** One line of a job file. */
  datatype Request = Request(customId: CustomId, httpMethod: string, url: string, body: RequestBody)

  /** The payload of the first user message of a request, if any. */
  function UserPayloadOf(messages: seq<Message>): (r: Option<UserPayload>)
    ensures r.Some? <==> exists i :: 0 <= i < |messages| && messages[i].role == "user" && messages[i].content.Payload?
  {
    if messages == [] then None
    else if messages[0].role == "user" && messages[0].content.Payload? then Some(messages[0].content.payload)
    else
      var r := UserPayloadOf(messages[1..]);
      assert forall i :: 0 < i < |messages| ==> messages[i] == messages[1..][i - 1];
      r
  }

  /** The request for chunk number `index` of `category`. */
  function MakeRequest(category: string, index: nat, now: int, languages: seq<string>, prompt: string, chunk: Entries)
    : (r: Request)
    ensures r.customId == CustomId(category, index, now)
    ensures UserPayloadOf(r.body.messages) == Some(UserPayload(languages, chunk))
    ensures r.httpMethod == "POST" && r.url == "/v1/chat/completions"
  {
    var user := UserPayload(languages, chunk);
    var messages := [Message("system", Text(prompt)), Message("user", Payload(user))];
    assert UserPayloadOf(messages[1..]) == Some(user);
    Request(
      CustomId(category, index, now), "POST", "/v1/chat/completions",
      RequestBody("gpt-4o-2024-08-06", 0.1, 16384, "json_object", messages))
  }

  /** The requests of one category, one per chunk, numbered from 0. */
  function Requests(category: string, now: int, languages: seq<string>, prompt: string, chunks: seq<Entries>)
    : seq<Request>
  {
    seq(|chunks|, i requires 0 <= i < |chunks| => MakeRequest(category, i, now, languages, prompt, chunks[i]))
  }

  /** The chunk each request carries, in request order. */
  function ChunksOf(tasks: seq<Request>): seq<Entries>
    requires forall i :: 0 <= i < |tasks| ==> UserPayloadOf(tasks[i].body.messages).Some?
  {
    seq(|tasks|, i requires 0 <= i < |tasks| => UserPayloadOf(tasks[i].body.messages).value.data)
  }

  /** Requests carry their chunks in order, ask for the given languages and have distinct ids. */
  lemma RequestsCarryChunks(category: string, now: int, languages: seq<string>, prompt: string, chunks: seq<Entries>)
    ensures var tasks := Requests(category, now, languages, prompt, chunks);
            && |tasks| == |chunks|
            && (forall i :: 0 <= i < |tasks| ==> UserPayloadOf(tasks[i].body.messages).Some?)
            && ChunksOf(tasks) == chunks
            && (forall i :: 0 <= i < |tasks| ==> UserPayloadOf(tasks[i].body.messages).value.requested == languages)
            && (forall i, j :: 0 <= i < j < |tasks| ==> tasks[i].customId != tasks[j].customId)
  {
    var tasks := Requests(category, now, languages, prompt, chunks);
    forall i, j | 0 <= i < j < |tasks| ensures tasks[i].customId != tasks[j].customId {
      assert tasks[i].customId.index == i && tasks[j].customId.index == j;
    }
  }

  /**
    The request building loop: request number `|tasks|` for each chunk in
    turn, taking the clock reading `now` as its time stamp.
   */
  method BuildRequests(category: string, taskLines: seq<Entries>, languages: seq<string>, prompt: string, now: int)
    returns (tasks: seq<Request>)
    ensures tasks == Requests(category, now, languages, prompt, taskLines)
    ensures forall i :: 0 <= i < |tasks| ==> tasks[i].customId == CustomId(category, i, now)
    ensures forall i :: 0 <= i < |tasks| ==> UserPayloadOf(tasks[i].body.messages) == Some(UserPayload(languages, taskLines[i]))
  {
    tasks := [];
    for k := 0 to |taskLines|
      invariant tasks == Requests(category, now, languages, prompt, taskLines[..k])
    {
      tasks := tasks + [MakeRequest(category, |tasks|, now, languages, prompt, taskLines[k])];
    }
    assert taskLines[..|taskLines|] == taskLines;
  }

  /** `f"wynntils-config-translation-{category}-{'-'.join(sorted(languages))}.jsonl"`. */
  function FileName(category: string, languages: seq<string>): string {
    "wynntils-config-translation-" + category + "-" + Join("-", SortBy(languages, Id)) + ".jsonl"
  }

  /**
    The name spells the category and then the languages in code-point
    order, whatever order they were given in, each after a "-".
   */
  lemma FileNameSorted(category: string, languages: seq<string>, sorted: seq<string>)
    requires multiset(sorted) == multiset(languages) && SortedBy(sorted, Id)
    ensures FileName(category, languages)
         == "wynntils-config-translation-" + category + "-" + Join("-", sorted) + ".jsonl"
  {
    SortedUnique(SortBy(languages, Id), sorted, Id);
  }

  /** The name depends on the languages only as a collection: their order does not matter. */
  lemma FileNameIgnoresLanguageOrder(category: string, l1: seq<string>, l2: seq<string>)
    requires multiset(l1) == multiset(l2)
    ensures FileName(category, l1) == FileName(category, l2)
  {
    FileNameSorted(category, l2, SortBy(l1, Id));
  }

  /** Different categories get different files, so no category's job file overwrites another's. */
  lemma FileNameSeparatesCategories(c1: string, c2: string, languages: seq<string>)
    requires c1 != c2
    ensures FileName(c1, languages) != FileName(c2, languages)
  {
    var prefix := "wynntils-config-translation-";
    var n1, n2 := FileName(c1, languages), FileName(c2, languages);
    if |c1| == |c2| {
      assert !(forall k | 0 <= k < |c1| :: c1[k] == c2[k]);
      var k :| 0 <= k < |c1| && c1[k] != c2[k];
      assert n1[|prefix| + k] == c1[k];
      assert n2[|prefix| + k] == c2[k];
    } else {
      assert |n1| != |n2|;
    }
  }

  /** A job file: its name and its lines. */
  datatype JobFile = JobFile(name: string, tasks: seq<Request>)

  /** The job file of one category. */
  function Job(category: string, features: Features, languages: seq<string>, prompt: string, now: int): JobFile {
    JobFile(FileName(category, languages), Requests(category, now, languages, prompt, Chunks(Flatten(features))))
  }

  /** The body of the loop over the categories: chunk the category, build its requests, name its file. */
  method BuildJobFile(category: string, features: Features, languages: seq<string>, prompt: string, now: int)
    returns (job: JobFile)
    ensures job == Job(category, features, languages, prompt, now)
  {
    var taskLines := ChunkCategory(features);
    var tasks := BuildRequests(category, taskLines, languages, prompt, now);
    job := JobFile(FileName(category, languages), tasks);
  }

  function JobOf(languages: seq<string>, prompt: string, now: int): ((string, Features)) -> JobFile {
    (g: (string, Features)) => Job(g.0, g.1, languages, prompt, now)
  }

  /** The job files of the categories, in category order. */
  function Jobs(groups: Groups, languages: seq<string>, prompt: string, now: int): seq<JobFile> {
    MapSeq(JobOf(languages, prompt, now), groups)
  }

  /** The i-th job file is the one of the i-th category. */
  lemma JobsAt(groups: Groups, i: nat, languages: seq<string>, prompt: string, now: int)
    requires i < |groups|
    ensures |Jobs(groups, languages, prompt, now)| == |groups|
    ensures Jobs(groups, languages, prompt, now)[i] == Job(groups[i].0, groups[i].1, languages, prompt, now)
  {
    MapSeqAt(JobOf(languages, prompt, now), groups, i);
  }

  /** The loop over the categories: one job file each, in category order. */
  method BuildJobFiles(groups: Groups, languages: seq<string>, prompt: string, now: int) returns (jobs: seq<JobFile>)
    ensures jobs == Jobs(groups, languages, prompt, now)
  {
    jobs := [];
    for i := 0 to |groups|
      invariant jobs == Jobs(groups[..i], languages, prompt, now)
    {
      var job := BuildJobFile(groups[i].0, groups[i].1, languages, prompt, now);
      MapSeqSnoc(JobOf(languages, prompt, now), groups, i);
      jobs := jobs + [job];
    }
    MapSeqAll(JobOf(languages, prompt, now), groups);
  }



  /**
    The whole preparation: group the entries, then build one job file per
    category; fails on the first key without a segment 2.
   */
  method PrepareJobs(data: Entries, languages: seq<string>, prompt: string, now: int)
    returns (r: Result<seq<JobFile>, GroupError>)
    ensures r.Success? <==> AllWellFormed(data)
    ensures r.Success? ==> r.value == Jobs(GroupAll(data), languages, prompt, now)
    ensures r.Failure? ==> exists i :: 0 <= i < |data| && !WellFormedKey(data[i].0)
                                    && r.error == MalformedKey(data[i].0)
  {
    var grouped := BatchLocalizationByKeys(data);
    if grouped.Failure? {
      return Failure(grouped.error);
    }
    var jobs := BuildJobFiles(grouped.value, languages, prompt, now);
    return Success(jobs);
  }

  /**
    What the job files of a well-formed input hold: one file per category in
    order of first occurrence, with distinct names; the files' chunks are a
    chunking of an arrangement of exactly that category's entries, each
    request asking for the given languages.
   */
  lemma JobsCover(data: Entries, languages: seq<string>, prompt: string, now: int, i: nat)
    requires AllWellFormed(data) && DistinctKeys(data)
    requires i < |GroupAll(data)|
    ensures var g := GroupAll(data);
            var job := Job(g[i].0, g[i].1, languages, prompt, now);
            && Keys(g) == FirstOccurrences(Categories(data))
            && job.name == FileName(g[i].0, languages)
            && (forall k :: 0 <= k < |job.tasks| ==> UserPayloadOf(job.tasks[k].body.messages).Some?)
            && IsChunking(ChunksOf(job.tasks), Flatten(g[i].1))
            && multiset(Flatten(g[i].1)) == multiset(InCategory(data, g[i].0))
            && (forall k :: 0 <= k < |job.tasks| ==> UserPayloadOf(job.tasks[k].body.messages).value.requested == languages)
  {
    var g := GroupAll(data);
    GroupAllCorrect(data);
    CategoryEntriesDistinct(data, i);
    ChunksCorrect(Flatten(g[i].1));
    RequestsCarryChunks(g[i].0, now, languages, prompt, Chunks(Flatten(g[i].1)));
  }

  /** Job files of different categories have different names. */
  lemma JobNamesDistinct(data: Entries, languages: seq<string>, prompt: string, now: int, i: nat, j: nat)
    requires AllWellFormed(data) && DistinctKeys(data)
    requires i < j < |GroupAll(data)|
    ensures Job(GroupAll(data)[i].0, GroupAll(data)[i].1, languages, prompt, now).name
         != Job(GroupAll(data)[j].0, GroupAll(data)[j].1, languages, prompt, now).name
  {
    var g := GroupAll(data);
    GroupAllCorrect(data);
    assert Keys(g)[i] == g[i].0 && Keys(g)[j] == g[j].0;
    FileNameSeparatesCategories(g[i].0, g[j].0, languages);
  }
}
