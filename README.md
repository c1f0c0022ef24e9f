# Wynntils translation batch tool, modelled in Dafny

Models the core of a small translation pipeline for the Wynntils
localization file. The pipeline (`main.py`, `batch_cleanup.py`) does five things:

- groups the English localization entries by category and feature;
- cuts each category into chunks of at most 50 entries;
- turns every chunk into one chat-completion request, and writes one job
  file per category;
- waits for each submitted job, then downloads its results;
- merges the returned translations and writes one sorted JSON file per
  language.

The modules follow that flow:

- `Wrappers`: `Option` and `Result`.
- `Dicts`: a Python `dict` as a sequence of key/value pairs in insertion
  order. `Set` is `d[k] = v` (replace in place or append), `Update` is
  `dict.update`, `Lookup` is `d.get(k)`. It also holds sequence helpers
  (`MapSeq`, `Concat`, `Flatten`).
- `Text`: `str.split`, `str.join`, Python's code-point order on strings
  (`Less`) and a stable sort (`SortBy`).
- `Grouping`: `batch_localization_by_keys`.
- `Batching`: the loop over categories: chunking, request building,
  the job-file name.
- `Polling`: the wait for each submitted job and the choice of jobs to
  download.
- `Cleanup`: `clean_openapi_responses`. It pulls the record content out
  with `.get` defaults, parses it, and merges it with `update`.
- `LangFiles`: `create_separate_lang_files`. The output directory is a
  class `LangDirectory`, whose `files` map from language code to the
  contents of its `<lang>.json` file is updated in place, one key at a time.

The source loops remain loops:

- `Grouping.BatchLocalizationByKeys`, `Batching.ChunkCategory`,
  `Batching.BuildRequests`, `Batching.BuildJobFiles`, `Polling.Poll`,
  `Polling.ProcessBatches`, `Cleanup.CleanResponses` and
  `LangFiles.LangDirectory.CreateSeparateLangFiles` are methods.
- Each is proved equal to a specification function: `GroupAll`,
  `Chunks`, `Requests`, `Jobs`, `PollOutcomeOf`, `Downloads`, `CleanAll`,
  `ApplyAll`. These are recursive, except `Requests` and `Jobs`, which map
  every chunk or category to its request or job file.
- The promised properties are lemmas about those functions.

Two points where the code and its comments differ:

- The comments at main.py:111-112 and 115 say a request carries at most
  100 strings; the code at main.py:121 cuts at 50. The model follows the
  code (`Batching.ChunkSize`).
- The comment at main.py:115 says the category lines are sorted; the
  code keeps them in feature, then insertion, order and sorts nothing.
  The model keeps them unsorted.

`parts[2]` in `batch_localization_by_keys` raises an `IndexError` for a key
with fewer than three dot-separated segments. The model returns
`MalformedKey` for the first such key and builds nothing.

## Model

| member | source | states |
|---|---|---|
| Grouping.BatchLocalizationByKeys | main.py:14-36 | success exactly when every key has a segment 2; then the result is the grouping `GroupAll`; otherwise the error names the first malformed key |
| Grouping.GroupAllCorrect | main.py:17-34 | categories appear in order of first occurrence, and features within a category likewise; each feature holds exactly the entries of its category and feature, in input order |
| Grouping.GroupAllFind | main.py:17-34 | looking up (category, feature, key) in the grouping gives the key's original value exactly when the key is in the input and has that category (segment 0) and that feature (segment 2); otherwise it gives nothing |
| Grouping.GroupAllComplete | main.py:17-34 | every input key is filed under its own category and feature with its original value |
| Grouping.GroupAllSound | main.py:17-34 | every key found in the grouping comes from the input, under its own category and feature, with its input value |
| Grouping.CategoryEntriesDistinct | main.py:26-34 | each category is in the grouping once; its flattened features are a permutation of the category's entries, with no key twice |
| Grouping.InCategoryDistinct | main.py:17-34 | the entries of one category keep distinct keys |
| Grouping.FirstOccurrences | main.py:26-31 | the (category or feature) names kept are distinct and are exactly those that occur |
| Batching.ChunkCategory | main.py:116-127 | the loop's chunks are `Chunks` of the category's flattened entries; for distinct keys they form a chunking (each 1 to 50 entries, all but the last exactly 50, concatenating back to the entries) |
| Batching.ChunksCorrect | main.py:116-127 | the chunks are 1 to 50 entries each, all but the last full, and concatenate in order to the input entries |
| Batching.ChunkCount | main.py:121-127 | the number of chunks is the entry count divided by 50, rounded up |
| Batching.MakeRequest | main.py:131-157 | the request is a POST to `/v1/chat/completions`; its id is (category, index, clock reading); its user message carries the language list and the chunk |
| Batching.RequestsCarryChunks | main.py:130-159 | one request per chunk, carrying the chunks in order, each asking for the given languages, with pairwise distinct ids |
| Batching.BuildRequests | main.py:129-159 | request i is numbered i (`len(tasks)` before the append) and carries chunk i and the language list |
| Batching.FileNameSorted | main.py:162 | `FileName`: the prefix, the category, then the languages in code-point order, whatever order they were given in, each after a "-", then `.jsonl` |
| Batching.FileNameIgnoresLanguageOrder | main.py:162 | two language lists with the same elements give the same file name |
| Batching.FileNameSeparatesCategories | main.py:162 | different categories get different file names |
| Batching.BuildJobFile | main.py:113-174 | one category's job file: the sorted-language name and the requests for its chunks |
| Batching.BuildJobFiles | main.py:110-174 | one job file per category, in category order |
| Batching.JobsAt | main.py:110-174 | job file i belongs to category i, and there are as many files as categories |
| Batching.PrepareJobs | main.py:104-174 | success exactly when all keys are well formed; then the job files of the grouping; otherwise a malformed input key |
| Batching.JobsCover | main.py:104-174 | each job file is named after its category; its requests ask for the languages; their chunks are a chunking of a permutation of exactly that category's entries |
| Batching.JobNamesDistinct | main.py:162-174 | the job files of different categories have different names |
| Polling.PollFrom | main.py:195-206 | completion or failure is reported at a re-read status that stops the wait, with no earlier one stopping it; still waiting exactly when none stops it |
| Polling.PollOutcomeCorrect | main.py:192-209 | the outcome is decided at the unique stopping point: "completed" there means completed; one of failed/expired/cancelling/cancelled means failed; no stopping point means still waiting |
| Polling.StopsAtUnique | main.py:195-206 | the wait stops at one point only |
| Polling.Poll | main.py:192-209 | the polling loop's outcome is `PollOutcomeOf` the statuses |
| Polling.ProcessBatches | main.py:178-226 | the loop over job files downloads exactly `Downloads(runs)` and reports whether it is still waiting |
| Polling.DownloadsSound | main.py:208-218 | only the results of completed jobs are downloaded |
| Polling.DownloadsComplete | main.py:208-218 | if no job leaves the run waiting, every completed job's results are downloaded |
| Polling.DownloadsHeldUp | main.py:195-198 | the run is held up exactly when some job never reaches a stopping status |
| Cleanup.Get | batch_cleanup.py:17-18 | `.get(key, default)` on an object gives the value under the key, or the default when the key is missing; on anything else it raises AttributeError |
| Cleanup.ExtractContent | batch_cleanup.py:17-18 | a record that is not an object raises AttributeError at the first `.get`; a record without `response` gives content `""` |
| Cleanup.ExtractContentPath | batch_cleanup.py:17-18 | for any record, level by level along `response.body.choices[0].message.content`: a missing level gives `""`; a level that is not an object raises AttributeError; `choices` that is empty raises IndexError, an object KeyError, a number, boolean or null TypeError; a full path gives its content |
| Cleanup.ParseContent | batch_cleanup.py:21 | the content parses to answers exactly when it is a string that parses to an object; a non-string raises TypeError and unparseable text a decode error |
| Cleanup.LineAnswersCorrect | batch_cleanup.py:14-21 | `LineAnswers`: a line gives the answers `a` exactly when its stripped text parses to a record whose content is text that parses to the object `a`; a stripped line that does not parse fails with a decode error |
| Cleanup.ParseLinesCorrect | batch_cleanup.py:9-21 | all lines parse exactly when each does; the answers are those of each line in order; a failure is the error of the first failing line |
| Cleanup.ParseLinesFailed | batch_cleanup.py:14-21 | once some lines fail, appending more lines does not change the error |
| Cleanup.MergeAllKeys | batch_cleanup.py:9-22 | `MergeAll`, the fold of `update` over all answers: a key is in the merged mapping exactly when it is in some parsed content |
| Cleanup.MergeAllDistinct | batch_cleanup.py:22 | the merged mapping has no key twice |
| Cleanup.MergeAllLastWins | batch_cleanup.py:22 | a key gets its value from the last content that has it |
| Cleanup.MergeAllOrderIrrelevant | batch_cleanup.py:9-22 | for contents with pairwise disjoint keys, reordering the lines or files gives the same mapping |
| Cleanup.LineFailureFatal | batch_cleanup.py:14-21 | one failing line anywhere makes the whole run fail, with no partial result |
| Cleanup.EmptyContentFails | batch_cleanup.py:18-21 | a record whose content defaults to `""` fails with a decode error at `json.loads("")` |
| Cleanup.CleanResponses | batch_cleanup.py:6-30 | the nested file/line loop returns `CleanAll` of the files, and a successful result has distinct keys |
| LangFiles.SortByKey | batch_cleanup.py:54 | `dict(sorted(lang_data.items()))` is a rearrangement of the file's items |
| LangFiles.SortByKeyCorrect | batch_cleanup.py:54 | re-sorting gives strictly increasing keys and keeps every key's value |
| LangFiles.IncreasingUnique | batch_cleanup.py:54 | two key-sorted mappings with the same lookups are equal, so the sorted file depends only on its contents |
| LangFiles.UpdateStepCorrect | batch_cleanup.py:44-54 | `UpdateStep`, one read–set–sort step: after it the file is sorted, holds key→value and keeps every other key's value; an absent file becomes `{key: value}` |
| LangFiles.UpdateStepIdempotent | batch_cleanup.py:44-54 | repeating the same (key, value) step changes nothing |
| LangFiles.UpdateStepCommutes | batch_cleanup.py:44-54 | steps for two different keys give the same file in either order |
| LangFiles.ApplyWriteCorrect | batch_cleanup.py:43-57 | one write keeps every file a mapping, sorts the file it touches and sets the key there |
| LangFiles.ApplyWriteElsewhere | batch_cleanup.py:43-57 | one write changes no other (language, key) |
| LangFiles.ApplyAllElsewhere | batch_cleanup.py:41-57 | writes that avoid a (language, key) leave it unchanged |
| LangFiles.ApplyAllLastWins | batch_cleanup.py:41-57 | a (language, key) holds the value of the last write to it |
| LangFiles.ApplyAllSorted | batch_cleanup.py:54-57 | every file written to is sorted at the end |
| LangFiles.WritesFail | batch_cleanup.py:41-42 | `Writes`, the (language, key, value) writes of the nested loops in order: they stop with an AttributeError exactly when some key's translations are not an object |
| LangFiles.WritesKeys | batch_cleanup.py:41-42 | every write is for a key of the cleaned mapping |
| LangFiles.CreatedFiles | batch_cleanup.py:41-54 | afterwards, for every key k and every language in its translations, that language's file holds k → the translation |
| LangFiles.LangDirectory.Write | batch_cleanup.py:43-57 | one read–set–sort–write step on the file of `lang`, which is sorted afterwards |
| LangFiles.LangDirectory.CreateSeparateLangFiles | batch_cleanup.py:40-59 | the directory afterwards is the writes applied in order; it fails exactly when a key's translations are not an object, and then with AttributeError |
| Dicts.Lookup | main.py:26-34 | `d.get(k)` finds a value exactly when k is a key of d, and the value is one paired with k in d |
| Dicts.Set | main.py:34 | `d[k] = v`: k maps to v, other keys are unchanged, a new key goes at the end and an existing one keeps its place |
| Dicts.SetTwice | batch_cleanup.py:51 | setting a key twice is setting it to the second value |
| Dicts.Update | batch_cleanup.py:22 | `update` keeps the union of keys and keeps keys distinct |
| Dicts.UpdateLookup | batch_cleanup.py:22 | after `update`, a key of the new mapping has the new value and any other key its old value |
| Text.Split | main.py:19 | the parts contain no separator and joined with it give back the key |
| Text.JoinSplit | main.py:19 | `Join` and `Split` are inverse: separator-free parts joined with the separator split back into the same parts |
| Text.LessMeaning | batch_cleanup.py:54 | `Less`, Python's `<` on strings: a proper prefix comes first, otherwise the smaller code point at the first difference |
| Text.LessTransitive | batch_cleanup.py:54 | the string order is transitive |
| Text.LessTotal | batch_cleanup.py:54 | any two different strings are ordered one way or the other |
| Text.LessIrreflexive | batch_cleanup.py:54 | no string is below itself |
| Text.StripCorrect | batch_cleanup.py:14 | `line.strip()` keeps a slice of the line with only white space (Python's `str.isspace`) cut off on either side, starting and ending with other characters; it is empty exactly when the line is all white space |
| Text.SortBy | batch_cleanup.py:54 | the sort is a permutation and is ordered by key |
| Text.SortedUnique | main.py:162 | two sorted permutations of the same elements, with distinct sort keys, are equal |

## Left out

- The OpenAI client (main.py:44, 179-190, 196, 215-218) is not modelled. Job submission and the status re-reads appear only as the sequence of statuses the service reports for each job.
- Polling.Poll: the source waits without bound. The model runs over a finite status sequence and reports `StillPolling` when it runs out.
- A job still polling when its statuses run out holds up all later jobs, as the blocking loop in the source would.
- `load_dotenv`, the API key and the prompt text (main.py:39-95): the prompt and the language list are parameters.
- `time.time`, `time.sleep`, `strftime` (main.py:107, 136, 197-198): every clock read is left out.
- Batching.MakeRequest: the `custom_id` is kept as its three parts (category, index, clock reading) rather than formatted text. One clock reading `now` serves the whole run, although the source reads the clock once per request.
- The filesystem is not modelled: `open`, `os.makedirs`, `os.listdir`, `glob`, path joining, and the result-file naming at main.py:224. The language directory is an in-memory map from language code to file contents.
- JSON text is not modelled: neither `json.dumps` and its formatting options, nor `json.loads` as a parser. Parsing is a function parameter `parse` from text to an optional JSON value, standing for `json.loads` alone; `line.strip()` is modelled separately as `Text.Strip` and applied to each line before parsing, while the content string is parsed unstripped, as in the source. JSON numbers are integers; floating point is not modelled.
- Cleanup.ParseContent: content that parses to valid JSON that is not an object is reported as `NotAMapping`. In the source, `dict.update` would also accept a list of key/value pairs.
- LangFiles.LangDirectory: existing language files are assumed to hold JSON objects.
- The top-level loop over timestamp directories in batch_cleanup.py (62-79) and the write of `cleaned_responses.json` (batch_cleanup.py:25-26) are left out. They are file-system glue around the two modelled functions.
- Console output (`print`) is left out.
- The request body's `temperature` is the real 0.1. No property is stated about the constant model parameters.
