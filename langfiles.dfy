/**
  The per-language files (`create_separate_lang_files` in batch_cleanup.py):
  for every localization key and every language of its translations, the
  language's file is read (starting as `{}` when it does not exist), the key
  is set to the translation, the entries are re-sorted by key and the file
  is written back. The output directory is modelled as a map from language
  code to the dictionary its file holds.
 */
module LangFiles {
  import opened Wrappers
  import opened Dicts
  import opened Text
  import opened Cleanup

  /** The contents of one language file: localization key to translation. */
  type LangData = Dict<string, Json>

  function KeyOf(p: (string, Json)): string { p.0 }

  /** The keys strictly increase in Python's string order. */
  ghost predicate Increasing(d: LangData) {
    forall i, j :: 0 <= i < j < |d| ==> Less(d[i].0, d[j].0)
  }

  /** `dict(sorted(d.items()))`: the items of a dictionary have distinct keys, so they sort by key. */
  function SortByKey(d: LangData): (r: LangData)
    ensures multiset(r) == multiset(d)
  {
    SortBy(d, KeyOf)
  }

  /** Sorting a dictionary orders its keys strictly and keeps what every key maps to. */
  lemma SortByKeyCorrect(d: LangData)
    requires DistinctKeys(d)
    ensures Increasing(SortByKey(d)) && DistinctKeys(SortByKey(d))
    ensures forall k :: Lookup(SortByKey(d), k) == Lookup(d, k)
  {
    var r := SortByKey(d);
    DistinctKeysPermutation(d, r);
    forall i, j | 0 <= i < j < |r| ensures Less(r[i].0, r[j].0) {
      assert Keys(r)[i] == r[i].0 && Keys(r)[j] == r[j].0;
      assert !Less(KeyOf(r[j]), KeyOf(r[i]));
      LessTotal(r[i].0, r[j].0);
    }
    forall k ensures Lookup(r, k) == Lookup(d, k) {
      if Lookup(d, k).Some? {
        assert (k, Lookup(d, k).value) in multiset(r);
        LookupPair(r, k, Lookup(d, k).value);
      }
      if Lookup(r, k).Some? {
        assert (k, Lookup(r, k).value) in multiset(d);
        LookupPair(d, k, Lookup(r, k).value);
      }
    }
  }

  /** One read-set-sort step on a language file; `None` is a file that does not exist yet. */
  function UpdateStep(file: Option<LangData>, key: string, value: Json): LangData {
    SortByKey(Set(file.GetOr([]), key, value))
  }

  /**
    After the step the file holds `key -> value`, every other key keeps its
    value, the keys are in increasing order, and a missing file ends up
    holding just that one entry.
   */
  lemma UpdateStepCorrect(file: Option<LangData>, key: string, value: Json)
    requires DistinctKeys(file.GetOr([]))
    ensures var r := UpdateStep(file, key, value);
            && Increasing(r) && DistinctKeys(r)
            && Lookup(r, key) == Some(value)
            && (forall k :: k != key ==> Lookup(r, k) == Lookup(file.GetOr([]), k))
            && (file.None? ==> r == [(key, value)])
  {
    var d := Set(file.GetOr([]), key, value);
    SetDistinct(file.GetOr([]), key, value);
    SortByKeyCorrect(d);
    if file.None? {
      assert d == [(key, value)];
      assert SortBy(d, KeyOf) == Insert(d[0], SortBy(d[1..], KeyOf), KeyOf);
    }
  }

  /** Dropping the least key of an increasing dictionary keeps it increasing and removes just that key. */
  lemma IncreasingTail(a: LangData)
    requires Increasing(a) && a != []
    ensures Increasing(a[1..])
    ensures Lookup(a[1..], a[0].0) == None
    ensures forall k :: k != a[0].0 ==> Lookup(a[1..], k) == Lookup(a, k)
  {
    forall i | 0 <= i < |a[1..]| ensures Keys(a[1..])[i] != a[0].0 {
      assert Less(a[0].0, a[i + 1].0);
      LessIrreflexive(a[0].0);
    }
  }

  /** A dictionary with increasing keys is determined by what it maps each key to. */
  lemma {:induction false} IncreasingUnique(a: LangData, b: LangData)
    requires Increasing(a) && Increasing(b)
    requires forall k :: Lookup(a, k) == Lookup(b, k)
    ensures a == b
    decreases |a|
  {
    if a == [] {
      var k0 := if b == [] then "" else b[0].0;
      assert Lookup(b, k0) == Lookup(a, k0) == None;
    } else {
      assert Lookup(a, a[0].0).Some?;
      assert b != [];
      var ia :| 0 <= ia < |a| && Keys(a)[ia] == b[0].0 by {
        assert Lookup(b, b[0].0).Some?;
      }
      var ib :| 0 <= ib < |b| && Keys(b)[ib] == a[0].0;
      LessAsymmetric(a[0].0, b[0].0);
      LessIrreflexive(a[0].0);
      assert a[0].0 == b[0].0;
      assert a[0] == b[0] by {
        assert Lookup(a, a[0].0) == Some(a[0].1);
        assert Lookup(b, b[0].0) == Some(b[0].1);
      }
      IncreasingTail(a);
      IncreasingTail(b);
      IncreasingUnique(a[1..], b[1..]);
      assert a == [a[0]] + a[1..] && b == [b[0]] + b[1..];
    }
  }

  /** Writing the same translation twice leaves the file as writing it once. */
  lemma UpdateStepIdempotent(file: Option<LangData>, key: string, value: Json)
    requires DistinctKeys(file.GetOr([]))
    ensures UpdateStep(Some(UpdateStep(file, key, value)), key, value) == UpdateStep(file, key, value)
  {
    var r1 := UpdateStep(file, key, value);
    UpdateStepCorrect(file, key, value);
    UpdateStepCorrect(Some(r1), key, value);
    IncreasingUnique(UpdateStep(Some(r1), key, value), r1);
  }

  /** Translations of two different keys can be written in either order. */
  lemma UpdateStepCommutes(file: Option<LangData>, k1: string, v1: Json, k2: string, v2: Json)
    requires DistinctKeys(file.GetOr([])) && k1 != k2
    ensures UpdateStep(Some(UpdateStep(file, k1, v1)), k2, v2) == UpdateStep(Some(UpdateStep(file, k2, v2)), k1, v1)
  {
    var d := file.GetOr([]);
    var x := UpdateStep(Some(UpdateStep(file, k1, v1)), k2, v2);
    var y := UpdateStep(Some(UpdateStep(file, k2, v2)), k1, v1);
    UpdateStepCorrect(file, k1, v1);
    UpdateStepCorrect(file, k2, v2);
    UpdateStepCorrect(Some(UpdateStep(file, k1, v1)), k2, v2);
    UpdateStepCorrect(Some(UpdateStep(file, k2, v2)), k1, v1);
    forall k ensures Lookup(x, k) == Lookup(y, k) {
      if k != k1 && k != k2 {
        assert Lookup(x, k) == Lookup(d, k);
      }
    }
    IncreasingUnique(x, y);
  }

  /** The output directory: language code to the contents of its file. */
  type Files = map<string, LangData>

  /** Every file holds a dictionary, as `json.load` of an object returns one. */
  ghost predicate ValidFiles(files: Files) {
    forall lang :: lang in files ==> DistinctKeys(files[lang])
  }

  function FileOf(files: Files, lang: string): Option<LangData> {
    if lang in files then Some(files[lang]) else None
  }

  /** The translation the file of `lang` holds for `key`, if any. */
  function LangLookup(files: Files, lang: string, key: string): Option<Json> {
    if lang in files then Lookup(files[lang], key) else None
  }

  /** One translation to write: into the file of `lang`, under `key`. */
  datatype LangWrite = LangWrite(lang: string, key: string, value: Json)

  function ApplyWrite(files: Files, w: LangWrite): Files {
    files[w.lang := UpdateStep(FileOf(files, w.lang), w.key, w.value)]
  }

  /** The writes, in order. */
  function ApplyAll(files: Files, ws: seq<LangWrite>): Files
    decreases |ws|
  {
    if ws == [] then files else ApplyAll(ApplyWrite(files, ws[0]), ws[1..])
  }

  /** A write keeps the files dictionaries, sorts the file it touches and sets its key there. */
  lemma ApplyWriteCorrect(files: Files, w: LangWrite)
    requires ValidFiles(files)
    ensures var f := ApplyWrite(files, w);
            && ValidFiles(f)
            && Increasing(f[w.lang])
            && LangLookup(f, w.lang, w.key) == Some(w.value)
  {
    var f := ApplyWrite(files, w);
    var u := UpdateStep(FileOf(files, w.lang), w.key, w.value);
    assert DistinctKeys(FileOf(files, w.lang).GetOr([]));
    UpdateStepCorrect(FileOf(files, w.lang), w.key, w.value);
    assert f[w.lang] == u;
    forall lang | lang in f
      ensures DistinctKeys(f[lang])
    {
      if lang != w.lang {
        assert f[lang] == files[lang];
      }
    }
  }

  /** A write changes no other key of any file. */
  lemma ApplyWriteElsewhere(files: Files, w: LangWrite, lang: string, key: string)
    requires ValidFiles(files)
    requires lang != w.lang || key != w.key
    ensures LangLookup(ApplyWrite(files, w), lang, key) == LangLookup(files, lang, key)
  {
    UpdateStepCorrect(FileOf(files, w.lang), w.key, w.value);
  }

  lemma {:induction false} ApplyAllAppend(files: Files, a: seq<LangWrite>, b: seq<LangWrite>)
    ensures ApplyAll(files, a + b) == ApplyAll(ApplyAll(files, a), b)
    decreases |a|
  {
    if a == [] {
      assert a + b == b;
    } else {
      assert (a + b)[0] == a[0] && (a + b)[1..] == a[1..] + b;
      ApplyAllAppend(ApplyWrite(files, a[0]), a[1..], b);
    }
  }

  lemma {:induction false} ApplyAllValid(files: Files, ws: seq<LangWrite>)
    requires ValidFiles(files)
    ensures ValidFiles(ApplyAll(files, ws))
    decreases |ws|
  {
    if ws != [] {
      ApplyWriteCorrect(files, ws[0]);
      ApplyAllValid(ApplyWrite(files, ws[0]), ws[1..]);
    }
  }

  /** Writes elsewhere leave a file's translation for a key alone. */
  lemma {:induction false} ApplyAllElsewhere(files: Files, ws: seq<LangWrite>, lang: string, key: string)
    requires ValidFiles(files)
    requires forall i :: 0 <= i < |ws| ==> ws[i].lang != lang || ws[i].key != key
    ensures LangLookup(ApplyAll(files, ws), lang, key) == LangLookup(files, lang, key)
    decreases |ws|
  {
    if ws != [] {
      ApplyWriteCorrect(files, ws[0]);
      ApplyWriteElsewhere(files, ws[0], lang, key);
      assert forall i :: 0 <= i < |ws[1..]| ==> ws[1..][i] == ws[i + 1];
      ApplyAllElsewhere(ApplyWrite(files, ws[0]), ws[1..], lang, key);
    }
  }

  /** No write after the i-th goes to the same file and key. */
  ghost predicate LastWrite(ws: seq<LangWrite>, i: nat)
    requires i < |ws|
  {
    forall j :: i < j < |ws| ==> ws[j].lang != ws[i].lang || ws[j].key != ws[i].key
  }

  lemma LastWriteTail(ws: seq<LangWrite>, i: nat)
    requires 0 < i < |ws| && LastWrite(ws, i)
    ensures ws[1..][i - 1] == ws[i] && LastWrite(ws[1..], i - 1)
  {
    assert forall j :: i - 1 < j < |ws[1..]| ==> ws[1..][j] == ws[j + 1];
  }

  lemma LastWriteFirst(ws: seq<LangWrite>)
    requires ws != [] && LastWrite(ws, 0)
    ensures forall j :: 0 <= j < |ws[1..]| ==> ws[1..][j].lang != ws[0].lang || ws[1..][j].key != ws[0].key
  {
    assert forall j :: 0 <= j < |ws[1..]| ==> ws[1..][j] == ws[j + 1];
  }

  /** Last write wins: a file holds, for a key, the last translation written to it. */
  lemma {:induction false} ApplyAllLastWins(files: Files, ws: seq<LangWrite>, i: nat)
    requires ValidFiles(files)
    requires i < |ws| && LastWrite(ws, i)
    ensures LangLookup(ApplyAll(files, ws), ws[i].lang, ws[i].key) == Some(ws[i].value)
    decreases |ws|
  {
    var next := ApplyWrite(files, ws[0]);
    ApplyWriteCorrect(files, ws[0]);
    if i == 0 {
      LastWriteFirst(ws);
      ApplyAllElsewhere(next, ws[1..], ws[0].lang, ws[0].key);
    } else {
      LastWriteTail(ws, i);
      ApplyAllLastWins(next, ws[1..], i - 1);
    }
  }


  /** A file whose keys are in increasing order stays so. */
  lemma {:induction false} ApplyAllKeepsIncreasing(files: Files, ws: seq<LangWrite>, lang: string)
    requires ValidFiles(files) && lang in files && Increasing(files[lang])
    ensures lang in ApplyAll(files, ws) && Increasing(ApplyAll(files, ws)[lang])
    decreases |ws|
  {
    if ws != [] {
      ApplyWriteCorrect(files, ws[0]);
      ApplyAllKeepsIncreasing(ApplyWrite(files, ws[0]), ws[1..], lang);
    }
  }

  /** A file written to ends up with its keys in increasing order. */
  lemma {:induction false} ApplyAllSorted(files: Files, ws: seq<LangWrite>, i: nat)
    requires ValidFiles(files) && i < |ws|
    ensures ws[i].lang in ApplyAll(files, ws) && Increasing(ApplyAll(files, ws)[ws[i].lang])
    decreases |ws|
  {
    ApplyWriteCorrect(files, ws[0]);
    if i == 0 {
      ApplyAllKeepsIncreasing(ApplyWrite(files, ws[0]), ws[1..], ws[0].lang);
    } else {
      assert ws[i] == ws[1..][i - 1];
      ApplyAllSorted(ApplyWrite(files, ws[0]), ws[1..], i - 1);
    }
  }

  /** The translations of one localization key, one write per language in order. */
  function WritesFor(key: string, translations: Dict<string, Json>): (ws: seq<LangWrite>)
    ensures |ws| == |translations|
    ensures forall i :: 0 <= i < |ws| ==> ws[i] == LangWrite(translations[i].0, key, translations[i].1)
  {
    seq(|translations|, i requires 0 <= i < |translations| => LangWrite(translations[i].0, key, translations[i].1))
  }

  /**
    The writes the loop performs over the merged answers, in order, and the
    error it stops with: `.items()` on a value that is not an object.
   */
  function Writes(cleaned: Answers): (seq<LangWrite>, Option<PyError>) {
    if cleaned == [] then ([], None)
    else
      match cleaned[0].1
      case JObj(translations) =>
        var rest := Writes(cleaned[1..]);
        (WritesFor(cleaned[0].0, translations) + rest.0, rest.1)
      case _ => ([], Some(AttributeError))
  }

  /** Every value is an object of translations with one entry per language. */
  ghost predicate AllTranslations(cleaned: Answers) {
    forall i :: 0 <= i < |cleaned| ==> cleaned[i].1.JObj? && DistinctKeys(cleaned[i].1.fields)
  }

  /** The loop fails exactly when some value is not an object. */
  lemma {:induction false} WritesFail(cleaned: Answers)
    ensures Writes(cleaned).1.Some? <==> exists i :: 0 <= i < |cleaned| && !cleaned[i].1.JObj?
    ensures Writes(cleaned).1.Some? ==> Writes(cleaned).1 == Some(AttributeError)
  {
    if cleaned != [] {
      WritesFail(cleaned[1..]);
      if exists i :: 0 <= i < |cleaned[1..]| && !cleaned[1..][i].1.JObj? {
        var i :| 0 <= i < |cleaned[1..]| && !cleaned[1..][i].1.JObj?;
        assert cleaned[i + 1] == cleaned[1..][i];
      }
      forall i | 1 <= i < |cleaned| ensures cleaned[i] == cleaned[1..][i - 1] { }
    }
  }

  /** Every write is under one of the localization keys. */
  lemma {:induction false} WritesKeys(cleaned: Answers, j: nat)
    requires j < |Writes(cleaned).0|
    ensures Writes(cleaned).0[j].key in Keys(cleaned)
  {
    KeysCons(cleaned);
    if cleaned[0].1.JObj? {
      var ws := WritesFor(cleaned[0].0, cleaned[0].1.fields);
      var rest := Writes(cleaned[1..]).0;
      assert Writes(cleaned).0 == ws + rest;
      if j >= |ws| {
        assert Writes(cleaned).0[j] == rest[j - |ws|];
        WritesKeys(cleaned[1..], j - |ws|);
      }
    }
  }

  lemma WritesCons(cleaned: Answers)
    requires cleaned != [] && cleaned[0].1.JObj?
    ensures Writes(cleaned).0 == WritesFor(cleaned[0].0, cleaned[0].1.fields) + Writes(cleaned[1..]).0
  {
  }

  /** The writes for the first key come first. */
  lemma ApplyWritesCons(files: Files, cleaned: Answers)
    requires cleaned != [] && cleaned[0].1.JObj?
    ensures ApplyAll(files, Writes(cleaned).0)
         == ApplyAll(ApplyAll(files, WritesFor(cleaned[0].0, cleaned[0].1.fields)), Writes(cleaned[1..]).0)
  {
    WritesCons(cleaned);
    ApplyAllAppend(files, WritesFor(cleaned[0].0, cleaned[0].1.fields), Writes(cleaned[1..]).0);
  }

  lemma AllTranslationsTail(cleaned: Answers)
    requires cleaned != [] && AllTranslations(cleaned)
    ensures AllTranslations(cleaned[1..])
  {
    forall k | 0 <= k < |cleaned[1..]| ensures cleaned[1..][k] == cleaned[k + 1] { }
  }

  /** The last write of a translation to its language's file is the one for its own key. */
  lemma WritesForLast(files: Files, key: string, translations: Dict<string, Json>, j: nat)
    requires ValidFiles(files) && DistinctKeys(translations) && j < |translations|
    ensures LangLookup(ApplyAll(files, WritesFor(key, translations)), translations[j].0, key) == Some(translations[j].1)
  {
    var ws := WritesFor(key, translations);
    forall k | j < k < |ws| ensures ws[k].lang != ws[j].lang {
      assert Keys(translations)[k] == ws[k].lang && Keys(translations)[j] == ws[j].lang;
    }
    ApplyAllLastWins(files, ws, j);
  }

  /** The writes for the later keys leave the translations of the first key alone. */
  lemma LaterWritesElsewhere(files: Files, cleaned: Answers, lang: string)
    requires ValidFiles(files) && cleaned != [] && DistinctKeys(cleaned)
    ensures LangLookup(ApplyAll(files, Writes(cleaned[1..]).0), lang, cleaned[0].0) == LangLookup(files, lang, cleaned[0].0)
  {
    var rest := Writes(cleaned[1..]).0;
    KeysCons(cleaned);
    DistinctCons(Keys(cleaned));
    forall k | 0 <= k < |rest| ensures rest[k].key != cleaned[0].0 {
      WritesKeys(cleaned[1..], k);
    }
    ApplyAllElsewhere(files, rest, lang, cleaned[0].0);
  }

  lemma DistinctKeysTail(cleaned: Answers)
    requires cleaned != [] && DistinctKeys(cleaned)
    ensures DistinctKeys(cleaned[1..])
  {
    KeysCons(cleaned);
    DistinctCons(Keys(cleaned));
  }

  /**
    What the files hold afterwards: for every localization key and every
    language of its translations, that language's file maps the key to that
    translation.
   */
  lemma {:induction false} CreatedFiles(files: Files, cleaned: Answers, i: nat, j: nat)
    requires ValidFiles(files) && DistinctKeys(cleaned) && AllTranslations(cleaned)
    requires i < |cleaned| && j < |cleaned[i].1.fields|
    ensures LangLookup(ApplyAll(files, Writes(cleaned).0), cleaned[i].1.fields[j].0, cleaned[i].0)
         == Some(cleaned[i].1.fields[j].1)
    decreases i
  {
    if i == 0 {
      CreatedFilesFirst(files, cleaned, j);
    } else {
      var mid := ApplyAll(files, WritesFor(cleaned[0].0, cleaned[0].1.fields));
      CreatedFilesShift(files, cleaned, i, j);
      CreatedFiles(mid, cleaned[1..], i - 1, j);
    }
  }

  /** The writes for the later keys start from the files as the first key's writes left them. */
  lemma CreatedFilesShift(files: Files, cleaned: Answers, i: nat, j: nat)
    requires ValidFiles(files) && DistinctKeys(cleaned) && AllTranslations(cleaned)
    requires 0 < i < |cleaned| && j < |cleaned[i].1.fields|
    ensures var mid := ApplyAll(files, WritesFor(cleaned[0].0, cleaned[0].1.fields));
            && ValidFiles(mid) && DistinctKeys(cleaned[1..]) && AllTranslations(cleaned[1..])
            && cleaned[1..][i - 1] == cleaned[i]
            && ApplyAll(files, Writes(cleaned).0) == ApplyAll(mid, Writes(cleaned[1..]).0)
  {
    ApplyWritesCons(files, cleaned);
    LaterEntry(cleaned, i);
    AllTranslationsTail(cleaned);
    DistinctKeysTail(cleaned);
    ApplyAllValid(files, WritesFor(cleaned[0].0, cleaned[0].1.fields));
  }

  /** The translations of the first key end up in their languages' files. */
  lemma CreatedFilesFirst(files: Files, cleaned: Answers, j: nat)
    requires ValidFiles(files) && DistinctKeys(cleaned)
    requires cleaned != [] && cleaned[0].1.JObj? && DistinctKeys(cleaned[0].1.fields)
    requires j < |cleaned[0].1.fields|
    ensures LangLookup(ApplyAll(files, Writes(cleaned).0), cleaned[0].1.fields[j].0, cleaned[0].0)
         == Some(cleaned[0].1.fields[j].1)
  {
    var key := cleaned[0].0;
    var translations := cleaned[0].1.fields;
    var lang := translations[j].0;
    var mid := ApplyAll(files, WritesFor(key, translations));
    ApplyWritesCons(files, cleaned);
    ApplyAllValid(files, WritesFor(key, translations));
    WritesForLast(files, key, translations, j);
    assert LangLookup(mid, lang, key) == Some(translations[j].1);
    LaterWritesElsewhere(mid, cleaned, lang);
  }

  lemma LaterEntry(cleaned: Answers, i: nat)
    requires 0 < i < |cleaned|
    ensures cleaned[i] == cleaned[1..][i - 1]
  {
  }

  lemma WritesDrop(cleaned: Answers, n: nat)
    requires n < |cleaned|
    ensures Writes(cleaned[n..])
         == if cleaned[n].1.JObj?
            then (WritesFor(cleaned[n].0, cleaned[n].1.fields) + Writes(cleaned[n + 1..]).0, Writes(cleaned[n + 1..]).1)
            else ([], Some(AttributeError))
  {
    assert cleaned[n..][0] == cleaned[n] && cleaned[n..][1..] == cleaned[n + 1..];
  }

  lemma WritesEnd(cleaned: Answers)
    ensures Writes(cleaned[|cleaned|..]) == ([], None)
  {
    assert cleaned[|cleaned|..] == [];
  }

  lemma ApplyAllSnoc(files: Files, ws: seq<LangWrite>, w: LangWrite)
    ensures ApplyAll(files, ws + [w]) == ApplyWrite(ApplyAll(files, ws), w)
  {
    ApplyAllAppend(files, ws, [w]);
    assert [w][1..] == [];
  }

  lemma AppendNil<T>(a: seq<T>)
    ensures a + [] == a
  {
  }

  lemma AppendAssoc<T>(a: seq<T>, b: seq<T>, c: seq<T>)
    ensures a + (b + c) == (a + b) + c
  {
  }

  lemma MapOverwrite<K, V>(m: map<K, V>, k: K, a: V, b: V)
    ensures (if k in m then m else m[k := a])[k := b] == m[k := b]
  {
  }

  /** The output directory, whose files the loop rewrites one translation at a time. */
  class LangDirectory {
    var files: Files

    ghost predicate Valid()
      reads this
    {
      ValidFiles(files)
    }

    constructor(initial: Files)
      requires ValidFiles(initial)
      ensures files == initial && Valid()
    {
      files := initial;
    }

    /**
      One step: create the file as `{}` when it does not exist, read it, set
      the key, sort by key and write it back.
     */
    method Write(lang: string, key: string, value: Json)
      requires Valid()
      modifies this
      ensures Valid()
      ensures files == ApplyWrite(old(files), LangWrite(lang, key, value))
      ensures Increasing(files[lang])
    {
      ghost var before := files;
      ApplyWriteCorrect(files, LangWrite(lang, key, value));
      if lang !in files {
        files := files[lang := []];
      }
      var langData := files[lang];
      assert langData == FileOf(before, lang).GetOr([]);
      langData := Set(langData, key, value);
      langData := SortByKey(langData);
      assert langData == UpdateStep(FileOf(before, lang), key, value);
      MapOverwrite(before, lang, [], langData);
      files := files[lang := langData];
    }

    /**
      `create_separate_lang_files`: for each localization key, for each
      language of its translations, one `Write`; a value that is not an
      object stops the loop with the writes so far done.
     */
    method CreateSeparateLangFiles(cleaned: Answers) returns (r: Result<(), PyError>)
      requires Valid()
      modifies this
      ensures Valid()
      ensures files == ApplyAll(old(files), Writes(cleaned).0)
      ensures r.Failure? <==> Writes(cleaned).1.Some?
      ensures r.Failure? ==> Writes(cleaned).1 == Some(r.error)
    {
      ghost var init := files;
      ghost var done: seq<LangWrite> := [];
      var n := 0;
      while n < |cleaned|
        invariant 0 <= n <= |cleaned|
        invariant Valid()
        invariant files == ApplyAll(init, done)
        invariant done + Writes(cleaned[n..]).0 == Writes(cleaned).0
        invariant Writes(cleaned[n..]).1 == Writes(cleaned).1
      {
        var locKey, locValues := cleaned[n].0, cleaned[n].1;
        WritesDrop(cleaned, n);
        if !locValues.JObj? {
          AppendNil(done);
          return Failure(AttributeError);
        }
        var translations := locValues.fields;
        ghost var before := done;
        ghost var ws := WritesFor(locKey, translations);
        SliceNone(before, ws);
        for m := 0 to |translations|
          invariant Valid()
          invariant files == ApplyAll(init, done)
          invariant done == before + ws[..m]
        {
          var w := LangWrite(translations[m].0, locKey, translations[m].1);
          ApplyAllSnoc(init, done, w);
          Write(translations[m].0, locKey, translations[m].1);
          SnocSlice(before, ws, m);
          done := done + [w];
        }
        SliceAll(before, ws);
        AppendAssoc(before, ws, Writes(cleaned[n + 1..]).0);
        n := n + 1;
      }
      WritesEnd(cleaned);
      AppendNil(done);
      return Success(());
    }
  }
}
