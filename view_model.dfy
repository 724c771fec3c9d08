/**
 * TranslateViewModel: the inputs (sourceText, sourceLang, targetLang), the
 * published outputs (translatedText, availableModels) and the translators
 * cache. Every change of an input runs translate() and hands the resulting
 * task to processTranslation; the asynchronous outcomes of the ML Kit calls
 * are parameters, and a completion is modelled as happening within the call.
 */
module ViewModel {
  import opened Wrappers
  import opened Lru
  import opened TranslatorPool
  import opened Languages
  import opened Translation
  import JavaString

  /** A downloaded TranslateRemoteModel, identified by its language code. */
  datatype TranslateRemoteModel = TranslateRemoteModel(language: string)

  function DownloadedCodes(models: set<TranslateRemoteModel>): set<string>
  {
    set m | m in models :: m.language
  }

  /** The loop of the getDownloadedModels success listener: one code per model,
      in the set's iteration order (which the model leaves open). */
  method ModelCodes(models: set<TranslateRemoteModel>) returns (modelCodes: seq<string>)
    ensures |modelCodes| == |models|
    ensures multiset(modelCodes) == multiset(DownloadedCodes(models))
  {
    modelCodes := [];
    var remaining := models;
    while remaining != {}
      invariant remaining <= models
      invariant |modelCodes| + |remaining| == |models|
      invariant multiset(modelCodes) == multiset(DownloadedCodes(models - remaining))
      decreases |remaining|
    {
      var model :| model in remaining;
      assert model.language !in DownloadedCodes(models - remaining);
      assert DownloadedCodes(models - (remaining - {model}))
          == DownloadedCodes(models - remaining) + {model.language};
      modelCodes := modelCodes + [model.language];
      remaining := remaining - {model};
    }
  }

  class TranslateViewModel {
    const translators: Translators
    /** The "unknown issue" message of the Play services resources. */
    const unknownIssue: string

    var sourceLang: Option<Language>
    var targetLang: Option<Language>
    var sourceText: Option<string>
    var translatedText: Option<ResultOrError>
    var availableModels: Option<seq<string>>

    ghost predicate Valid()
      reads this, translators
    {
      translators.Valid() && translators.maxSize == NUM_TRANSLATORS
    }

    /** The inputs translate() reads. */
    function Current(): Snapshot
      reads this
    {
      Snapshot(sourceText, sourceLang, targetLang)
    }

    /** The constructor ends with fetchDownloadedModels(); `models` is the set
        its getDownloadedModels call succeeds with. */
    constructor (unknownIssue: string, models: set<TranslateRemoteModel>)
      ensures Valid() && fresh(translators)
      ensures translators.entries == [] && translators.closed == [] && translators.createCount == 0
      ensures this.unknownIssue == unknownIssue
      ensures sourceLang.None? && targetLang.None? && sourceText.None?
      ensures translatedText.None?
      ensures availableModels.Some? && |availableModels.value| == |models|
      ensures multiset(availableModels.value) == multiset(DownloadedCodes(models))
      ensures JavaString.Sorted(availableModels.value)
    {
      translators := new Translators(NUM_TRANSLATORS);
      this.unknownIssue := unknownIssue;
      sourceLang, targetLang, sourceText := None, None, None;
      translatedText, availableModels := None, None;
      new;
      FetchDownloadedModels(models);
    }

    /** What translate() does to the translators cache for input s: nothing
        for skipped input, otherwise exactly one get for the options, whose
        removed translators are closed. */
    twostate predicate CacheTranslated(s: Snapshot)
      reads translators
    {
      if Skips(s) then
        translators.entries == old(translators.entries) &&
        translators.closed == old(translators.closed) &&
        translators.createCount == old(translators.createCount)
      else
        var r := Lru.Get(old(translators.entries), OptionsFor(s).value,
                         old(translators.createCount), NUM_TRANSLATORS);
        translators.entries == r.entries &&
        translators.closed == old(translators.closed) + Values(r.evicted) &&
        translators.createCount == old(translators.createCount) + (if r.created then 1 else 0)
    }

    /** translate(): returns the task and the translator whose translate(text)
        was called (none when the input is skipped or the download failed).
        The translators cache is left alone for skipped input; otherwise it sees
        one get for the options, and the second get after the download is a hit
        on the same translator that changes nothing. */
    method Translate(download: Task<()>, translation: Task<string>) returns (task: Task<string>, used: Option<Handle>)
      requires Valid()
      modifies translators
      ensures Valid()
      ensures task == Translation.Translate(Current(), download, translation, unknownIssue)
      ensures CacheTranslated(Current())
      ensures Skips(Current()) ==> used.None?
      ensures !Skips(Current()) ==>
                var r := Lru.Get(old(translators.entries), OptionsFor(Current()).value,
                                 old(translators.createCount), NUM_TRANSLATORS);
                used == (if download.Success? then Some(r.value) else None)
    {
      var text, source, target := sourceText, sourceLang, targetLang;
      if source.None? || target.None? || text.None? || |text.value| == 0 {
        return Success(BLANK), None;
      }
      var options := TranslatorOptions(FromLanguageTag(source.value.code), FromLanguageTag(target.value.code));
      assert !Skips(Current()) && OptionsFor(Current()) == Some(options);
      ghost var r := Lru.Get(translators.entries, options, translators.createCount, NUM_TRANSLATORS);
      var translator := translators.Get(options);
      // translator.downloadModelIfNeeded() completed with `download`
      if download.Success? {
        ghost var entries, closed, count := translators.entries, translators.closed, translators.createCount;
        GetMostRecentIsIdentity(entries, options, count, NUM_TRANSLATORS);
        var again := translators.Get(options);
        assert again == translator == r.value;
        assert translators.entries == entries && translators.closed == closed + [] && translators.createCount == count;
        task, used := translation, Some(again);
      } else {
        var e := download.exception.GetOr(Exception(unknownIssue));
        task, used := Failure(Some(e)), None;
      }
    }

    /** translate().addOnCompleteListener(processTranslation): publishes the
        outcome of translating the current input. */
    method Recompute(download: Task<()>, translation: Task<string>)
      requires Valid()
      modifies this, translators
      ensures Valid()
      ensures translatedText == Some(ProcessTranslation(
                Translation.Translate(old(Current()), download, translation, unknownIssue)))
      ensures Current() == old(Current()) && availableModels == old(availableModels)
      ensures CacheTranslated(old(Current()))
    {
      var task, _ := Translate(download, translation);
      translatedText := Some(ProcessTranslation(task));
    }

    /** sourceText.setValue(text), which fires the translatedText source observer. */
    method SetSourceText(text: string, download: Task<()>, translation: Task<string>)
      requires Valid()
      modifies this, translators
      ensures Valid()
      ensures Current() == Snapshot(Some(text), old(sourceLang), old(targetLang))
      ensures translatedText == Some(ProcessTranslation(
                Translation.Translate(Current(), download, translation, unknownIssue)))
      ensures availableModels == old(availableModels)
      ensures CacheTranslated(Current())
    {
      sourceText := Some(text);
      Recompute(download, translation);
    }

    /** sourceLang.setValue(language), which fires the language observer. */
    method SetSourceLang(language: Language, download: Task<()>, translation: Task<string>)
      requires Valid()
      modifies this, translators
      ensures Valid()
      ensures Current() == Snapshot(old(sourceText), Some(language), old(targetLang))
      ensures translatedText == Some(ProcessTranslation(
                Translation.Translate(Current(), download, translation, unknownIssue)))
      ensures availableModels == old(availableModels)
      ensures CacheTranslated(Current())
    {
      sourceLang := Some(language);
      Recompute(download, translation);
    }

    /** targetLang.setValue(language), which fires the language observer. */
    method SetTargetLang(language: Language, download: Task<()>, translation: Task<string>)
      requires Valid()
      modifies this, translators
      ensures Valid()
      ensures Current() == Snapshot(old(sourceText), old(sourceLang), Some(language))
      ensures translatedText == Some(ProcessTranslation(
                Translation.Translate(Current(), download, translation, unknownIssue)))
      ensures availableModels == old(availableModels)
      ensures CacheTranslated(Current())
    {
      targetLang := Some(language);
      Recompute(download, translation);
    }

    /** The success listener of fetchDownloadedModels: publishes the language
        codes of the downloaded models, one per model, sorted ascending. */
    method FetchDownloadedModels(models: set<TranslateRemoteModel>)
      modifies this`availableModels
      ensures availableModels.Some?
      ensures |availableModels.value| == |models|
      ensures multiset(availableModels.value) == multiset(DownloadedCodes(models))
      ensures JavaString.Sorted(availableModels.value)
    {
      var modelCodes := ModelCodes(models);
      JavaString.SortSorted(modelCodes);
      modelCodes := JavaString.Sort(modelCodes);
      availableModels := Some(modelCodes);
    }

    /** onCleared(): evictAll() closes every cached translator and empties the cache. */
    method OnCleared()
      requires Valid()
      modifies translators
      ensures Valid()
      ensures translators.entries == []
      ensures translators.closed == old(translators.closed) + Values(old(translators.entries))
      ensures translators.createCount == old(translators.createCount)
    {
      translators.EvictAll();
    }
  }
}
