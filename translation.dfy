/**
 * The translate() decision procedure and the completion listener
 * processTranslation, with the outcomes of the asynchronous ML Kit calls
 * (downloadModelIfNeeded and Translator.translate) given as parameters.
 */
module Translation {
  import opened Wrappers
  import opened Languages
  import opened TranslatorPool

  datatype Exception = Exception(message: string)

  /** A completed com.google.android.gms.tasks.Task: successful with a result, or
      unsuccessful with getException() giving an exception or null (a task that
      was cancelled has no exception). */
  datatype Task<T> = Success(result: T) | Failure(exception: Option<Exception>)

  /** TranslateViewModel.ResultOrError: two nullable fields. */
  datatype ResultOrError = ResultOrError(result: Option<string>, error: Option<Exception>)

  /** What translate() reads from sourceText, sourceLang and targetLang. */
  datatype Snapshot = Snapshot(text: Option<string>, source: Option<Language>, target: Option<Language>)

  /** The result translate() gives for missing or empty input. */
  const BLANK: string := " "

  /** translate() answers at once, without any translator, when a language or
      the text is missing or the text is empty. */
  predicate Skips(s: Snapshot)
  {
    s.source.None? || s.target.None? || s.text.None? || |s.text.value| == 0
  }

  /** TranslateLanguage.fromLanguageTag on the code of a Language offered by the
      view model: such codes are already canonical tags. */
  function FromLanguageTag(code: string): string
  {
    code
  }

  /** The translators key translate() builds, present exactly when it does not skip. */
  function OptionsFor(s: Snapshot): (o: Option<TranslatorOptions>)
    ensures o.None? <==> Skips(s)
    ensures o.Some? ==> o.value.sourceLanguage == s.source.value.code &&
                        o.value.targetLanguage == s.target.value.code
  {
    if Skips(s) then None
    else Some(TranslatorOptions(FromLanguageTag(s.source.value.code), FromLanguageTag(s.target.value.code)))
  }

  /** The task translate() returns: BLANK for skipped input; otherwise, when the
      model download succeeded, the translator's translation of the text, and
      when it failed, a failure carrying the download's exception or, when there
      is none, a generic "unknown issue" exception. */
  function Translate(s: Snapshot, download: Task<()>, translation: Task<string>, unknownIssue: string): (r: Task<string>)
    ensures Skips(s) ==> r == Success(BLANK)
    ensures !Skips(s) && download.Success? ==> r == translation
    ensures !Skips(s) && download.Failure? ==>
              r.Failure? && r.exception.Some? &&
              r.exception.value == (if download.exception.Some? then download.exception.value
                                    else Exception(unknownIssue))
  {
    if Skips(s) then Success(BLANK)
    else match download
      case Success(_) => translation
      case Failure(e) => Failure(Some(e.GetOr(Exception(unknownIssue))))
  }

  /** processTranslation: success becomes ResultOrError(result, null), anything
      else ResultOrError(null, exception). Exactly one field is set unless the
      task failed without an exception. */
  function ProcessTranslation(task: Task<string>): (r: ResultOrError)
    ensures r.result.Some? <==> task.Success?
    ensures task.Success? ==> r.result == Some(task.result) && r.error.None?
    ensures task.Failure? ==> r.error == task.exception
    ensures (r.result.Some? != r.error.Some?) <==> task != Failure(None)
  {
    match task
    case Success(v) => ResultOrError(Some(v), None)
    case Failure(e) => ResultOrError(None, e)
  }

  /** The value published for one recomputation has exactly one field set,
      except when the translator's own task fails without an exception; a failed
      model download always publishes an exception. */
  lemma PublishedExactlyOne(s: Snapshot, download: Task<()>, translation: Task<string>, unknownIssue: string)
    ensures var r := ProcessTranslation(Translate(s, download, translation, unknownIssue));
      (r.result.Some? != r.error.Some?) <==>
        (Skips(s) || download.Failure? || translation != Failure(None))
  {
  }

  /** Translation is only attempted with a translator whose model is ready:
      whatever the translator would answer, skipped input and a failed download
      give results that do not depend on it. */
  lemma TranslationUsedOnlyAfterDownload(s: Snapshot, download: Task<()>, t1: Task<string>, t2: Task<string>, unknownIssue: string)
    requires Skips(s) || download.Failure?
    ensures Translate(s, download, t1, unknownIssue) == Translate(s, download, t2, unknownIssue)
  {
  }
}
