# Translator view model, modelled in Dafny

This project models the core of an Android translation screen's view model
(`TranslateViewModel`). The user picks a source language, a target language
and a text. On each change the view model translates the text with an ML Kit
translator and publishes a `ResultOrError`. The translators are expensive. They
live in a small least-recently-used cache of at most `NUM_TRANSLATORS` = 3,
keyed by the (source code, target code) options. Every translator the cache lets
go of is closed. The view model also publishes the sorted language codes of the
downloaded models.

Modules, one per concern:

- `JavaString` (`java_string.dfy`) holds the Java library behaviour the code relies on:
  `String.compareTo`, `String.hashCode` with 32-bit wrap-around, and
  `Collections.sort` on strings. Insertion sort is the reference definition
  for the sort.
- `Lru` (`lru.dfy`) states `android.util.LruCache` behaviour as values, with size 1 per entry.
  The cache is a sequence of (key, handle) entries, least recently used first.
  `get` promotes a hit to most recent. A miss creates a value, inserts it as most recent,
  and then `trimToSize` drops the eldest entries while over capacity.
  The module also keeps the accounting of created and closed handles.
- `LruHistory` (`lru_history.dfy`) follows a whole history of `get` calls on a new cache. It shows that the
  cache always holds the most recently accessed keys, least recently accessed first.
- `TranslatorPool` (`translator_pool.dfy`) holds the `translators` field as a class:
  `create`, `entryRemoved` (close, whatever the reason), `trimToSize`, `get` and
  `evictAll`. Its methods are proved against `Lru`.
- `Languages` (`languages.dfy`) is the `Language` value type: `equals`, `hashCode` and `compareTo`.
  The display name is a function parameter.
- `Translation` (`translation.dfy`) is the `translate()` decision procedure and `processTranslation`.
  They are pure functions of the input snapshot and of the outcomes of
  `downloadModelIfNeeded` and `Translator.translate`.
- `ViewModel` (`view_model.dfy`) is the `TranslateViewModel` class: the input and output fields,
  the three input setters (each one recomputes), `translate`, `fetchDownloadedModels` and `onCleared`.

A translator is identified by its creation number: the n-th translator
`create` builds is handle n. The `closed` field of the cache records every
`close()` call in order. The cache invariant says three things. The cache holds
at most 3 entries. It holds one entry per key. Every handle ever created is
either resident or in `closed`, and never both. So each translator that leaves
the cache is closed exactly once, and a resident one is never closed
(`Lru.ClosedExactlyOnce`).

Behaviour of the source worth noting:

- Skipped input (a missing language, missing text or empty text) yields a task that succeeds with `" "`, a single space.
- Nothing orders the recomputations. Each one publishes its own outcome when it completes, so an older outcome can overwrite a newer one.
- `entryRemoved` closes a translator as soon as it leaves the cache, even if a translation started earlier might still be using it.
- A failed download with no exception gets a generic "unknown issue" exception.
  A translator task that fails without an exception (a cancelled task) is published as
  `ResultOrError(null, null)`. `Translation.ProcessTranslation` and
  `Translation.PublishedExactlyOne` state exactly when that happens.

The source file does not compile as written. The model follows the evident intent at these spots:

- line 53 declares `availablModels`, but line 187 uses `availableModels`;
- line 69 places a stray `fetchDownloadedModels()` call inside the listener class; line 88 makes the same call;
- line 72 declares the text observer with the wrong type parameter;
- lines 85-86 read `addSource(sourceLang.languageObserver)`; the intent is `addSource(sourceLang, languageObserver)`;
- line 106 writes `new TranslateRemoteModel().Builder(...)`;
- line 114 passes an `OnCompleteListener` (with `OnComplete` capitalised) to `addOnSuccessListener`;
- line 145 contains `tResult:" "`, a pasted IDE hint; the value is `" "`;
- lines 157-159 write `throw Exception` where `throws Exception` is meant;
- line 179 names the parameter `traslateRemoteModels`, but lines 181-182 use `translateRemoteModels`;
- imports are missing (`List`, `Task`, `Locale`), and `Translator` is imported from the wrong package.

## Model

| member | source | states |
|---|---|---|
| `JavaString.CompareTo` | app/src/main/java/com/example/translator/TranslateViewModel.java:252 | `String.compareTo` on the display names, by recursion over the common prefix. It has no `ensures` of its own. The rows below carry its properties. |
| `JavaString.CompareToFirstDifference` | app/src/main/java/com/example/translator/TranslateViewModel.java:252 | The documented meaning of `String.compareTo`. With a common prefix of length k, the result is the difference of the characters at k where they differ, or the difference of the lengths when k ends either string. |
| `JavaString.CompareToAntisymmetric` | app/src/main/java/com/example/translator/TranslateViewModel.java:252 | Swapping the operands of `String.compareTo` negates the result, so the ordering is antisymmetric. |
| `JavaString.CompareToZero` | app/src/main/java/com/example/translator/TranslateViewModel.java:252 | `String.compareTo` is zero exactly for equal strings. |
| `JavaString.CompareToTransitive` | app/src/main/java/com/example/translator/TranslateViewModel.java:252 | The "at most" relation of `String.compareTo` is transitive. |
| `JavaString.Insert` | app/src/main/java/com/example/translator/TranslateViewModel.java:186 | Inserting into a list adds exactly that string: the multiset grows by it and the length by one. |
| `JavaString.InsertKeepsSorted` | app/src/main/java/com/example/translator/TranslateViewModel.java:186 | Inserting into an ascending list keeps it ascending. |
| `JavaString.Sort` | app/src/main/java/com/example/translator/TranslateViewModel.java:186 | `Collections.sort` returns a permutation of its input of the same length. |
| `JavaString.SortSorted` | app/src/main/java/com/example/translator/TranslateViewModel.java:186 | The result of `Collections.sort` is ascending under `String.compareTo`. |
| `JavaString.Hash32` | app/src/main/java/com/example/translator/TranslateViewModel.java:246 | The `h = 31 * h + c` loop of `String.hashCode` with 32-bit wrap-around. The unsigned result lies in [0, 2^32). |
| `JavaString.Hash32IsPolynomial` | app/src/main/java/com/example/translator/TranslateViewModel.java:246 | The hash equals the documented closed form, the sum of s[i]·31^(n-1-i), taken modulo 2^32. |
| `JavaString.ToInt32` | app/src/main/java/com/example/translator/TranslateViewModel.java:246 | Reinterpreting a 32-bit value as a Java `int` gives a value in the `int` range, congruent modulo 2^32. |
| `JavaString.HashCode` | app/src/main/java/com/example/translator/TranslateViewModel.java:246 | `String.hashCode` always lies in the Java `int` range. |
| `Lru.Find` | app/src/main/java/com/example/translator/TranslateViewModel.java:154 | Finds the position of a resident key; it finds none exactly when the key is not resident. |
| `Lru.Get` | app/src/main/java/com/example/translator/TranslateViewModel.java:33-41 | A hit returns the resident translator, creates nothing and removes nothing. A miss creates exactly one translator and returns it. Either way the key ends up as the most recently used entry. Capacity holds afterwards. An insert over capacity removes exactly the eldest entry, and an insert below capacity removes nothing. |
| `Lru.GetFrame` | app/src/main/java/com/example/translator/TranslateViewModel.java:33-41 | What a `get` does to the other entries. On a hit, with one entry per key, every other entry keeps its translator and its place in the recency order, and the key moves to the most recent end. On a miss the new entry is appended as the most recent. The removed entries plus the remaining ones are then exactly the old entries followed by the new one, so the removed ones are the eldest. |
| `LruHistory.RecencyStep` | app/src/main/java/com/example/translator/TranslateViewModel.java:33-41 | One `get` keeps the cache equal to the most recent part of the recency order of the accesses. |
| `LruHistory.RunKeepsRecency` | app/src/main/java/com/example/translator/TranslateViewModel.java:30-41 | After any history of `get` calls on a new cache of capacity `maxSize`, the cache holds the `maxSize` most recently accessed distinct keys (all of them when there are fewer), one entry each, ordered by last access. |
| `LruHistory.EvictsLeastRecentlyUsed` | app/src/main/java/com/example/translator/TranslateViewModel.java:30-46 | After any history, a miss on a full cache removes exactly one entry: the one whose key was accessed least recently among the cached keys. |
| `Lru.EvictAllRemovesEverything` | app/src/main/java/com/example/translator/TranslateViewModel.java:261 | `evictAll` (trim to -1) keeps no entry and removes every entry, eldest first. |
| `Lru.GetConservesHandles` | app/src/main/java/com/example/translator/TranslateViewModel.java:37-46 | After a `get`, the resident handles plus the removed handles equal the handles resident before plus the one created, if any. |
| `Lru.GetKeepsKeysDistinct` | app/src/main/java/com/example/translator/TranslateViewModel.java:33-41 | A `get` keeps at most one entry per key. |
| `Lru.GetMostRecentIsIdentity` | app/src/main/java/com/example/translator/TranslateViewModel.java:154-161 | A `get` on the most recently used key is a hit that changes nothing. So the second `get` in `translate` returns the translator the first one returned. |
| `Lru.ClosedExactlyOnce` | app/src/main/java/com/example/translator/TranslateViewModel.java:42-46 | While the accounting holds, each created translator is either resident or closed, never both. None is closed twice. Nothing that was never created appears. |
| `Lru.GetKeepsAccounted` | app/src/main/java/com/example/translator/TranslateViewModel.java:37-46 | A `get` whose removed translators are appended to the closed log keeps the accounting of created, resident and closed translators. |
| `Lru.TrimKeepsAccounted` | app/src/main/java/com/example/translator/TranslateViewModel.java:42-46 | Trimming keeps one entry per key. Once the trimmed translators are appended to the closed log, the accounting still holds. |
| `Lru.GetKeepsInv` | app/src/main/java/com/example/translator/TranslateViewModel.java:30-46 | A `get` preserves the cache invariant: at most `maxSize` entries, one per key, and every created translator either resident or closed. By induction this holds for every sequence of `get` calls. |
| `TranslatorPool.Translators.constructor` | app/src/main/java/com/example/translator/TranslateViewModel.java:33-34 | A new cache with capacity `maxSize` is empty, has created and closed nothing, and satisfies the invariant. |
| `TranslatorPool.Translators.Create` | app/src/main/java/com/example/translator/TranslateViewModel.java:37-41 | `create` builds a new translator, the next one in creation order. |
| `TranslatorPool.Translators.EntryRemoved` | app/src/main/java/com/example/translator/TranslateViewModel.java:42-46 | `entryRemoved` closes the removed translator, whether or not the removal was an eviction. |
| `TranslatorPool.Translators.TrimToSize` | app/src/main/java/com/example/translator/TranslateViewModel.java:33-47 | `trimToSize` removes the eldest entries until the limit is met, or all of them for a negative limit. It closes each removed translator in removal order. |
| `TranslatorPool.Translators.GetSteps` | app/src/main/java/com/example/translator/TranslateViewModel.java:33-41 | Performs the steps of `get` and leaves exactly the state `Lru.Get` describes. |
| `TranslatorPool.Translators.Get` | app/src/main/java/com/example/translator/TranslateViewModel.java:33-41 | `get` keeps the cache invariant and returns and stores exactly what `Lru.Get` describes. It closes exactly the translators that `Lru.Get` removes. |
| `TranslatorPool.Translators.EvictAll` | app/src/main/java/com/example/translator/TranslateViewModel.java:258-262 | `evictAll` empties the cache, closes every resident translator once, eldest first, and keeps the invariant. |
| `Languages.Equals` | app/src/main/java/com/example/translator/TranslateViewModel.java:223-235 | `equals` holds exactly for a `Language` with the same code. Null and other classes are never equal. |
| `Languages.HashCode` | app/src/main/java/com/example/translator/TranslateViewModel.java:243-247 | `hashCode` is the code's `String.hashCode`, inside the Java `int` range. |
| `Languages.EqualsImpliesSameHash` | app/src/main/java/com/example/translator/TranslateViewModel.java:223-247 | Equal languages have equal hash codes. |
| `Languages.CompareTo` | app/src/main/java/com/example/translator/TranslateViewModel.java:249-253 | `compareTo` compares the two display names with `String.compareTo`. It has no `ensures` of its own. The `Languages.CompareTo*` lemma rows carry its properties. |
| `Languages.CompareToAntisymmetric` | app/src/main/java/com/example/translator/TranslateViewModel.java:249-253 | `compareTo` is antisymmetric: swapping the operands negates the result. |
| `Languages.CompareToTransitive` | app/src/main/java/com/example/translator/TranslateViewModel.java:249-253 | `compareTo` is transitive. |
| `Languages.CompareToZero` | app/src/main/java/com/example/translator/TranslateViewModel.java:249-253 | `compareTo` is zero exactly when the display names coincide. Equal languages therefore compare as zero. |
| `Languages.SharedDisplayNameBreaksConsistency` | app/src/main/java/com/example/translator/TranslateViewModel.java:249-253 | Two different codes with the same display name compare as zero but are not equal. So `compareTo` is not consistent with `equals`. |
| `Translation.Skips` | app/src/main/java/com/example/translator/TranslateViewModel.java:144 | The guard of `translate()`: a missing source or target language, missing text or empty text. It has no `ensures` of its own. The `Translation.OptionsFor` and `Translation.Translate` rows carry what follows from it. |
| `Translation.FromLanguageTag` | app/src/main/java/com/example/translator/TranslateViewModel.java:147-148 | `TranslateLanguage.fromLanguageTag` on the code of an offered language, which is already a canonical tag, so the code is unchanged. It has no `ensures` of its own. `Translation.OptionsFor` states the codes that end up in the key. |
| `Translation.OptionsFor` | app/src/main/java/com/example/translator/TranslateViewModel.java:147-152 | The cache key is built from the source and target codes. It is present exactly when the input is not skipped. |
| `Translation.Translate` | app/src/main/java/com/example/translator/TranslateViewModel.java:140-171 | Skipped input (a missing language, missing text or empty text) succeeds with `" "`. A successful download gives the translator's own task. A failed download gives a failure that always carries an exception: the download's own exception, or the generic "unknown issue" exception when there is none. |
| `Translation.ProcessTranslation` | app/src/main/java/com/example/translator/TranslateViewModel.java:59-67 | Success becomes `ResultOrError(result, null)` and failure becomes `ResultOrError(null, exception)`. Exactly one field is set unless the task failed without an exception. |
| `Translation.PublishedExactlyOne` | app/src/main/java/com/example/translator/TranslateViewModel.java:59-67 | The published value has exactly one field set unless the input is not skipped, the download succeeded, and the translator's task failed without an exception. |
| `Translation.TranslationUsedOnlyAfterDownload` | app/src/main/java/com/example/translator/TranslateViewModel.java:154-168 | When the input is skipped or the download failed, the result does not depend on the translator's answer. |
| `ViewModel.ModelCodes` | app/src/main/java/com/example/translator/TranslateViewModel.java:179-185 | The loop yields one code per downloaded model, exactly the models' language codes. |
| `ViewModel.TranslateViewModel.constructor` | app/src/main/java/com/example/translator/TranslateViewModel.java:49-89 | Starts with empty inputs, no translation and an empty cache of capacity `NUM_TRANSLATORS`. It ends with `fetchDownloadedModels()`, so the sorted codes of the downloaded models are already published. |
| `ViewModel.TranslateViewModel.Translate` | app/src/main/java/com/example/translator/TranslateViewModel.java:140-171 | Returns the task `Translation.Translate` describes for the current inputs. Skipped input leaves the cache untouched. Otherwise the cache sees exactly one `Lru.Get` for the options (the second `get` is a hit that changes nothing), and after a successful download the translator used is the one that `get` returned. |
| `ViewModel.TranslateViewModel.Recompute` | app/src/main/java/com/example/translator/TranslateViewModel.java:72-86 | A source observer publishes `processTranslation` of `translate()` for the current inputs. It changes no input. For skipped input the cache is untouched. Otherwise the cache undergoes exactly the one `Lru.Get` for the input's options, and the translators it removes are closed. |
| `ViewModel.TranslateViewModel.SetSourceText` | app/src/main/java/com/example/translator/TranslateViewModel.java:72-77 | Setting the text stores it and publishes the translation of the new snapshot. The cache is left alone when the new snapshot is skipped. Otherwise it undergoes exactly one `Lru.Get` for the new options. |
| `ViewModel.TranslateViewModel.SetSourceLang` | app/src/main/java/com/example/translator/TranslateViewModel.java:79-85 | Setting the source language stores it and publishes the translation of the new snapshot. The cache is left alone when the new snapshot is skipped. Otherwise it undergoes exactly one `Lru.Get` for the new options. |
| `ViewModel.TranslateViewModel.SetTargetLang` | app/src/main/java/com/example/translator/TranslateViewModel.java:79-86 | Setting the target language stores it and publishes the translation of the new snapshot. The cache is left alone when the new snapshot is skipped. Otherwise it undergoes exactly one `Lru.Get` for the new options. |
| `ViewModel.TranslateViewModel.FetchDownloadedModels` | app/src/main/java/com/example/translator/TranslateViewModel.java:173-190 | The published list has one entry per downloaded model, holds exactly their language codes, and is sorted ascending. |
| `ViewModel.TranslateViewModel.OnCleared` | app/src/main/java/com/example/translator/TranslateViewModel.java:257-262 | `onCleared` empties the cache and closes every translator it held, once each. It creates nothing. |

## Left out

- ML Kit and Play services calls are foreign. `Translation.getClient` becomes the next creation number. The outcomes of `downloadModelIfNeeded` and `Translator.translate` are parameters. For `RemoteModelManager.getDownloadedModels`, only the success listener is modelled, and the set of models is its parameter.
- `downloadLanguage` and `deleteLanguage` (lines 109-138) are left out. Their download and delete calls are foreign. Their only own logic is to re-run `fetchDownloadedModels`: after a successful download (`addOnSuccessListener`, line 114), and after any completed delete (`addOnCompleteListener`, line 129). `FetchDownloadedModels` covers that re-run.
- `getAvailableLanguages` and `getModel` (lines 91-107) are left out. They only wrap library lists and builders.
- Asynchrony is not modelled. Each task completes within the call that starts it. Interleaved recomputations, `Task` continuation scheduling and `postValue`/`setValue` threading are out of scope.
- LiveData observer dispatch is reduced to a direct call. Each setter stores the value and recomputes. The dispatch that `MediatorLiveData` makes when it first becomes active is not modelled.
- `LruCache` internals the code does not use are left out: the race in `get` (a value created concurrently is put back and the created one released), the hit, miss, put and eviction counters, and `put`, `remove`, `resize` and `snapshot`.
- `Language.getDisplayName` and `toString` use the platform locale service. The display name is a function parameter, and `toString` is left out.
- `TranslateLanguage.fromLanguageTag` is the identity on the codes the view model offers. Its null result for an unknown tag is not modelled.
- `JavaString.CompareTo`: does not model UTF-16 code units. Dafny characters are Unicode scalar values, which give the same order for characters in the Basic Multilingual Plane, and language codes are ASCII.
- `JavaString.HashCode`: also runs over Unicode scalar values, not UTF-16 code units. Outside the Basic Multilingual Plane, Java hashes two surrogates where the model hashes one character, so the values differ there. For the ASCII language codes they agree.
- `JavaString.Sort`: insertion sort stands in for the stable merge sort of `Collections.sort`. For strings the two give the same list, because `compareTo` is zero only for equal strings.
- `getApplication().getString(...)` is a resource lookup. The "unknown issue" message is a constructor parameter.
- A translator's own state is not modelled: only the fact that `close()` was called on it, and in what order.
