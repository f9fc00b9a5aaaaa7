# Prophets' Duas: a verified model of the browser app's core

`app.js` is a client-side browser for a dataset of supplications (duas). Each
entry has a prophet, topics, a source reference and texts in several
languages. This project models the logic under the app's screens and proves
properties of it:

- **Filter engine.** `filterData` scans the search index and returns, in
  dataset order, the ids that pass every active criterion.
- **Preferences.** Toggling a favourite, pushing an id onto the recent list,
  and clamping the font sizes.
- **Hash router.** `parseHash`, `setHashFromState` and `handleRouteChange`,
  together with the browser pieces they rely on:
  - the `application/x-www-form-urlencoded` serializer and parser of the
    URL Standard, which `URLSearchParams` uses;
  - the UTF-8 encoder and decoder of the Encoding Standard;
  - the `location.hash` setter and getter.
- **Dataset indexer.**
  - `buildDerived` makes one search record per entry and the distinct
    prophets, topics and source types.
  - The `fetchData` check accepts only a dataset whose root is an array.
  - `findById` builds its lookup map lazily.
- **Small helpers.** `normalize`, `escapeHTML`, the daily pick
  (`seededIndex`) and `buildFullCopy`.

| file | module | what it holds |
|---|---|---|
| `wrappers.dfy` | `Wrappers` | `Option` |
| `text.dfy` | `Text` | `normalize`, JavaScript `||` on strings, `join`, `includes` |
| `lists.dfy` | `Lists` | `filter`, `Set` insertion order, subsequences |
| `prefs.dfy` | `Prefs` | `state.prefs` and its updates (a class) |
| `html.dfy` | `Html` | `escapeHTML` |
| `daily.dfy` | `Daily` | `seededIndex` / `getDailyDua` with JavaScript `%` |
| `utf8.dfy` | `Utf8` | UTF-8 encode / decode |
| `urlencoded.dfy` | `UrlEncoded` | `URLSearchParams`: `get`, `set`, `toString`, parsing |
| `location.dfy` | `Location` | the `location.hash` accessors |
| `router.dfy` | `Router` | `parseHash`, `setHashFromState`, `handleRouteChange` (a class for the view state) |
| `catalog.dfy` | `Catalog` | dataset, index, derived lists, `findById`, `buildFullCopy` (a class for the globals) |
| `filter.dfy` | `Filter` | `filterData` (a loop method) and its properties |

Where the design description and the code disagree, the model follows the
code:

- The hash key for the view is `route`, not `view`.
- On the `dua` route, `setHashFromState` still writes the non-empty filters
  next to `route=dua&dua=<id>`; they are not dropped. `HashRoundTrip` states
  that they come back.
- `dua` without `route` gives the `dua` route. `route=` with an empty value
  behaves as if `route` were absent.
- There is no dataset validation pass in the code.

`normalize` is modelled on its ASCII part, and the properties that need
the program's `normalize` to agree with the model's ask for ASCII input:

- `toLowerCase` on `A`–`Z`;
- NFKD as the identity;
- removal of U+0300–U+036F;
- collapsing of runs of JavaScript white space into one space;
- `trim`.

The white-space set is ECMAScript's `\s`, character for character.

## Model

| member | source | states |
|---|---|---|
| Text.StripMarks | app.js:152 | a character is kept exactly when it is in the input and is not a combining mark (U+0300–U+036F); the result is never longer; a string without marks is unchanged |
| Text.StripMarksConcat | app.js:152 | marks are removed piece by piece, so the kept characters stay in their order |
| Text.Collapse | app.js:153 | no run of white space and no white space other than a plain space is left; every character comes from the input or is a space; a leading non-space is kept |
| Text.CollapseNonWhite | app.js:153 | with white space removed, the result and the input are the same string: the other characters are all kept, in order |
| Text.CollapseEnds | app.js:153 | the result is never longer, is empty exactly when the input is, and ends with the input's last character when that is not white space |
| Text.Trim | app.js:154 | the result is the slice of the input after its leading white space, with only white space after it, and has no white space at either end |
| Text.TrimCollapse | app.js:153-154 | collapsing runs of white space and trimming commute |
| Text.Normalize | app.js:148-155 | the output has no upper-case ASCII letter, no combining mark, and white space only as single inner spaces; ASCII input gives ASCII output |
| Text.NormalizeFixesNormalized | app.js:148-155 | an ASCII string already in normal form is left unchanged |
| Text.NormalizeIdempotent | app.js:148-155 | on ASCII input, normalizing twice is normalizing once |
| Text.NormalizeIncludes | app.js:148-155 | when an ASCII needle occurs in a string, the normalized needle occurs in the normalized string |
| Text.IncludesIff | app.js:1299 | `includes` holds exactly when the needle occurs at some position |
| Text.IncludesTrans | app.js:1299 | what occurs in a part of a string occurs in the string |
| Text.IncludesJoinedPart | app.js:1507 | every part of a join occurs in the joined string |
| Lists.Dedup | app.js:340 | a `Set` filled in order keeps every element once, with the same members |
| Lists.DedupIsSubseq | app.js:378 | `Array.from` of the `Set` lists its values in input order (a subsequence of the input) |
| Lists.DedupFirstOrder | app.js:378 | the values are listed in the order of their first occurrence |
| Lists.RemoveAll | app.js:1698 | `filter(x => x !== id)` keeps, in order and with their counts, exactly the elements other than `id` |
| Lists.IsSubseqLength | app.js:1281-1303 | a subsequence is no longer than its sequence |
| Prefs.Clamp | app.js:165-167 | with min ≤ max the result is in [min, max], is n exactly when n is in range, and is the nearer bound otherwise; with min > max it is min, as `Math.max(min, Math.min(max, n))` gives |
| Prefs.CssFontSizes | app.js:206-213 | the Arabic size is in [16, 34] and the text size in [13, 20]; 0 falls back to 20 and 15; an in-range value is kept; `--arabic-big` is the Arabic size plus 4 |
| Prefs.Toggled | app.js:1676-1681 | `id` is a favourite afterwards exactly when it was not before; every other id keeps its membership; the list has no repeats |
| Prefs.ToggleTwice | app.js:1676-1681 | toggling the same id twice gives back the same set of favourites |
| Prefs.Pushed | app.js:1696-1700 | the recent list is non-empty, starts with `id` and has at most 20 entries |
| Prefs.PushedSpec | app.js:1696-1700 | `id` occurs exactly once; the tail is the old list without `id`, in order, cut to 19; nothing new enters; a list without repeats stays without repeats |
| Prefs.Preferences.Defaults | app.js:17-29 | the preference record starts as `DEFAULT_PREFS` |
| Prefs.Preferences.ToggleFavorite | app.js:1676-1681 | the favourites become `Toggled` of the old ones: membership of `id` flips, other ids are unchanged, no repeats |
| Prefs.Preferences.PushRecentId | app.js:1696-1700 | the recent list becomes `Pushed` of the old one: `id` first and once, at most 20 entries |
| Prefs.Preferences.StepFonts | app.js:539-546 | A-/A+ move both sizes by one and clamp them to [16, 34] and [13, 20] |
| Html.EscapeHTML | app.js:137-146 | escaping loses nothing: decoding the five entities gives back the input |
| Html.EscapedIsInert | app.js:137-146 | the output has no raw `<`, `>`, `"` or `'`, and every `&` starts one of the five entities |
| Html.EscapeConcat | app.js:137-146 | escaping works character by character |
| Html.EscapePlain | app.js:137-146 | a string without special characters is unchanged |
| Daily.JsRem | app.js:1722-1724 | JavaScript `%`: a non-negative dividend gives a remainder in [0, abs(divisor)); a non-positive dividend gives one in (-abs(divisor), 0] |
| Daily.JsDivision | app.js:1722-1724 | `%` agrees with truncating division |
| Daily.SeededIndex | app.js:1720-1725 | for a non-negative seed the index is in [0, mod); for any seed its absolute value is below mod |
| Daily.DailyIndex | app.js:1711-1718 | an empty dataset gives no entry; a non-negative seed on a non-empty dataset always gives an existing index |
| Utf8.DecodeEncode | app.js:228 | UTF-8 decoding undoes UTF-8 encoding |
| Utf8.DecodeEncodedChar | app.js:228 | the decoder reads back exactly the bytes of one encoded scalar value |
| Utf8.EncodeConcat | app.js:266 | encoding works character by character |
| UrlEncoded.Get | app.js:229-237 | `get(name)` finds a value exactly when some pair has that name |
| UrlEncoded.GetFirst | app.js:229-237 | `get(name)` is the value of the first pair with that name |
| UrlEncoded.SetShape | app.js:250-264 | after `set(name, value)` every pair with that name holds `value` and there is at most one; a new name is appended at the end; an existing one never makes the list longer |
| UrlEncoded.GetSet | app.js:250-264 | after `set(name, value)`, `get(name)` is `value` and every other name reads as before |
| UrlEncoded.EncodeByte | app.js:266 | the serializer writes only unreserved bytes, `+` and `%`; a byte stays one byte exactly when it is a space or unreserved |
| UrlEncoded.SerializeShape | app.js:266 | the serialized string uses only unreserved characters, `%`, `+`, `=` and `&`, and holds `=` when there is a pair |
| UrlEncoded.Parse | app.js:228 | the empty string and a lone `?` parse to no pairs |
| UrlEncoded.ComponentRoundTrip | app.js:228-237 | percent-decoding with `+` as space undoes the serializer's encoding of a name or value |
| UrlEncoded.ParsePiecesRoundTrip | app.js:228-237 | parsing the `&`-joined pairs gives back the pairs |
| UrlEncoded.ParseBytesSerialized | app.js:228-237 | the serialized bytes, split on `&` and parsed piece by piece, give back the pairs (none for the empty list) |
| UrlEncoded.ParseSerialize | app.js:228-266 | `new URLSearchParams(params.toString())` has the same pairs as `params` |
| Location.FragmentAfterSet | app.js:266 | the assignment always leaves a fragment; `""` and `"#"` leave an empty one; it holds only characters the fragment encoder keeps |
| Location.HashGetter | app.js:219 | the hash reads `""` for a missing or empty fragment and `#` plus the fragment otherwise |
| Location.AssignInert | app.js:266 | a value of such characters that does not start with `#` reads back with a `#` in front |
| Location.AssignStable | app.js:219-266 | writing back what `location.hash` reads changes nothing |
| Router.ParseHash | app.js:218-243 | the route is never empty; q, prophet, topic and source are all present exactly when the hash without its `#` contains `=` |
| Router.ParseHashCases | app.js:218-243 | an empty hash or `#` gives `home`; a hash without `=` gives its literal text as the route; in a query hash a non-empty `route` wins, else a non-empty `dua` gives `dua`, else `home`; `dua` is passed on; absent filters read as `""` |
| Router.HashParams | app.js:245-254 | the params hold `route` (the target route) and `dua` only on the `dua` route with a truthy id |
| Router.HashParamsFilters | app.js:256-264 | each filter is in the params, with its value, exactly when it is non-empty |
| Router.HashString | app.js:245-266 | the string `setHashFromState` assigns is non-empty, starts with neither `#` nor `?`, contains `=`, and holds only characters the fragment encoder keeps |
| Router.Resync | app.js:269-279 | the route is the parsed one, or `home` when that is empty; a truthy `dua` becomes the route parameter and a falsy one clears it; each filter the hash carries is taken from it and the others keep their old value |
| Router.AssignSerialized | app.js:219-266 | assigning a non-empty serialized list to `location.hash` reads back as `#` and a query string that parses to the same list |
| Router.HashRoundTrip | app.js:218-266 | parsing the hash that `setHashFromState` wrote gives the written route (or `home`), the `dua` id on the `dua` route, and the same query and filter values, empty ones coming back as `""` |
| Router.NavigateRoundTrip | app.js:245-279 | after a navigation the view has the written route and filters and, on the `dua` route, the written id |
| Router.RouterState.constructor | app.js:107-116 | the view state starts on `home` with no selected id and empty filters |
| Router.RouterState.SetHashFromState | app.js:245-267 | the hash becomes what the browser reads after assigning the serialized params, and it parses back to the target route |
| Router.RouterState.HandleRouteChange | app.js:269-280 | the view state is resynchronized from the parsed hash |
| Router.RouterState.ApplyParsed | app.js:273-279 | the route falls back to `home`, a falsy `dua` becomes no id, and each filter is overwritten only when the parsed hash carries it |
| Router.RouterState.Navigate | app.js:245-289 | the hash becomes the assigned params; when it changed, the `hashchange` handler leaves the view exactly as the navigation asked; when it did not, no `hashchange` fires and the view is unchanged |
| Catalog.ProphetKey | app.js:333 | the key is the English name, else the Turkish one, else the Arabic one; it is empty exactly when all three are |
| Catalog.SourceType | app.js:342 | the source type is never empty and is the given type when there is one |
| Catalog.SearchText | app.js:349-361 | the haystack is in normal form |
| Catalog.SearchFindsText | app.js:349-361 | an ASCII text that occurs in any searched field of the entry occurs, normalized, in the haystack |
| Catalog.IndexOf | app.js:328-370 | the record keeps the id; its key is the English, else Turkish, else Arabic name; its topics are exactly the non-empty labels; its source type is the type or `Other`; its haystack is the normalized join of the fields |
| Catalog.DistinctProphetsKeys | app.js:335-337 | no prophet key occurs twice in the prophet list |
| Catalog.DistinctProphetsCover | app.js:335-337 | every entry with a non-empty key has its key in the list |
| Catalog.DistinctProphetsFirst | app.js:335-337 | each element carries the names of the first entry with its key (first seen wins) |
| Catalog.DistinctTopicsSpec | app.js:339-340 | the topic list holds each non-empty label of the dataset exactly once |
| Catalog.RankOrder | app.js:378-383 | the source types are sorted Quran, Hadith, rest; they are a permutation of the input; within a rank the input order is kept (a stable sort) |
| Catalog.ById | app.js:1668 | an id is in the map exactly when some entry has it |
| Catalog.ByIdLast | app.js:1668 | for duplicate ids the last entry wins |
| Catalog.BuildFullCopy | app.js:1493-1508 | the copy starts with the prophet name, a blank line and the source line; with no texts it is just those; it contains each of the four texts |
| Catalog.Derive | app.js:328-383 | the loop yields the index, the distinct prophets, the topics in first-seen order and the source types in preferred order, as `Derivation` defines them |
| Catalog.AddAll | app.js:340 | adding the labels to the topic `Set` one by one gives the distinct labels seen so far |
| Catalog.Catalog.constructor | app.js:101-105 | before loading, the dataset and derived lists are empty and the source types are `Quran, Hadith, Other` |
| Catalog.Catalog.BuildDerived | app.js:322-388 | the derived globals agree with the dataset |
| Catalog.Catalog.ReceiveDataset | app.js:303-305 | a root that is not an array is rejected and nothing changes; an array becomes the dataset and the derived globals are rebuilt |
| Catalog.Catalog.FindById | app.js:1665-1671 | the map is built on the first call and kept; the result is the entry for the id or none; with a fresh cache it is the last entry with that id |
| Filter.SomeTopicNormalizesTo | app.js:1292-1294 | the inner loop finds a topic exactly when some topic normalizes to the asked one |
| Filter.Admit | app.js:1284-1301 | one record passes the body of the scan exactly when it matches every active criterion |
| Filter.MatchesSplit | app.js:1286-1299 | the tests combine by "and": a record passes exactly when it passes the favourites switch and each criterion set on its own |
| Filter.FilterData | app.js:1273-1306 | the scan returns exactly the ids of the matching records, in index order |
| Filter.FilterSubseq | app.js:1281-1303 | the result is the index's id list with some ids left out, so it is never longer than the index |
| Filter.FilterMembers | app.js:1281-1303 | an id is in the result exactly when a record with that id passes every active test |
| Filter.FilterNoCriteria | app.js:1274-1305 | criteria that all normalize to `""`, with the favourites switch off, give every id in order |
| Filter.FavoritesNarrow | app.js:1286 | the favourites switch keeps exactly the favourite ids of the unrestricted result |
| Filter.TopicShortcut | app.js:1289-1296 | the raw-label check before the normalized topic loop never changes the outcome |
| Filter.SameNormalForms | app.js:1274-1277 | criteria with the same normal forms select the same records |
| Filter.FilterNormalCriteria | app.js:1274-1277 | for ASCII criteria, filtering with the normalized criteria gives the same ids |
| Filter.FindsByProphet | app.js:1288 | choosing an entry's own prophet key finds that entry |
| Filter.FindsByTopic | app.js:1289-1296 | choosing one of an entry's topic labels finds that entry |
| Filter.FindsBySource | app.js:1297 | choosing an entry's source type finds that entry |
| Filter.FindsByText | app.js:1299 | a search for an ASCII text that occurs in one of an entry's searched fields finds that entry |
| Filter.ProphetOptionsFind | app.js:704-712 | every option of the prophet select finds at least one entry |
| Filter.TopicOptionsFind | app.js:714-719 | every option of the topic select finds at least one entry |
| Filter.SourceOptionsFind | app.js:721-726 | every option of the source select finds at least one entry |

## Left out

- DOM rendering, event wiring, i18n, toasts and focus management. This is presentation over browser APIs.
- `fetch`, `res.ok` and `res.json()`. Only the array check and the assignment after a successful parse are modelled (`Catalog.Catalog.ReceiveDataset`).
- `localStorage`: `loadPrefs`, `savePrefs` and the key merge over `DEFAULT_PREFS`. This is browser I/O; `setPref`'s write to storage is dropped from `ToggleFavorite`, `PushRecentId` and `StepFonts`.
- `state.prefs.lastRoute` bookkeeping in `handleRouteChange`. It only feeds storage.
- `debounce`. It is timer scheduling.
- `normalize`: Unicode case mapping beyond ASCII and NFKD decomposition. They need Unicode tables; NFKD is the identity in the model.
- Text.Normalize: its contract is about the model's `normalize`. The program's differs outside ASCII: `normalize("𝐀")` (U+1D400) is `"A"`, because `toLowerCase` leaves the character alone and NFKD then turns it into `A`. So in the program the output can hold an upper-case letter.
- Text.NormalizeFixesNormalized: stated for ASCII strings only. `"É"` is in the model's normal form, but the program turns it into `"e"`.
- Text.NormalizeIdempotent: stated for ASCII strings only. The program's `normalize` is not idempotent: `"𝐀"` becomes `"A"` and then `"a"`.
- Text.NormalizeIncludes: the needle must be ASCII. With Greek final sigma, `"ΑΣ"` lowers to `"ας"` but `"Σ"` lowers to `"σ"`, so an occurrence can be lost.
- Filter.FilterNormalCriteria: stated for ASCII criteria only. For `q = "𝐀"` the program filters by `"A"`, but by `"a"` once the criteria are normalized first.
- Catalog.SearchFindsText: the searched text must be ASCII, for the reason given for `Text.NormalizeIncludes`.
- Filter.FindsByText: the searched text must be ASCII, for the same reason.
- UrlEncoded.ParseSerialize: a Dafny `char` is a Unicode scalar value, but a JavaScript string may hold a lone surrogate. `URLSearchParams` turns a lone surrogate into U+FFFD, so in the program the round trip fails for such a value.
- Router.HashRoundTrip: for the same reason, a filter value holding a lone surrogate does not come back unchanged in the program.
- Catalog.Catalog.ReceiveDataset: every array element is an entry record in the model. In the program a `null` element makes `p.id` throw at app.js:329, after `DATA = json` at app.js:304. `DATA` is then replaced while `INDEX` and the derived lists keep their old values, and the error panel shows.
- `highlightHTML` and `escapeRegExp`. They rely on the JavaScript regular expression engine.
- `getDailyDua`'s `new Date()`. The seed is a parameter of `Daily.DailyIndex`.
- The `PROPHETS` and `TOPICS` sorts. Their comparators never return 0, so tie order depends on the engine. The model keeps first-seen order.
- JSON values that are not strings (`safeText`, `String(...)`, `Number(...)`, `NaN`). Every field is a string, and a missing field is `""`.
- `openDua`, `closeSideSheet`, `inferBackRoute`, `makeShareLink` and `copyToClipboard`. These are navigation glue and browser I/O over the modelled router.
- Catalog.Catalog.FindById: the map cached by `findById` is never invalidated. The contract promises the last entry with the id only when the cache was empty or built from the current dataset. The app assigns `DATA` once.
- The iteration order of a JavaScript `Set` in the inner topic loop of `filterData`. The loop stops at the first hit, and the result does not depend on the order.
