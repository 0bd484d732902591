# Expression Evaluator: variable-binding state, in Dafny

The Spring Expression Evaluator front end lets a user type a SpEL expression,
detects the variables the expression reads through `get('key')`, offers one
input per variable (a text value, or `null`), and sends the expression and the
values to an evaluation service. This project models the part of the `App`
component (src/App.tsx) that does this bookkeeping, as pure functions over an
immutable state value:

- `KeyScan` — key extraction in `parseExpression`. The global pattern
  `get\(['"](.*?)['"]\)` is written out as a character scanner (`FindClose`,
  `MatchAt`, `ScanFrom`). Its contract is an independent description of the
  regular expression's semantics: each match is lazy and leftmost, matches do
  not overlap, and no match is skipped. A lemma shows that this description
  admits exactly one match list. The rewrite
  `replace(/get\(['"](.*)['"].*/, '$1')` is modelled as `StripMatch`, with a
  proof that it yields the text between the quotes. De-duplication
  (`[...new Set(...)]`) is `Seqs.Dedup`.
- `AppState` — the state (`expression`, `keys`, `keyValues`, `inputTypes`,
  `loading`, `searchTerm`) and the handlers `parseExpression`,
  `handleExpressionChange`, `handleKeyValueChange`, `handleInputTypeChange` and
  `clearKey`. It also defines the invariant `Valid`: every listed key is bound,
  a null-kind key holds `"null"`, and keys are distinct. The merge in
  `AppState.ParseExpression` is the corrected one, which reads own entries
  only. The merge as written can leave a listed key unbound (see Findings).
  `Valid` is kept by the corrected parse, by every kind change and clear, and
  by value edits on text-kind keys. Those are the only keys the form shows a
  value input for.
- `Views` — the `keys` object of the evaluation request, `filteredKeys` and
  the submit button's `disabled` condition.
- `JsStrings` — the JavaScript string primitives these use: line terminators,
  `trim`, ASCII `toLowerCase` and `includes`.
- `PrototypeLookup` — the binding merge exactly as written, which reads
  inherited `Object.prototype` properties (see Findings).

Three facts about the code shape the model:

- Reconciliation keeps the bindings of keys that are no longer referenced.
  They are still sent with the request (`AppState.StaleBindingKeptExample`,
  `Views.StaleBindingStillSent`).
- A key is any run of characters without a line terminator and without a
  quote directly followed by `)` (`KeyScan.ExtractedKeyOccurs`). Spaces,
  punctuation and non-ASCII letters are all accepted.
- Whatever text lies between the quotes of an accessor becomes a key, including the empty text (`KeyScan.EmptyKeyAccessor`).

## Model

| member | source | states |
|---|---|---|
| KeyScan.FindClose | src/App.tsx:28 | the lazy `(.*?)['"]\)` tail returns the first quote-then-`)` reachable without crossing a line terminator, and returns nothing exactly when no such pair is reachable |
| KeyScan.MatchAt | src/App.tsx:28 | a match found at an index is a real lazy match there; when none is found, no accessor-shaped text starts there |
| KeyScan.ScanFrom | src/App.tsx:28 | the global match list: empty when no match starts at or after the index; otherwise the leftmost lazy match, followed by the search resumed behind its `)` |
| KeyScan.ScannedAt | src/App.tsx:28 | every entry of the global match list is a lazy match at or after the start index, the next entry starts behind its `)`, and no match starts in between |
| KeyScan.ScanFromIsTheSearch | src/App.tsx:28 | any list that fits the description of the global search is the scanner's result, so the description fixes the matches uniquely |
| KeyScan.Matches | src/App.tsx:28 | the global `match`, or the empty list when it finds nothing: the search from the start of the text, every entry a lazy match |
| KeyScan.StripMatch | src/App.tsx:30 | the greedy rewrite: with no quote after the opening one the text is left as it is; otherwise the result is the text from behind the opening quote up to the last quote; `KeyScan.StripRecoversKey` shows this is the key on every match text |
| KeyScan.KeysOf | src/App.tsx:29-31 | `matches.map(...)`: one rewritten text per match, in match order; `KeyScan.KeysOfAreInnerTexts` gives each entry |
| KeyScan.StripRecoversKey | src/App.tsx:29-31 | the greedy rewrite of a match text returns exactly the text between the opening quote and the closing quote |
| KeyScan.KeysOfAreInnerTexts | src/App.tsx:29-31 | mapping the rewrite over the matches gives, position by position, the text between each match's quotes |
| KeyScan.MatchKeyIsPlain | src/App.tsx:28-31 | the key of a match has no line terminator and no quote directly followed by `)`, and sits between `get(`+quote and quote+`)` |
| KeyScan.ExtractKeys | src/App.tsx:28-32 | the key list has no duplicates and holds exactly the keys of the matches |
| KeyScan.ExtractKeysFirstOccurrenceOrder | src/App.tsx:28-32 | keys are listed in the order of their first occurrence among the matches |
| KeyScan.ExtractedKeyOccurs | src/App.tsx:28-31 | every extracted key occurs in the expression as `get(` + quote + key + quote + `)`, and is capturable |
| KeyScan.NoKeysIffNoAccessor | src/App.tsx:28-32 | the key list is empty exactly when the expression has no accessor-shaped text |
| KeyScan.SingleAccessor | src/App.tsx:28-32 | a lone accessor, with either quote on either side and a capturable key, yields exactly that key |
| KeyScan.EmptyKeyAccessor | src/App.tsx:28-32 | `get('')` yields the empty key |
| KeyScan.RepeatedKeyListedOnce | src/App.tsx:28-32 | `get('a')+get('b')+get('a')` yields `["a", "b"]` |
| KeyScan.UnoverlappedAccessorYieldsKey | src/App.tsx:28-32 | every lazy match that does not start inside an earlier match contributes its key |
| Seqs.Dedup | src/App.tsx:32 | the spread of a `Set`: no duplicates and the same elements as the input |
| Seqs.DedupFirstOccurrenceOrder | src/App.tsx:32 | the spread of a `Set` lists elements in the order of their first insertion |
| Seqs.Filter | src/App.tsx:71 | `filter` keeps every occurrence of each element satisfying the predicate, drops the others, and keeps the original order |
| AppState.Initial | src/App.tsx:19-25 | the initial state has no keys and no bindings, and satisfies the invariant |
| AppState.AddMissing | src/App.tsx:37-40 | every key gets an entry, existing entries are unchanged, new entries hold the default, nothing is removed |
| AppState.ParseExpression | src/App.tsx:27-43 | the corrected merge, reading own entries only: keys become the extracted keys; each is bound; new keys get `''` and kind text; existing bindings (also stale ones) are unchanged and none is removed |
| AppState.ExpressionChange | src/App.tsx:45-49 | stores the text, lists its keys, and, with the corrected merge, keeps the invariant |
| AppState.SetKeyValue | src/App.tsx:51-53 | binds the key to the value; every other binding, the kinds and the key list are unchanged |
| AppState.SetInputType | src/App.tsx:55-62 | sets the kind, sets the value to `'null'` for kind null and `''` for kind text; all other keys are untouched |
| AppState.ClearKey | src/App.tsx:64-72 | removes the key from both maps and the list; the other keys keep their order and their entries |
| AppState.SetKeyValuePreservesValid | src/App.tsx:51-53 | editing the value of a text-kind key keeps the invariant |
| AppState.SetInputTypePreservesValid | src/App.tsx:55-62 | choosing a kind keeps the invariant |
| AppState.ClearKeyPreservesValid | src/App.tsx:64-72 | clearing a key keeps the invariant |
| AppState.RunPreservesValid | src/App.tsx:45-72 | with the corrected merge, any sequence of edits, value changes on text-kind keys, kind changes and clears keeps the invariant |
| AppState.ExpressionChangeIdempotent | src/App.tsx:45-49 | re-parsing an unchanged expression changes nothing |
| AppState.NullThenTextResets | src/App.tsx:55-62 | switching to null and back to text equals choosing text directly, so the earlier value is lost |
| AppState.SetInputTypeIdempotent | src/App.tsx:55-62 | choosing the same kind twice equals choosing it once |
| AppState.ClearThenReparse | src/App.tsx:64-72 | a cleared key that is still referenced returns on the next parse with `''` and kind text |
| AppState.StaleBindingKeptExample | src/App.tsx:35-42 | editing `get('a')` (with `a` = `1`) into `get('b')` lists only `b` but keeps the binding of `a` |
| Views.Payload | src/App.tsx:84-89 | the request's `keys` object has exactly the domain of the stored values; a key is `null` iff its kind is null, and its stored text otherwise |
| Views.PayloadCoversKeys | src/App.tsx:84-89 | in a valid state every listed key is sent, and a key sent as `null` stores `"null"` |
| Views.StaleBindingStillSent | src/App.tsx:84-89 | a binding whose key the new expression no longer references is still sent, unchanged |
| Views.PayloadAfterParse | src/App.tsx:35-42 | after a parse the request carries the old bindings plus the new keys, the new keys as empty text |
| Views.PayloadAfterSetInputType | src/App.tsx:55-62 | after a kind change the key is sent as `null` or as empty text; other keys are sent as before |
| Views.PayloadAfterSetKeyValue | src/App.tsx:51-53 | a value edit on a text-kind key is sent as typed; other keys are sent as before |
| Views.PayloadAfterClearKey | src/App.tsx:64-72 | a cleared key is no longer sent; other keys are sent as before |
| Views.FilteredKeys | src/App.tsx:105-107 | the shown keys are the listed keys containing the search term (ignoring ASCII case), each as often as it is listed, in list order; an empty term shows every key |
| Views.SubmitDisabled | src/App.tsx:144 | the button is disabled iff a request is pending, no key is listed, or the expression is whitespace only |
| Views.SubmitEnabledIff | src/App.tsx:144 | submission is possible iff nothing is pending, a key is listed and the expression has a non-whitespace character |
| JsStrings.Trim | src/App.tsx:144 | `trim` yields a slice with only whitespace cut away, not starting or ending with whitespace; it is empty iff the text is whitespace only |
| JsStrings.AsciiLower | src/App.tsx:106 | `toLowerCase`, for ASCII letters only: same length, no upper-case ASCII letter left, each upper-case ASCII letter replaced by its lower-case one, every other character unchanged |
| JsStrings.AsciiLowerIdempotent | src/App.tsx:106 | lower-casing twice is lower-casing once |
| JsStrings.Includes | src/App.tsx:106 | `includes` holds iff the needle occurs at some index of the haystack |
| PrototypeLookup.AddMissingAsWritten | src/App.tsx:37-40 | as written: a key gets the default only when it is not an inherited property name; own falsy values are overwritten with the default |
| PrototypeLookup.ParseExpressionAsWritten | src/App.tsx:27-43 | as written: a referenced key gets a value and a kind only if it had them before or is not an inherited property name; existing entries keep their values, and new entries get `''` and kind text |
| PrototypeLookup.InheritedKeyLeftUnbound | src/App.tsx:38-39 | as written, a new key named like an inherited property is listed but gets neither value nor kind |
| PrototypeLookup.ConstructorKeyUnbound | src/App.tsx:38-39 | as written, `get('constructor')` lists `constructor` without binding it |
| PrototypeLookup.AsWrittenAgreesOffInheritedNames | src/App.tsx:35-42 | when no key is an inherited property name, the code as written and the corrected merge give the same state |

## Findings

| source | as written | input that shows it | evidently intended | confidence | as-written member | corrected member |
|---|---|---|---|---|---|---|
| src/App.tsx:38-39 | `if (!newKeyValues[key])` looks the key up on a plain object, so it also sees the properties inherited from `Object.prototype`. For such a key the lookup yields a function, which is truthy, and no binding is created. The key is listed, but it has no value or kind and is left out of the request. | the expression `get('constructor')` (likewise `toString`, `valueOf`, `hasOwnProperty`, `__proto__`, ...) | every referenced key is bound to `''` with kind text | not executed; high | PrototypeLookup.ConstructorKeyUnbound | AppState.ParseExpression |

## Left out

- Rendering (src/App.tsx:109-275) is not modelled: JSX, icons, the `Select` widget and CSS classes. Only one rule from it is used. A value input is shown only for keys of kind text (src/App.tsx:236-243), so `AppState.Step` applies a value edit only to such keys.
- `handleSubmit`'s network call is not modelled: `fetch`, the JSON response, the error text and the `loading` toggling (src/App.tsx:74-103). Only the request's `keys` object (`Views.Payload`) is modelled. `loading` is a plain state field.
- The evaluation `result` state is not modelled. It only holds the service's answer.
- React's `useState` scheduling and closures are not modelled. Each handler is one pure transition, applied to the latest state.
- JsStrings.AsciiLower: lower-cases ASCII letters only. JavaScript's `toLowerCase` applies full Unicode case mapping.
- Views.FilteredKeys: lower-cases ASCII letters only. JavaScript's `toLowerCase` applies full Unicode case mapping.
- Characters are Unicode scalar values. JavaScript strings are UTF-16 code units, and text with surrogate pairs is not distinguished from that.
- `Views.Payload` is an unordered map. The order of `Object.entries` and the JSON encoding of the request body are not modelled.
- The method catalog in src/lib/spel-methods.ts is not modelled. It is static data, and src/App.tsx does not import it.
