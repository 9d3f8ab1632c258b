# Reverso Context to Anki, modelled in Dafny

This project models a small tool that turns a word list into Anki flashcards.
The tool has two phases:

- **Acquisition.** This phase runs only while the staging file `output.txt`
  does not exist. It reads `input.txt`, trims each line and drops blank
  lines. It then looks each word up on Reverso Context through a headless
  browser, in order. For each successful lookup it appends the first three
  example pairs to `output.txt`. The first failed lookup stops the run, and
  the browser is closed on both paths.
- **Sync.** This phase parses `output.txt` back into (front, back) cards. It
  sends one AnkiConnect `addNote` request per card and counts the cards
  added and the cards that failed.

The lookup itself (`ReversoWrapper.getContext`) works in these steps:

1. Start the browser lazily and open a page.
2. Load `https://context.reverso.net/translation/<source>-<target>/<word>`.
   The word is written with `encodeURIComponent`, and every `%20` is then
   rewritten to `+`.
3. Wait 3 s, plus 10 s more when the title shows the anti-bot interstitial.
4. Read the translation-panel entries and the example blocks, trimmed, with
   the incomplete pairs dropped.
5. Return a tagged success, or a failure that carries the error message.

Files:

- `options.dfy`: the `Option` datatype.
- `js_array.dfy`: `Array.prototype.map` and `filter`, with order and
  multiplicity lemmas.
- `js_string.dfy`: `trim`, `split`, `join`, `includes` and `replace(/…/g)`,
  with the JavaScript whitespace set.
- `uri.dfy`: `encodeURIComponent` over UTF-8 as ECMA-262 section 19.2.6.5
  defines it, the form-style variant the URL uses, and a decoder for that
  variant that proves the encoding is injective.
- `reverso_wrapper.dfy`: the `ReversoWrapper` class with its `browser` field
  and its `init`, `close` and `getContext` operations, and the pure
  extraction steps.
- `main.dfy`: the input parser, the acquisition loop over a `StagingFile`
  object, the staging parser and its round trip, the sync loop, and the
  whole run.

These outside effects are parameters of the model:

- **The browser launch** is a `Launch` value.
- **Loading a page** is a function `fetch` from the URL to the rendered
  document, which is abstracted to its title, its panel texts and its
  example-block texts. A failed load yields the thrown error instead.
- **What the lookups meet** is a `World`: the launch, the `fetch` function,
  and whether a browser already runs. The loop calls `GetContext` on each
  word. Its specification functions name the answers through an oracle
  `lookup(i, word)` that agrees with the world (`Describes`).
- **The i-th AnkiConnect reply** is `reply(i)`.
- **The existence and content of `output.txt`** are the fields of a
  `StagingFile` object.

Ghost counters on `ReversoWrapper` record what the code does to the browser:

- `launches`: launch attempts.
- `openPages`: pages opened and not yet closed.
- `closeCalls`: calls to `close`.

The model follows the code wherever the code and the intended design differ:

- `getContext` closes the page only on the success path. When navigation
  throws, the page stays open until the browser is closed (`openPages`
  grows).
- The acquisition phase is skipped whenever `output.txt` exists, even when
  it is empty.
- When no lookup staged any example, `output.txt` is never created and the
  read at `src/main.ts:51` throws. `RunOutcome.StagingUnreadable` models this.
- A reply counts as added when its `error` field is falsy, so an empty error
  string counts as a success.
- The interstitial check waits once and does not re-check the title.

## Model

| member | source | states |
|---|---|---|
| JsArray.Map | src/main.ts:17 | `.map`: same length, and element i is f of element i |
| JsArray.Filter | src/main.ts:18 | `.filter`: keeps only elements that pass, and drops no element that passes |
| JsArray.FilterIsSubsequence | src/main.ts:15-18 | filtering keeps the relative order of what it keeps |
| JsArray.FilterMultiset | src/main.ts:15-18 | each kept value occurs exactly as often as in the input; rejected values never occur |
| JsArray.FilterConcat | src/main.ts:53-64 | filtering distributes over concatenation |
| JsString.TrimStart | src/main.ts:17 | the result is a suffix of the text, everything cut off is white space, and it does not start with white space |
| JsString.TrimEnd | src/main.ts:17 | the result is a prefix of the text, everything cut off is white space, and it does not end with white space |
| JsString.Trim | src/main.ts:17 | `trim()` yields a string no longer than the text, with no leading or trailing ECMAScript white space |
| JsString.WhiteAround | src/main.ts:17 | defined by its body: the result is the infix at index i, and everything before and after it is white space |
| JsString.TrimInfix | src/main.ts:17 | `trim()` cuts off only white space: its result is the infix of the text after the leading white space, with only white space after it |
| JsString.CutsLeaveInfix | src/main.ts:17 | cutting white space off the front and then the back leaves an infix with only white space around it |
| JsString.TrimOfTrimmed | src/main.ts:55 | trimming an already trimmed text changes nothing |
| JsString.Split | src/main.ts:16 | `split` on a non-empty separator always yields at least one part |
| JsString.JoinSplit | src/main.ts:16 | splitting loses nothing: joining the parts with the separator restores the text |
| JsString.SplitFree | src/main.ts:58 | a text without the separator splits into itself alone |
| JsString.SplitFirst | src/main.ts:54 | the leftmost occurrence of the separator ends the first part |
| JsString.Contains | src/reverso-wrapper.ts:83 | defined by its body (`includes`); specified by JsString.ContainsOccurs |
| JsString.ReplaceAll | src/reverso-wrapper.ts:68 | defined by its body (`replace(/…/g)`, leftmost non-overlapping matches); specified by Uri.ReplacedHasNoPattern and Uri.PlusForSpaces |
| JsString.ContainsOccurs | src/reverso-wrapper.ts:83 | `includes` holds iff the pattern occurs at some index |
| Uri.EncodeChar | src/reverso-wrapper.ts:66-67 | defined by its body: an unreserved character as itself, any other as `%XX` for each UTF-8 byte; specified by Uri.PlusForSpaces and Uri.FormDecodeEncode |
| Uri.EncodeURIComponent | src/reverso-wrapper.ts:66-67 | defined by its body, character by character; specified by Uri.PlusForSpaces and Uri.FormEncodeInjective |
| Uri.Utf8 | src/reverso-wrapper.ts:66-68 | one to four bytes per character; ASCII is one byte and every byte of a non-ASCII character is at least 0x80 |
| Uri.PercentByteIsSpaceCode | src/reverso-wrapper.ts:68 | a byte is written `%20` iff it is the space byte |
| Uri.PlusForSpaces | src/reverso-wrapper.ts:66-68 | `encodeURIComponent(text).replace(/%20/g, "+")` equals the form-style encoding of the text |
| Uri.ReplacedHasNoPattern | src/reverso-wrapper.ts:68 | after the global rewrite no `%20` is left, for any input |
| Uri.FormEncodeHasNoSpace | src/reverso-wrapper.ts:66-68 | the encoded word never contains a space |
| Uri.Utf8Decodes | src/reverso-wrapper.ts:66-67 | the UTF-8 bytes of a character are well formed and decode back to it |
| Uri.FormDecodeEncode | src/reverso-wrapper.ts:66-68 | decoding the form-style encoding yields the original text |
| Uri.FormEncodeInjective | src/reverso-wrapper.ts:66-68 | two texts with the same encoding are equal |
| Reverso.WordSegment | src/reverso-wrapper.ts:66-68 | the URL's word segment is the form-style encoding, with no space and no `%20` |
| Reverso.ContextUrl | src/reverso-wrapper.ts:66-68 | the URL is the base, `source-target/`, then the encoded word |
| Reverso.UrlDeterminesWord | src/reverso-wrapper.ts:66-68 | for one language pair, different words give different URLs |
| Reverso.SettleDelay | src/reverso-wrapper.ts:78-86 | the wait is 3000 ms, or 13000 ms exactly when the title contains "Just a moment" |
| Reverso.TrimmedText | src/reverso-wrapper.ts:106-107 | the text is trimmed, and a missing node gives "" |
| Reverso.Translations | src/reverso-wrapper.ts:89-96 | at most one candidate per panel entry, each non-empty and trimmed |
| Reverso.TranslationsInDocumentOrder | src/reverso-wrapper.ts:93-95 | candidates keep document order, and each non-empty trimmed entry appears exactly as often as in the panel |
| Reverso.RawExamples | src/reverso-wrapper.ts:99-110 | one example per block, id = zero-based position, texts trimmed, a missing node giving "" |
| Reverso.IsUsable | src/reverso-wrapper.ts:120 | defined by its body: source and target both non-empty; specified by Reverso.Examples and Reverso.ExamplesAreUsableRawInOrder |
| Reverso.Examples | src/reverso-wrapper.ts:120 | every returned example has a non-empty source and target |
| Reverso.FilterKeepsIdsIncreasing | src/reverso-wrapper.ts:120 | filtering keeps the ids strictly increasing |
| Reverso.ExamplesAreUsableRawInOrder | src/reverso-wrapper.ts:99-120 | the result is exactly the usable raw examples, each at its own id, in document order, none missing |
| Reverso.ErrorMessage | src/reverso-wrapper.ts:122-126 | the failure message is the error's message, or "An error occurred" when that is missing or empty; never empty |
| Reverso.PageOutcome | src/reverso-wrapper.ts:114-126 | failure iff navigation threw; a success echoes text, source and target and carries only non-empty translations and usable examples |
| Reverso.ReversoWrapper.constructor | src/reverso-wrapper.ts:21-22 | a new wrapper holds no browser |
| Reverso.ReversoWrapper.Init | src/reverso-wrapper.ts:24-35 | launches only when no browser runs (a second call changes nothing); a failed launch leaves the handle unset and reports the error |
| Reverso.ReversoWrapper.Close | src/reverso-wrapper.ts:37-42 | afterwards no browser is held; a running browser's pages are gone; with none running nothing else changes |
| Reverso.ReversoWrapper.GetContext | src/reverso-wrapper.ts:44-128 | a launch failure becomes a failure; otherwise the page at `ContextUrl` is loaded, the result is `PageOutcome`, the wait is `SettleDelay`, and the page stays open exactly on failure |
| Reverso.SessionLifecycle | src/reverso-wrapper.ts:24-42 | after a successful `init`, a second `init` throws nothing and keeps the browser; two `close` calls leave no browser, one launch and no open page |
| App.InputWords | src/main.ts:13-18 | the words are the non-empty, trimmed lines, at most one per line |
| App.InputWordsInLineOrder | src/main.ts:15-18 | the words keep line order, and each non-blank trimmed line appears exactly as often as in the input |
| App.FirstExamples | src/main.ts:34 | `slice(0, 3)`: the first min(3, n) examples |
| App.Record | src/main.ts:34-40 | defined by its body (source, line break, target, blank line); specified by App.BlockCardOfRecord |
| App.Serialize | src/main.ts:34-40 | defined by its body, record after record; specified by App.SerializeConcat and App.StagingRoundTrip |
| App.SerializeConcat | src/main.ts:34-40 | the records of two batches are the records of each, one after the other |
| App.Respond | src/main.ts:24-28 | `getContext(word, "english", "spanish")` as the i-th lookup: a failure has a message; a success echoes the word and the two languages |
| App.Lookup | src/main.ts:24-28 | defined by its body: the i-th lookup of a word as `Respond`; App.LookupDescribes shows it agrees with its world |
| App.Describes | src/main.ts:24-28 | defined by its body: the oracle answers every lookup as the world does |
| App.LookupDescribes | src/main.ts:24-28 | `Lookup(w)` agrees with the world `w` |
| App.SucceededPrefix | src/main.ts:23-32 | the lookups before the first failure: all succeed, and the next one (if any) failed |
| App.SucceededPrefixIs | src/main.ts:23-32 | the success prefix is determined by where the first failure is |
| App.StagedExamples | src/main.ts:34-40 | defined by its body: the first three examples of each successful lookup, word by word; specified by App.StagedStep and App.StagedAtMostThreePerWord |
| App.StagedAtMostThreePerWord | src/main.ts:34 | at most three examples are staged per word |
| App.StagedStep | src/main.ts:34-40 | a successful lookup appends its first three examples after those staged before it |
| App.StagingFile.constructor | src/main.ts:12 | a staging file that does not exist has no text |
| App.StagingFile.Append | src/main.ts:35-39 | appending creates the file and only adds text at the end |
| App.AppendRecords | src/main.ts:34-40 | the file gains exactly the records of the batch, in order |
| App.StageWord | src/main.ts:34-40 | one word's first three examples are appended to what was staged before |
| App.HasStaged | src/main.ts:34-40 | defined by its body: the staging file holds its old text plus the records of the first n words, and exists if it did or something was staged |
| App.SessionAfter | src/reverso-wrapper.ts:24-35 | defined by its body: after n successful lookups a browser was launched once if none ran, and every page they opened was closed again |
| App.LookUp | src/main.ts:24-28 | calls `GetContext` on word i; its answer is the oracle's; on success the session is as after one more successful lookup; on failure the browser runs only after a successful launch, and then the failed page stays open |
| App.LookUpAndStage | src/main.ts:23-40 | one iteration: the lookup, then, on success, its first three examples staged; on failure the file is unchanged |
| App.StageWords | src/main.ts:22-41 | each word is passed to `getContext` in order (`queried`) until the first failure, whose message is reported; the file gains exactly the records of the successful words; at most one launch, and a page is left open exactly when a lookup failed with a browser running |
| App.Acquire | src/main.ts:22-48 | as StageWords, and `close` is called exactly once on both the success and the abort path, leaving no browser and, when a browser ran, no open page |
| App.BlockCard | src/main.ts:56-62 | defined by its body: the trimmed first and second lines of a block, "" when missing; specified by App.BlockCardOfRecord and App.SplitTwoLines |
| App.IsComplete | src/main.ts:64 | defined by its body: face and back both non-empty |
| App.CardsOf | src/main.ts:53-64 | defined by its body: trim, drop empty blocks, read cards, drop incomplete ones; specified by App.CardsOfConcat and App.ParseStaging |
| App.ParseStaging | src/main.ts:51-64 | every parsed card has a non-empty, trimmed face and back |
| App.CardsOfConcat | src/main.ts:53-64 | the card pipeline distributes over concatenated blocks |
| App.SplitTwoLines | src/main.ts:58 | two one-line texts joined by a line break split back into the two |
| App.BlockCardOfRecord | src/main.ts:57-62 | a written record's block reads back as that example's card |
| App.RecordEndsAtBlankLine | src/main.ts:54 | a record's trailing blank line is the first separator in it |
| App.StagingRoundTrip | src/main.ts:34-64 | the staging text written for examples with one-line texts parses back to exactly their (source, target) cards, in order |
| App.LineBreakInSourceSplitsCard | src/main.ts:37-64 | a source text with a line break is read back as a card pairing its two halves, and the target is lost |
| App.NoteFor | src/main.ts:77-91 | defined by its body: the note for the deck "My english deck", model "Basic", the card's face and back, and the two tags; specified by App.Sync |
| App.Added | src/main.ts:102-117 | defined by its body: a reply counts as added when it arrived and its `error` is missing or empty; specified by App.Sync |
| App.Sync | src/main.ts:73-119 | one `addNote` per card, in order; successes count the falsy-error replies, errors count the rest, and the two sum to the card count |
| App.Run | src/main.ts:9-125 | creates the wrapper with no browser; skips acquisition when the file exists; otherwise launches at most once, closes once, leaves no open page, and aborts with the first failure message, or syncs the parsed staging text, which equals the staged examples' cards when their texts are single lines |

## Left out

- Browser launch options, the user agent, the extra headers and the navigation options (`networkidle2`, the 60 s timeout) are not modelled. A launch is a `Launch` value and a navigation is the `fetch` parameter.
- Failures of `newPage`, `setUserAgent`, `setExtraHTTPHeaders`, `page.title`, `page.evaluate` and `page.close` are not modelled. In the code each of them is caught and becomes a failure, exactly as a navigation error does.
- `browser.close()` is assumed not to throw. The code path where the close at `src/main.ts:43` throws and is closed a second time by the handler is not modelled.
- The timers are not modelled. `GetContext` returns the total wait in milliseconds instead of sleeping.
- `console` output is not modelled.
- Reading `input.txt` is not modelled: its text is a parameter.
- Writing to and reading from `output.txt` is modelled only through the `StagingFile` object. There is no character encoding and no other process touches the file.
- The AnkiConnect HTTP call, the JSON request body and the JSON reply are not modelled: each reply is `reply(i)`. A reply whose body is not JSON is folded into `Unreachable`.
- `process.exit(1)` is modelled as the `Aborted` outcome.
- Async scheduling is not modelled: every await runs to completion in program order.
- Uri.Utf8: strings are sequences of Unicode scalar values. The lone UTF-16 surrogates that make `encodeURIComponent` throw a `URIError` cannot occur in the model.
- App.StagingRoundTrip: holds only for examples whose texts are single lines. `App.LineBreakInSourceSplitsCard` shows what the parser does otherwise.
