# Retry-with-backoff and article keyword linking, in Dafny

This project models the two pieces of logic of a small serverless article
processor (an AWS Lambda written in TypeScript):

- **`withExponentialBackoff`** (`src/utils/backoff.ts`), the retry helper that
  wraps a failing asynchronous operation. It calls the operation up to
  `maxRetries + 1` times and returns the first success. After every failed
  attempt but the last it hands `baseDelayMs * 2^attempt` plus up to 10% jitter to
  `setTimeout`. When all attempts fail, it rethrows the last error, normalised into
  an `Error`. `maxRetries` defaults to 3 and `baseDelayMs` to 1000.
  The model is the method `Backoff.WithExponentialBackoff`, a `while` loop with its
  invariants, with the same default arguments. The operation is an oracle
  `op: seq<Outcome<T>>`, consumed one outcome per call. `Math.random()` is a
  supplied sequence of fractions in `[0, 1)`. Sleeping is recorded: the method
  returns the list of delays handed to `setTimeout`, beside the settlement and the
  number of calls.
- **`ArticleProcessingService`** (`src/services/articleProcessingService.ts`).
  `replaceGoogleWithHyperlink` replaces every occurrence of `Google`, scanning left
  to right, by a fixed anchor tag. `processArticle` applies that replacement to
  the content of the text elements of an article. Both are pure and are modelled
  as functions: a generic leftmost, non-overlapping `Replace.ReplaceAll` on
  strings, and `ArticleProcessing.ProcessArticle` over `Element`/`Article`
  datatypes with value semantics.

Files: `wrappers.dfy` (`Option` and `Result` types), `backoff.dfy` (module `Backoff`),
`replace.dfy` (module `Replace`: replacement and occurrence counting) and
`article_processing.dfy` (module `ArticleProcessing`).

Occurrences are counted by `Replace.CountOccurrences`. It counts every index where
the pattern starts, independently of the replacing scan. `Google` has no proper
suffix that is also a prefix, so its occurrences never overlap. Because of that,
the count equals the number of replacements.

The helper's documentation describes `maxRetries` as a maximum number of retries,
that is, a non-negative count. The code also accepts a negative value: then the
loop never runs and `throw lastError` throws `null`. The model follows the code,
admits any integer and settles with `ThrewNull` in that case.

Normalising a thrown value that is not an `Error` calls `String(value)`, and that
conversion can itself throw: an object without a primitive form such as
`Object.create(null)` gives a `TypeError`, and an object whose `toString` throws
gives that error. The exception then escapes the `catch` block, so the helper
rejects at once, without another attempt and without a delay. The model has a
`ThrownUnconvertible` outcome for this case.

## Model

| member | source | states |
|---|---|---|
| `Backoff.WithExponentialBackoff` | src/utils/backoff.ts:10-36 | Defaults are `maxRetries = 3` and `baseDelayMs = 1000`. With `maxRetries >= 0` it makes between 1 and `maxRetries + 1` calls. Every call but the last failed with an error that could be normalised. It stops before the budget is spent only on a success or on a value whose `String` conversion throws. It returns the first success unchanged. If `k <= maxRetries` such failures come before a success, it makes exactly `k + 1` calls and hands `k` delays to `setTimeout`. If they come before an unconvertible value, it makes `k + 1` calls and `k` delays and throws the conversion's error. If every attempt fails, it makes `maxRetries + 1` calls and `maxRetries` delays, and throws the normalised error of the last attempt, not an earlier one. There is exactly one delay after each failed attempt except the last, so `maxRetries = 0` means one attempt and no delay. Delay `i` is `TotalDelay(baseDelayMs, i, random[i])`. With a positive base, the delays handed to `setTimeout` strictly increase. With a negative `maxRetries` it makes no call and throws `null`. |
| `Backoff.Normalize` | src/utils/backoff.ts:22 | A thrown `Error` is kept as it is. Any other thrown value becomes an `Error` named "Error" whose message is the value's string form. Normalisation fails, with the error the conversion threw, exactly when `String(value)` throws. |
| `Backoff.Pow2` | src/utils/backoff.ts:25 | `Math.pow(2, attempt)` is at least 1. |
| `Backoff.Pow2Doubles` | src/utils/backoff.ts:25 | For `i < j`, `2^j` is at least twice `2^i`. |
| `Backoff.BaseDelay` | src/utils/backoff.ts:25 | The base delay `baseDelayMs * 2^attempt` is never below `baseDelayMs` when the base is non-negative, and is positive when the base is positive. |
| `Backoff.TotalDelay` | src/utils/backoff.ts:25-27 | The jitter is non-negative and below 10% of the base delay: `d <= delay <= 1.1 * d` with `d = baseDelayMs * 2^attempt`, for a non-negative base and a fraction in `[0, 1)`. The upper bound is strict when the base is positive. |
| `Backoff.DelayGrows` | src/utils/backoff.ts:25-27 | With a positive base, the delay after attempt `i + 1` exceeds the delay after attempt `i`, whatever jitter was drawn (`1.1 * d < 2 * d`). |
| `Backoff.BaseDelayDoubles` | src/utils/backoff.ts:25 | With a positive base, the base delay `baseDelayMs * 2^j` of a later attempt is at least twice that of an earlier attempt. |
| `Backoff.DelaysIncrease` | src/utils/backoff.ts:25-27 | With a positive base, delays strictly increase with the attempt number, for any two attempts and any jitters. |
| `Replace.ReplaceAll` | src/services/articleProcessingService.ts:13 | The definition of the global literal replacement: the text is scanned left to right. At an occurrence of the pattern, the replacement is emitted and the scan resumes after the occurrence. Otherwise one character is kept. What it achieves is stated by the lemmas below (`ReplaceAllLength`, `ReplaceAllSplit`, `NoOccurrenceUnchanged`, `UnchangedIffNoOccurrence`). |
| `Replace.OccurrenceIsCounted` | src/services/articleProcessingService.ts:13 | An occurrence of the pattern at any index makes the occurrence count positive. |
| `Replace.CountedOccurrence` | src/services/articleProcessingService.ts:13 | A positive occurrence count has a witness index where the pattern occurs. |
| `Replace.CountPositiveIffOccurs` | src/services/articleProcessingService.ts:13 | The pattern occurs in the text if and only if its count is positive. |
| `Replace.NoOccurrenceUnchanged` | src/services/articleProcessingService.ts:13 | Text without an occurrence of the pattern, the empty string included, is returned unchanged. |
| `Replace.OverlappingOccurrences` | src/services/articleProcessingService.ts:13 | Two overlapping occurrences of a pattern force a proper suffix of the pattern to equal a prefix. |
| `Replace.CountSkipsOccurrence` | src/services/articleProcessingService.ts:13 | Inside an occurrence of an overlap-free pattern, no other occurrence starts. |
| `Replace.ReplaceAllLength` | src/services/articleProcessingService.ts:13 | For an overlap-free pattern, every occurrence is replaced: the output length is the input length plus the count times the length difference. |
| `Replace.LengthAfterMatch` | src/services/articleProcessingService.ts:13 | A proof step about `Replace.ReplaceAll`, used by `ReplaceAllLength`: the length formula holds for a text that starts with an occurrence when it holds for the rest after the occurrence. |
| `Replace.UnchangedIffNoOccurrence` | src/services/articleProcessingService.ts:13 | If the replacement's length differs from the overlap-free pattern's, the text comes back unchanged exactly when the pattern does not occur in it. |
| `Replace.NoStraddle` | src/services/articleProcessingService.ts:13 | A fact about occurrences used in the proof of `ReplaceAllSplit` about `Replace.ReplaceAll`: no occurrence of an overlap-free pattern starts in a short prefix and runs into an occurrence that follows it. |
| `Replace.ReplaceAllSplit` | src/services/articleProcessingService.ts:13 | At any occurrence of an overlap-free pattern, the result splits into three parts: the processed text before it, the replacement, and the processed text after it. Every occurrence is replaced in place and all other characters keep their order. |
| `Replace.SplitAfterMiss` | src/services/articleProcessingService.ts:13 | A proof step of `ReplaceAllSplit` about `Replace.ReplaceAll`: the split holds for `x + p + y` when the scan keeps the first character and the split holds for the rest. |
| `Replace.SplitAfterMatch` | src/services/articleProcessingService.ts:13 | A proof step of `ReplaceAllSplit` about `Replace.ReplaceAll`: the split holds for `x + p + y` when `x` starts with an occurrence and the split holds for the rest. |
| `Replace.OccurrenceInside` | src/services/articleProcessingService.ts:13 | An occurrence of the pattern inside the replacement text stays an occurrence once the replacement is embedded in the output. |
| `Replace.ReplaceAgainChanges` | src/services/articleProcessingService.ts:13 | Suppose the replacement contains the overlap-free pattern and differs from it in length. Then replacing a second time changes any text in which the pattern occurred. |
| `ArticleProcessing.KeywordSelfOverlapFree` | src/services/articleProcessingService.ts:13 | `Google` has no proper suffix that is also a prefix, so its occurrences never overlap. |
| `ArticleProcessing.GoogleLinkShape` | src/services/articleProcessingService.ts:12 | The anchor tag is 60 characters long and contains `Google` at index 50. |
| `ArticleProcessing.ReplaceGoogleWithHyperlink` | src/services/articleProcessingService.ts:11-14 | Each occurrence of `Google` adds 54 characters. The content comes back unchanged exactly when it does not contain `Google`, the empty string included. |
| `ArticleProcessing.ReplaceGoogleSplit` | src/services/articleProcessingService.ts:12-13 | Any occurrence of `Google` becomes the anchor in place. The text on each side is processed as it would be on its own. |
| `ArticleProcessing.ReplaceGoogleNotIdempotent` | src/services/articleProcessingService.ts:12-13 | The anchor contains `Google` itself. Replacing again in content that mentioned `Google` therefore changes it again and nests the links. |
| `ArticleProcessing.IsProcessedText` | src/services/articleProcessingService.ts:31 | The test an element must pass to be rewritten: its `type` is `text` and its `content` is truthy, that is, present and a non-empty string. |
| `ArticleProcessing.ProcessElement` | src/services/articleProcessingService.ts:29-37 | `_id`, `type` and the other fields are kept. `content` becomes the replaced content for an element that passes the text test, and is kept otherwise. The element changes exactly when it passes the test and its content contains `Google`. |
| `ArticleProcessing.ProcessArticle` | src/services/articleProcessingService.ts:22-42 | Top-level fields are kept. An absent, non-array or empty `content_elements` gives back the article unchanged. The element list keeps its length and order. In each element `_id`, `type` and the other fields are kept. `content` is replaced only for `text` elements with non-empty content, and is kept for every other element, even one that mentions Google elsewhere. An element changes exactly when it is such a text element and its content contains `Google`. |
| `ArticleProcessing.ProcessArticleWithoutKeyword` | src/services/articleProcessingService.ts:27-38 | An article whose processed text elements do not mention `Google` comes back equal to the input. |

## Left out

- `Math.random()` is not modelled. It becomes the supplied sequence `random` of fractions in `[0, 1)`; its uniform distribution is not modelled.
- `setTimeout` and the `await` suspension are not performed. Each delay is recorded instead, in order.
- `console.error` and `console.log` output, and the `toFixed(0)` formatting of the logged delay, are left out. They do not affect behaviour.
- Floating-point arithmetic is modelled with exact `real` numbers.
- Backoff.WithExponentialBackoff: the recorded delays are the values handed to `setTimeout`, not the time actually slept. Node.js sleeps 1 ms for a delay below 1 ms or above 2147483647 ms, and drops the fraction of a millisecond. With the default base of 1000 ms, the delay after attempt 22 (counting from 0) exceeds that maximum and becomes 1 ms, and so does the delay after attempt 21 unless its jitter is small. The sleeps themselves therefore stop increasing there. That timer behaviour is not modelled.
- Backoff.WithExponentialBackoff: `maxRetries` is an integer. A non-integer, `NaN` or `Infinity` (a number in the source) is not modelled. A fractional value would sleep after the final attempt too, and `Infinity` would retry forever.
- Backoff.WithExponentialBackoff: the operation is a finite oracle, so `op` must hold an outcome for every attempt that can happen (`maxRetries < |op|`). An operation that never settles, which blocks the source forever, is not modelled.
- Backoff.WithExponentialBackoff: the delays are recorded as the source computes them. A negative `baseDelayMs` gives negative delays, which Node.js's `setTimeout` turns into 1 ms.
- An `Error` is modelled by its name and message only. Its stack and cause are left out. `String(value)` of a thrown non-`Error` is given as data rather than computed.
- Backoff.Normalize: when `String(value)` throws, the thrown value is modelled as an `Error`. A `toString` that throws a value that is not an `Error` makes the helper reject with that raw value, which is not modelled.
- Strings are sequences of `char`. A Dafny `char` is a Unicode scalar value, while a JavaScript string is a sequence of UTF-16 code units. A lone surrogate cannot be represented, and a character outside the Basic Multilingual Plane is one `char` here but two code units in JavaScript, so lengths of such content differ. Matching the ASCII literal `Google` and counting its occurrences are not affected.
- Articles use value semantics. The `JSON.parse(JSON.stringify(...))` deep copy is therefore implicit, and the input article can never be modified. What that copy drops or converts (`undefined`, functions, `Date` objects) is not modelled.
- Arbitrary `any`-typed fields are modelled as string-valued maps. A `content_elements` that is absent and one that is not an array are both represented by `None`, since the service copies both unchanged.
- ArticleProcessing.ProcessArticle: only articles that JSON can copy are modelled. The `JSON.stringify` at line 24 of `src/services/articleProcessingService.ts` throws a `TypeError` on a cyclic article or one holding a `BigInt`. `processArticle(undefined)` throws a `SyntaxError` at the same line, because `JSON.parse(undefined)` fails. `processArticle(null)` throws a `TypeError` at line 27. These error paths are not modelled.
- Elements that are not objects (`null` would throw a `TypeError`) and a truthy `content` that is not a string (`replace` would throw) are not modelled.
- `src/index.ts` (the Lambda handler with its logging, timestamp and 200/500 mapping) is not part of this model. It calls only the helper service; the fetch, update and publish pipeline its test file describes is not in it.
- `src/services/articlesApiService.ts` is not part of this model. It is an HTTP client whose only logic is throwing when the status is not 200.
- `src/helpers/helper.ts`, `webpack.config.js` and `jest.config.js` are not part of this model. They hold a logging helper and build configuration.
