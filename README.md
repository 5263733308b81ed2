# Excel-driven translator tests: a Dafny model of the deterministic core

This repository drives a Singlish-to-Sinhala web translator with Playwright.
Test cases are read from a spreadsheet. Each test types or fills the input,
reads the Sinhala output from the page and compares it with the expected
text. The results go into a JSON file. Most of the code drives the browser
and does file I/O. The deterministic string and record logic inside it is
modelled and proved here:

- `scripts/readExcel.js` is modelled in `read_excel.dfy` (module `ReadExcel`):
  - `cleanKey`;
  - the loop that re-keys each row under cleaned column names;
  - dropping rows whose cleaned "TC ID" is blank;
  - projecting the remaining rows into test-case records;
  - the missing-sheet error.
- `tests/translator.spec.js` is modelled in `translator.dfy` (module `TranslatorSpec`):
  - `normalizeText`;
  - the scan that keeps the best Sinhala candidate;
  - the `isUiTest` convention and the entry mode it selects;
  - the filter that keeps runnable cases and numbers them with `__index`;
  - the Pass/Fail verdict and its assertion;
  - the append-only `results` list, as a class with a `Push` method;
  - one test body (`RunCase`) and the sequence of tests (`RunAll`).
- `js_string.dfy` (module `JsString`) defines the JavaScript string built-ins these use:
  - the white-space class shared by `\s` and `trim`;
  - `trim`;
  - the `/\s+/g` collapse;
  - `startsWith`;
  - `length` in UTF-16 code units.
- `wrappers.dfy` (module `Wrappers`) defines `Option` and `Result`.
- `seqs.dfy` (module `Seqs`) defines array helpers:
  - `filter` and `map` on sequences;
  - `Assoc`, the dictionary built by assigning its entries one after another.

Modelling decisions:

- White space is the ECMAScript WhiteSpace and LineTerminator set, written out code point by code point.
- `txt.length` in the scan counts UTF-16 code units, so a character outside the Basic Multilingual Plane counts 2.
- NFC normalization (`String.prototype.normalize("NFC")`) depends on the Unicode data tables. Every function that uses it takes it as a parameter `nfc: string -> string`. Lemmas that need a concrete NFC value state it as a precondition, for example that NFC leaves a given ASCII string unchanged.
- A spreadsheet row is the library's output: a sequence of (header, cell text) pairs in `Object.keys` order. A re-keyed row is a `map<string, string>`.
- The page is represented by the texts the locator reads. `observe(case)` is the text returned for a case, or `None` when a bounded wait timed out. No record is pushed in that case, because the exception escapes before `results.push`.

`normalizeText` is not idempotent. `"a\r\r\nb"` normalizes to `"a\r\nb"`, and a second pass gives `"a\nb"` (`NormalizeTextNotIdempotent`). The shorter string `"\r\r\n"` is not a counterexample for the whole function, because `trim` removes CR and LF at the ends. It is a counterexample for the replacement step alone (`ReplaceCrlfNotIdempotent`).

## Model

| member | source | states |
|---|---|---|
| `JsString.IsWhiteSpace` | scripts/readExcel.js:5 | the definition of the characters `\s` matches and `trim` removes: the ECMAScript WhiteSpace and LineTerminator code points; the lemmas below are stated over it |
| `JsString.TrimStart` | scripts/readExcel.js:5 | the result is no longer than the input, starts with a non-white-space character (or is empty) and keeps the input's last character |
| `JsString.TrimEnd` | scripts/readExcel.js:5 | the result is no longer than the input, ends with a non-white-space character (or is empty) and keeps the input's first character |
| `JsString.TrimStartSlice` | scripts/readExcel.js:5 | trimming the start drops exactly a prefix made only of white space |
| `JsString.TrimEndSlice` | scripts/readExcel.js:5 | trimming the end drops exactly a suffix made only of white space |
| `JsString.Trim` | scripts/readExcel.js:46-48 | `trim` leaves no white space at either end, never lengthens the string and maps "" to "" |
| `JsString.TrimSlice` | scripts/readExcel.js:46-48 | the trimmed string is the slice of the input between an all-white-space prefix and an all-white-space suffix, so interior white space is unchanged |
| `JsString.TrimFixesTrimmed` | tests/translator.spec.js:16 | a string without white space at its ends is its own trim |
| `JsString.TrimIsTrimOf` | scripts/readExcel.js:46-48 | `trim` removes exactly a white-space prefix and a white-space suffix, and what remains neither starts nor ends with white space |
| `JsString.CollapseWhiteSpace` | scripts/readExcel.js:5 | the `/\s+/g` to `" "` replacement never lengthens the string, keeps it non-empty if it was, and keeps whether the first and the last character are white space; `CollapseKeepsVisible` and `CollapseRun` state what it does to the text |
| `JsString.CollapseIsSingleSpaced` | scripts/readExcel.js:5 | after the collapse every white-space character is `' '` and no two white-space characters are adjacent |
| `JsString.CollapseFixesSingleSpaced` | scripts/readExcel.js:5 | a string that is already single-spaced is unchanged by the collapse |
| `JsString.Visible` | scripts/readExcel.js:5 | the characters of a string that `\s` does not match, in order, never more than the string has |
| `JsString.VisibleAllWhiteSpace` | scripts/readExcel.js:5 | a string made only of white space has no visible characters |
| `JsString.TrimStartKeepsVisible` | scripts/readExcel.js:5 | trimming the start removes no visible character |
| `JsString.TrimKeepsVisible` | scripts/readExcel.js:5 | `trim` removes no visible character: the visible text is unchanged, in order |
| `JsString.CollapseKeepsVisible` | scripts/readExcel.js:5 | the collapse keeps every visible character, in order; only white space is rewritten |
| `JsString.TrimStartRun` | scripts/readExcel.js:5 | trimming the start of a white-space run followed by a visible character removes the whole run |
| `JsString.TrimStartAppend` | scripts/readExcel.js:5 | trimming the start of `x + y`, where `x` ends with a visible character, only changes `x` |
| `JsString.CollapseRun` | scripts/readExcel.js:5 | a maximal white-space run becomes exactly one space: the collapse of `a + w + b`, where `w` is a non-empty run that `a` and `b` do not extend, is the collapse of `a`, then `" "`, then the collapse of `b` |
| `JsString.StartsWith` | tests/translator.spec.js:108-109 | `startsWith(p)` holds exactly when `p` is a prefix of the string |
| `JsString.Utf16Length` | tests/translator.spec.js:67 | the UTF-16 length is between the number of code points and twice that |
| `Seqs.Filter` | scripts/readExcel.js:41 | the filtered array is no longer than the input and holds exactly the input's elements that satisfy the predicate |
| `Seqs.FilterAppend` | scripts/readExcel.js:40-41 | filtering distributes over concatenation, so relative order is preserved |
| `Seqs.FilterAll` | tests/translator.spec.js:86 | a filter returns its input unchanged exactly when every element satisfies the predicate (used by `IndexCasesAllRunnable`) |
| `Seqs.Map` | scripts/readExcel.js:42-49 | the mapped array has the input's length and holds the image of each element at the same position |
| `Seqs.MapAppend` | scripts/readExcel.js:42 | mapping distributes over concatenation |
| `Seqs.AssocKeys` | scripts/readExcel.js:32-35 | a dictionary filled by successive assignment has exactly the assigned keys |
| `Seqs.AssocLastWins` | scripts/readExcel.js:34 | when a key is assigned several times, the last assignment's value is kept |
| `Seqs.AssocSnoc` | scripts/readExcel.js:34 | one more assignment updates one key |
| `ReadExcel.StringOr` | scripts/readExcel.js:46 | `String(v \|\| "")` is the cell text when present and "" when missing |
| `ReadExcel.CleanKey` | scripts/readExcel.js:4-6 | `cleanKey` of a missing or empty value is "" |
| `ReadExcel.CleanKeyForm` | scripts/readExcel.js:5 | a cleaned key has no leading or trailing white space, every white-space character in it is `' '`, no two are adjacent, and it is no longer than its input |
| `ReadExcel.CleanKeyKeepsVisible` | scripts/readExcel.js:5 | cleaning keeps every visible character of the key, in order, so `cleanKey` rewrites white space only |
| `ReadExcel.CleanKeyIdempotent` | scripts/readExcel.js:5 | `cleanKey(cleanKey(k)) == cleanKey(k)` |
| `ReadExcel.CleanEntry` | scripts/readExcel.js:34 | the definition of one assignment of the re-keying loop: the pair of the cleaned header and the cell, `[cleanKey(key), row[key]]` |
| `ReadExcel.Rekey` | scripts/readExcel.js:31-36 | the definition of a re-keyed row: the raw entries are assigned in enumeration order under their cleaned headers; `RekeyKeys` and `RekeyLastWins` state its content |
| `ReadExcel.RekeyKeys` | scripts/readExcel.js:31-36 | the re-keyed row's keys are exactly the cleaned raw headers; no other entries are introduced |
| `ReadExcel.RekeyLastWins` | scripts/readExcel.js:33-35 | when several headers clean to the same key, the value stored is that of the last one in enumeration order |
| `ReadExcel.NormalizeRow` | scripts/readExcel.js:32-36 | the `for` loop that fills the `normalized` dictionary produces the re-keyed row |
| `ReadExcel.NormalizeRows` | scripts/readExcel.js:31-37 | `rows.map` re-keys every row, keeping the number and order of rows |
| `ReadExcel.Get` | scripts/readExcel.js:41 | `r[key]` is present exactly when the column exists, and then it is that column's text |
| `ReadExcel.HasTcId` | scripts/readExcel.js:41 | the definition of the loader's filter: the cleaned "TC ID" cell is not "" |
| `ReadExcel.ToTestCase` | scripts/readExcel.js:42-49 | the definition of the projection: which column feeds which field, and whether it is cleaned or trimmed; `CleanedFields` and `TrimmedFields` state the fields' form |
| `ReadExcel.CleanedFields` | scripts/readExcel.js:43-45 | `tcId`, `name` and `type` of a record are cleaned: no edge white space, single plain spaces inside |
| `ReadExcel.TrimmedFields` | scripts/readExcel.js:46-48 | `input`, `expected` and `status` are their cells with the white space at both ends removed and the interior kept; a missing column gives "" |
| `ReadExcel.SelectCases` | scripts/readExcel.js:40-49 | the loader returns at most as many records as rows, and every record has a non-empty `tcId` |
| `ReadExcel.SelectCasesSound` | scripts/readExcel.js:40-49 | every returned record is the projection of a row whose cleaned "TC ID" is not blank |
| `ReadExcel.SelectCasesComplete` | scripts/readExcel.js:40-43 | every row whose cleaned "TC ID" is not blank yields a returned record |
| `ReadExcel.SelectCasesOne` | scripts/readExcel.js:40-49 | a single row is dropped exactly when its cleaned "TC ID" is blank, and otherwise yields its projection |
| `ReadExcel.SelectCasesAppend` | scripts/readExcel.js:40-49 | selection distributes over concatenation, so surviving rows keep their relative order |
| `ReadExcel.LoadTestCases` | scripts/readExcel.js:21-49 | a workbook without the sheet " Test cases" (leading space included) gives the error `Sheet not found: " Test cases"`; otherwise the result is the rows re-keyed, filtered and projected |
| `TranslatorSpec.ReplaceCrlf` | tests/translator.spec.js:15 | the CR LF replacement never lengthens the string and maps "" to "" |
| `TranslatorSpec.ReplaceCrlfDropsCr` | tests/translator.spec.js:15 | the left-to-right non-overlapping replacement equals deleting every CR that directly precedes an LF; every other character is copied in order |
| `TranslatorSpec.ReplaceCrlfKeepsCrFree` | tests/translator.spec.js:15 | a string without CR is unchanged |
| `TranslatorSpec.ReplaceCrlfNotIdempotent` | tests/translator.spec.js:15 | `"\r\r\n"` becomes `"\r\n"` after one pass and `"\n"` after two |
| `TranslatorSpec.PrepareText` | tests/translator.spec.js:14-16 | before NFC, the normalized text has no leading or trailing white space, is no longer than the input, and is "" for "" |
| `TranslatorSpec.NormalizeText` | tests/translator.spec.js:13-18 | the definition of `normalizeText`: NFC applied to the CR LF replacement followed by `trim`; `PrepareText` and the two lemmas below state its properties |
| `TranslatorSpec.NormalizeTextEmpty` | tests/translator.spec.js:14-17 | `normalizeText("")` is "" when NFC maps "" to itself |
| `TranslatorSpec.NormalizeTextNotIdempotent` | tests/translator.spec.js:13-18 | `normalizeText` is not idempotent: `"a\r\r\nb"` normalizes to `"a\r\nb"` and then to `"a\nb"` |
| `TranslatorSpec.IsSinhala` | tests/translator.spec.js:67 | the definition of the character class `[\u0D80-\u0DFF]`: a code point of the Sinhala block |
| `TranslatorSpec.HasSinhala` | tests/translator.spec.js:67 | the definition of the regex test: some code point lies in U+0D80 to U+0DFF. The regex has no `u` flag and so tests code units, which is the same thing here, because the block lies in the Basic Multilingual Plane outside the surrogates |
| `TranslatorSpec.ScanLimit` | tests/translator.spec.js:65 | `Math.min(count, 25)` is at most both arguments and equal to one of them |
| `TranslatorSpec.BestIndex` | tests/translator.spec.js:64-69 | the kept index is -1 exactly when no text contains a Sinhala code point; otherwise it points to a qualifying text at least as long as every qualifying text and strictly longer than every earlier qualifying text |
| `TranslatorSpec.PickBest` | tests/translator.spec.js:64-69 | the kept text is "" or one of the candidates that contains a Sinhala code point |
| `TranslatorSpec.PickBestSpec` | tests/translator.spec.js:64-69 | the kept text is "" exactly when no candidate qualifies; otherwise it contains a code point in U+0D80 to U+0DFF, is the longest qualifying candidate, and on a tie is the earliest one (strict `>`) |
| `TranslatorSpec.PickBestSnoc` | tests/translator.spec.js:67 | one loop step replaces the kept text only with a qualifying, strictly longer text |
| `TranslatorSpec.NormalizeAll` | tests/translator.spec.js:66 | each candidate is normalized at its own position |
| `TranslatorSpec.BestSinhalaText` | tests/translator.spec.js:74-80 | the scan loop inspects only the first `min(count, 25)` candidates; its result is "" or a normalized candidate with a Sinhala code point, at least as long as every qualifying candidate among them |
| `TranslatorSpec.ScanIgnoresLaterCandidates` | tests/translator.spec.js:76 | candidates after the 25th do not change the result |
| `TranslatorSpec.Runnable` | tests/translator.spec.js:86 | the definition of the runnable filter: `tcId` and `name` are both non-empty strings |
| `TranslatorSpec.IndexCases` | tests/translator.spec.js:85-87 | only cases with non-empty `tcId` and `name` are kept, each kept case is numbered by its position 0..n-1, and every runnable case appears |
| `TranslatorSpec.IndexCasesOrder` | tests/translator.spec.js:85-87 | the numbered cases are the runnable cases in their original order |
| `TranslatorSpec.IndexCasesAllRunnable` | tests/translator.spec.js:85-87 | when every case has an id and a name, the filter drops none and each case's `__index` is its position |
| `TranslatorSpec.LoadedCaseRunnable` | tests/translator.spec.js:86 | a case from the loader is runnable exactly when its name is non-empty |
| `TranslatorSpec.IsUiTest` | tests/translator.spec.js:108-109 | `isUiTest` holds exactly when the id starts with `"Pos_UI"` or `"Neg_UI"` |
| `TranslatorSpec.EntryModeOf` | tests/translator.spec.js:111-118 | input is typed key by key exactly for UI tests and filled otherwise |
| `TranslatorSpec.EntryModeExamples` | tests/translator.spec.js:108-118 | `Pos_UI_001` and `Neg_UI_0005` are typed; `Pos_Func_001`, `pos_UI_001` and `Neg_U` are filled |
| `TranslatorSpec.Verdict` | tests/translator.spec.js:125-133 | the definition of the status: "Pass" when the two normalized texts are equal, "Fail" otherwise |
| `TranslatorSpec.AssertionHolds` | tests/translator.spec.js:137 | the definition of the assertion: the normalized actual text equals the normalized expected text |
| `TranslatorSpec.VerdictAgreesWithAssertion` | tests/translator.spec.js:122-137 | the status is "Fail" exactly when the assertion fails, and "Pass" exactly when it holds |
| `TranslatorSpec.VerdictScenarios` | tests/translator.spec.js:122-133 | output `"මම"` against expected `"මම"` passes; empty output against `"මම"` fails |
| `TranslatorSpec.MakeRecord` | tests/translator.spec.js:125-134 | the record's status is "Pass" iff the normalized actual text equals the normalized expected text; the other fields are copied from the case, with `expected` copied as loaded, not normalized |
| `TranslatorSpec.OutcomeOf` | tests/translator.spec.js:99-137 | a test is skipped exactly when its input is empty, and aborted exactly when the page read timed out; otherwise it fails exactly when its record's status is "Fail", and the failure carries the normalized expected and received texts |
| `TranslatorSpec.Results.constructor` | tests/translator.spec.js:89 | the results list starts empty |
| `TranslatorSpec.Results.Push` | tests/translator.spec.js:127 | `push` appends exactly one record and changes nothing else |
| `TranslatorSpec.RunCase` | tests/translator.spec.js:99-138 | the test body ends with `OutcomeOf` of its case and observation; an empty input or a timed-out read records nothing; otherwise exactly one record is appended, and the test fails exactly when that record's status is "Fail", carrying the normalized expected and received texts |
| `TranslatorSpec.RunAll` | tests/translator.spec.js:96-139 | in one worker process, running the cases in order gives each case its own `OutcomeOf` and appends exactly the records of the recorded cases, in order |
| `TranslatorSpec.Recorded` | tests/translator.spec.js:100-127 | the definition of the condition for reaching `results.push`: the input is non-empty, so the test is not skipped, and the output was read without a timeout |
| `TranslatorSpec.RecordsOf` | tests/translator.spec.js:96-134 | a run appends at most one record per case; `RecordsOfSpec` states which records, in which order |
| `TranslatorSpec.RecordsOfSpec` | tests/translator.spec.js:96-134 | a run appends one record per case that had non-empty input and a page read, in order, each with its own verdict |
| `TranslatorSpec.RecordsOfSnoc` | tests/translator.spec.js:127 | running one more case appends at most that case's record |

## Left out

- Reading the workbook (`xlsx.readFile`) and `sheet_to_json`, including the header-row offset and the `defval` default: file I/O and a third-party library. The model starts from the rows that library returns.
- Cell values that are not strings: a numeric cell 0 becomes "" through `|| ""`. Here every cell is text.
- The enumeration order of an object's keys. JavaScript lists integer-like keys first. The model takes the order as given.
- Assigning to the key `__proto__`, which a JavaScript object silently ignores for string values: JavaScript object internals.
- NFC itself: it depends on the Unicode data tables, and is a parameter here.
- `normalizeText` of `undefined`: every call site passes a string, so the `|| ""` fallback is the identity here.
- The Playwright logic of the output locator: finding the swap button and the input box, following the "Sinhala" heading to its sibling, the bounded waits, and the `expect.poll` retry loop. This is browser automation and timing. Only the selection rule of the scan loop is modelled; a timeout is an absent observation.
- `innerText().catch(() => "")`: a failing read is given to the scan as the text "".
- Typing with a per-key delay versus filling at once: browser input. Only the choice between the two is modelled.
- The test title string and the `test.skip` machinery, beyond "an empty input produces no record".
- The `afterAll` writer: directory creation, `JSON.stringify`, the wall-clock timestamp and the file write.
- `playwright.config.js`: static configuration with no logic.
- RunAll: models the tests as one worker process runs them, against one `results` list. Playwright ends the worker after a failing test and starts a new one. The new worker evaluates the module again, so `results` starts empty, and the next `afterAll` overwrites the file. The model does not capture that discarding; the shared list and the final file content across worker restarts are runner behaviour outside these files.
- Lone UTF-16 surrogates: a JavaScript string is a sequence of UTF-16 code units, so `innerText` can in principle return an unpaired surrogate. A Dafny `string` holds Unicode scalar values only, so such strings are outside the model.
- The `beforeEach` navigation (`page.goto`, tests/translator.spec.js:93): the model takes it to succeed. A failed navigation fails a case before its input is checked, so even an empty-input case would then be reported failed rather than skipped.
