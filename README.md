# Grabber capture service: a Dafny model of its deterministic core

The Grabber service exposes two HTTP endpoints. Each one drives a headless browser through a
fixed sequence on the Human Protein Atlas site: open the site, search for a target, click the
first result, and screenshot one region of the page. Each screenshot is saved as
`<OUTPUT_DIR>/<sanitized code>.png`.

Around that browser I/O sits a thin layer of deterministic logic, and this project models that
layer:

- `FileNames` (`filenames.dfy`) covers `_sanitize_filename` and the output path that
  `_capture_one_raw` builds from it:
  - drop the nine characters `\ / : * ? " < > |`;
  - strip surrounding whitespace;
  - append `.png` under the fixed output directory.
- `Endpoints` (`endpoints.dfy`) covers `_capture_one_raw` and the two endpoints.
  - In `_capture_one_raw`, the browser is an oracle `Browser`: `shoot(outPath, target)` reports
    `Saved`, `Raised(message)` (an exception caught by the `except`) or `Escaped` (an exception
    that leaves `_capture_one_raw`), and `resolve` stands for `Path.resolve()`.
  - `capture` validates the request body and shapes the response. An escaping exception becomes
    the framework's HTTP 500.
  - `capture_map` validates the mapping and accumulates `done` in a loop. It is a method whose
    loop is proved against the specification function `Done`. An escaping exception ends the
    loop and the request with HTTP 500 (`FirstEscape` is where that happens).
- `Subsequences` (`subsequences.dfy`) defines the order-preserving subsequence relation that
  both the filter and the `done` list satisfy.

A mapping (a Python `dict`) is modelled as the sequence of its (key, value) pairs in iteration
order. Strings are `seq<char>`.

The response bodies are the ones the code builds:

- A failed single capture answers `{"code", "target", "error": "未找到图片"}` ("image not
  found") with status 200.
- The 400 bodies carry the two fixed Chinese messages of `Grabber.py:118` and `Grabber.py:140`.

## Model

| member | source | states |
|---|---|---|
| FileNames.DropForbidden | Grabber.py:30 | the filtered name contains none of the nine forbidden characters, is no longer than the input, and keeps every allowed character of the input |
| FileNames.DropForbiddenIsSubsequence | Grabber.py:30 | the character filter keeps the surviving characters in their original order (order-preserving subsequence) |
| FileNames.DropForbiddenKeepsAllowedCounts | Grabber.py:30 | every allowed character occurs in the filtered name exactly as often as in the input |
| FileNames.DropForbiddenFixes | Grabber.py:30 | a name without forbidden characters passes the filter unchanged |
| FileNames.DropForbiddenConcat | Grabber.py:30 | the filter works character by character: filtering a concatenation concatenates the filtered parts |
| FileNames.TrimStartIsSuffix | Grabber.py:30 | `lstrip`: the result is a suffix of the input that does not start with whitespace, and everything removed is whitespace |
| FileNames.TrimEndIsPrefix | Grabber.py:30 | `rstrip`: the result is a prefix of the input that does not end with whitespace, and everything removed is whitespace |
| FileNames.Strip | Grabber.py:30 | `strip`: the result has no whitespace at either end and is no longer than the input |
| FileNames.StripIsSlice | Grabber.py:30 | `strip`: the result is one contiguous slice of the input, starting where the leading whitespace ends, and everything outside it is whitespace |
| FileNames.StripFixesStripped | Grabber.py:30 | stripping a string with no whitespace at either end leaves it unchanged |
| FileNames.Sanitize | Grabber.py:29-30 | the sanitized name has no forbidden character, has no leading or trailing whitespace (or is empty), and is never longer than the input |
| FileNames.SanitizeIsSubsequence | Grabber.py:30 | the sanitized name is an order-preserving subsequence of the input |
| FileNames.SanitizeKeepsOnlyOriginalCharacters | Grabber.py:30 | every character of the sanitized name occurs in the input and is not forbidden |
| FileNames.SanitizeIdempotent | Grabber.py:30 | sanitizing a sanitized name returns it unchanged |
| FileNames.SanitizeIgnoresForbidden | Grabber.py:30 | inserting a forbidden character anywhere in a name does not change its sanitized form |
| FileNames.AllForbiddenSanitizesToEmpty | Grabber.py:30 | a name made only of forbidden characters sanitizes to the empty string |
| FileNames.SanitizeExample | Grabber.py:30 | the identifier `a/b:c` sanitizes to `abc` |
| FileNames.DropForbiddenExample | Grabber.py:30 | the filter turns `a/b:c` into `abc` |
| FileNames.OutputPathShape | Grabber.py:57-60 | the output file is the output directory, one separator, then a file name ending in `.png` that contains no separator, drive colon or other forbidden character, so it always lies directly inside the output directory |
| FileNames.OutputPathCollision | Grabber.py:57-60 | two codes map to the same output file if and only if they sanitize to the same name |
| FileNames.ForbiddenDifferenceCollides | Grabber.py:57-60 | codes that differ only in a forbidden character write the same file |
| FileNames.OutputPathExampleCollision | Grabber.py:57-60 | `a/b` and `ab` write the same file |
| FileNames.AllForbiddenWritesDotPng | Grabber.py:57-60 | a code made only of forbidden characters writes the file `.png` in the output directory |
| Endpoints.CaptureOneRawOutcome | Grabber.py:52-105 | a capture raises out of `_capture_one_raw` exactly when the browser outcome is `Escaped`; otherwise it returns success exactly when the screenshot was saved, with the resolved output path, and on failure exactly `未找到图片: ` followed by the caught exception's text |
| Endpoints.CaptureOneRawUsesOneBrowserPoint | Grabber.py:57-105 | a capture consults the browser only at its code's output path and its search term: browsers that agree there give the same result |
| Endpoints.CaptureOneRawSeesSanitizedCode | Grabber.py:57-60 | the browser sees the code only through its sanitized output path: codes with equal sanitized names capture identically |
| Endpoints.Capture | Grabber.py:117-127 | status 400 with the list-shape error exactly when the body has fewer than two elements; status 500 exactly when the capture raises out of `_capture_one_raw`; otherwise status 200, echoing `item[0]` and `item[1]` unsanitized, with `path` (the resolved output path) exactly when the capture succeeded and `error` ("未找到图片") exactly when it failed |
| Endpoints.CaptureRejectsWithoutBrowser | Grabber.py:117-118 | a body with fewer than two elements gets the same response whatever the browser does, so no capture is made |
| Endpoints.CaptureIgnoresExtraElements | Grabber.py:119 | elements after the second one do not change the response |
| Endpoints.CaptureUsesOneBrowserPoint | Grabber.py:119-122 | an accepted request consults the browser only at its code's output path and its target |
| Endpoints.DoneConcat | Grabber.py:146-149 | the `done` list of a concatenation of batches is the concatenation of their `done` lists, so no item's outcome affects another |
| Endpoints.DoneIsSubsequenceOfKeys | Grabber.py:146-149 | `done` is an order-preserving subsequence of the mapping's keys |
| Endpoints.DoneMembership | Grabber.py:146-149 | a key is in `done` exactly when an entry with that key was captured successfully |
| Endpoints.FailedEntrySkipped | Grabber.py:146-149 | an entry whose capture returns failure is skipped, and the entries before and after it contribute exactly what they would without it (a returned failure does not stop later items) |
| Endpoints.DoneUsesEntryPoints | Grabber.py:146-147 | the batch consults the browser only at its own entries' output paths and targets |
| Endpoints.DoneStep | Grabber.py:146-149 | one more loop iteration appends the entry's unsanitized key to `done` exactly when its capture succeeds, and otherwise leaves `done` unchanged |
| Endpoints.FirstEscape | Grabber.py:146-147 | the index of the first entry whose capture raises out of `_capture_one_raw`, or the number of entries when none does |
| Endpoints.FirstEscapeIsFirst | Grabber.py:146-147 | no entry before `FirstEscape` raises |
| Endpoints.FirstEscapeScan | Grabber.py:146-147 | walking the entries up to the first escape, an entry that raises is the first escape and an entry that returns lies before it |
| Endpoints.FirstEscapeIgnoresLaterEntries | Grabber.py:146-147 | once an entry raises, entries after it do not change where the batch stops |
| Endpoints.CaptureMap | Grabber.py:139-151 | status 400 with the object-shape error exactly when the mapping is empty; status 500 when some capture raises, after exactly the entries up to and including the first raising one were handed to the browser; otherwise status 200 with `output_dir` the fixed directory and `done` equal to `Done`: the unsanitized keys whose capture succeeded, in iteration order, after every entry was attempted |
| Endpoints.BatchExample | Grabber.py:142-151 | a two-entry batch whose first capture returns failure and whose second succeeds runs to the end with `done` equal to the second key alone |

## Left out

- The Playwright sequence is not modelled. It covers the browser context and page, `goto`, the locator waits, `fill`, `click`, `wait_for_load_state`, scrolling, the 500 ms settle delay and `screenshot` (Grabber.py:62-98), and the `context.close()` in `finally` (Grabber.py:104-105). All of it is foreign, network and DOM I/O. It is the oracle `Browser.shoot`, a function of the output path and the search term. Its outcome is `Saved`, `Raised(message)` for an exception inside the `try` at Grabber.py:70-103 (caught at line 102), or `Escaped` for an exception nothing catches. Those come from `mkdir` (line 59), `new_context` and `new_page` (lines 63-68) and `close` (line 105), which lie outside the `try`.
- The page-zoom branch (Grabber.py:73-74) is not modelled. It only runs inside the browser, and it is dead with `PAGE_ZOOM = 1.0`.
- `out_dir.mkdir(...)` and `out_path.resolve()` (Grabber.py:59, 100) are filesystem calls. `resolve` is the opaque function `Browser.resolve`. The directory creation has no modelled effect; its failure is an `Escaped` outcome.
- The body of the framework's 500 answer to an escaping exception is not modelled; it is the single value `ServerError`.
- The output directory is joined with the Windows separator `\`, because `OUTPUT_DIR` is a Windows path. On a POSIX host, `pathlib` would join with `/` instead. Nothing else in the model depends on the separator.
- The `asyncio.Semaphore(1)` queue lock and its `async with` sections (Grabber.py:41, 121, 145) are not modelled. They are concurrency control between event-loop tasks, and each modelled endpoint runs as one sequential step.
- The `lifespan` browser start and stop and its printing (Grabber.py:32-48) are resource lifecycle and I/O, and are not modelled.
- FastAPI routing, `Body` parsing, type coercion and `uvicorn.run` (Grabber.py:50, 108-112, 130-134, 153-157) are framework plumbing. A body that is not a list or not an object is refused by the framework before the handler runs, so the handlers take a `seq<string>` and a sequence of pairs. The `str(...)` conversions are the identity on those strings.
- `IsWhitespace` is the fixed table of characters that Python's `str.isspace` accepts, which is what `str.strip()` removes. No general lemma depends on the table; only the example `SanitizeExample` does. Python strings can hold lone surrogates, which a Dafny `char` cannot.
- A Python `dict` has distinct keys. The model's sequence of pairs does not require this, and every property holds without it.
