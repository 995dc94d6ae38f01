# Response-stream reassembly of the light-weight AI code analyser

The analyser is a single Python script (`main.py`). It sends a fixed
review-instruction prompt and a fixed code sample to a local Ollama server
(`POST /api/generate`). It then rebuilds the generated review from the
server's streamed reply and writes it to `output.md`. The reply body is
newline-delimited JSON: one object per line, and each object carries a
`response` fragment.

This project models that script in Dafny:

- **Request** (`request.dfy`): the payload. The prompt is the instructions,
  a single space, and the code.
- **Text** (`text.dfy`): the two Python string operations the reassembler
  uses. These are `str.strip()`, with Python's exact `str.isspace()` set,
  and `str.split('\n')`, with its inverse, joining with `'\n'`.
- **Json** (`json.dfy`): JSON values as `json.loads` returns them, with
  strings limited to Unicode scalar values. The
  decoder is a function parameter (`Parser`). It fails either with
  `Malformed`, the `json.JSONDecodeError`, or with `OtherDecodeFailure`,
  any other exception `json.loads` raises. Examples of the latter are the
  `RecursionError` on very deep nesting, the `ValueError` of `int` on an
  integer literal past the interpreter's digit limit, and a `MemoryError`.
  These reach the generic handler (main.py:148-149).
- **Reassembly** (`reassembly.dfy`): the top-level block of the script.
  - `ReassembleLoop` is the `for` loop with its accumulator. Its invariant
    says the accumulator is the fold over the lines processed so far.
  - `Run` is the status check and the two exception handlers. Its result
    is the script's outcome: `Written(text)`, `DecodeError`, `OtherError`
    or `HttpError(status)`.
  - The pure fold (`Fold` with the per-line step `Contribution`) is proved
    equal to an independent description:
    - success exactly when every line is acceptable;
    - the text is the in-order concatenation of the `response` texts of the
      non-blank lines;
    - the first unacceptable line decides the error kind.
- **Scenarios** (`scenarios.dfy`): concrete examples. Each holds for any
  decoder that decodes the example lines as RFC 8259 says.

Three behaviours of the script matter for the model:

- **Fail-fast.** The first line that fails to decode ends the run, and the
  text gathered so far is dropped (main.py:138, 146-147).
- **Any JSON value per line.** A line may decode to any JSON value. A
  value that is not an object fails at `.get`, and a `response` that is
  not a string fails at `+=`. Both reach the generic handler (main.py:139,
  148-149), so the model gives `OtherError` for them, not `DecodeError`.
- **Both ends stripped.** Both ends of the body are stripped with the
  whitespace set of `str.isspace()`, Unicode spaces included (main.py:131).

## Model

| member | source | states |
|---|---|---|
| `Reassembly.ReassembleLoop` | main.py:131-139 | The loop over `body.strip().split('\n')` returns exactly the fold of the per-line steps over all lines. Its invariant: after `i` lines the accumulator is the fold over the first `i` lines. The first failing line ends it with that line's fault. |
| `Reassembly.Run` | main.py:128-151 | A status other than 200 yields `HttpError(status)` without reassembly. Status 200 yields `Written(t)` only when the loop finished with `t`. A decode fault yields `DecodeError` and any other fault yields `OtherError`, both without output. |
| `Reassembly.ScriptOutcome` | main.py:128-151 | The outcome of one run, as a pure function of the status, the body and the decoder. It is `HttpError` exactly when the status is not 200, and then it carries that status. `WrittenIff` and `FirstBadLineDecides` state what it is for status 200. |
| `Reassembly.Reassemble` | main.py:131-139 | The reassembly of a whole body: the fold of the reassembler's step over `body.strip().split('\n')`. `ReassembleLoop` is proved equal to it. `SurroundingWhitespaceIgnored` and `BlankBodyWritesEmpty` are stated about it or about the outcome built on it. |
| `Reassembly.Fold` | main.py:133-139 | The accumulator after the loop has gone through the lines, or the fault of the line that stopped it. `FoldText`, `FoldSucceedsIff`, `FoldFailsAtFirstFault` and `BlankLinesIgnored` state its properties. |
| `Reassembly.ResponseOf` | main.py:139 | The text `json_obj.get('response', '')` hands to `+=`. It is the empty text when the member is absent, the member when it is a string, and nothing otherwise. `ContributionMeaning` states what this means for a line. |
| `Reassembly.Contribution` | main.py:137-139 | A line gets through the loop body exactly when it is acceptable: blank, or decoding to a value whose `response` member is a string or absent. |
| `Reassembly.ContributionMeaning` | main.py:137-139 | A blank line adds nothing. An object with no `response` key adds `''` and is not an error. An acceptable non-blank line adds its `response` text. The step is a decode fault exactly when the line is non-blank and fails to decode as malformed. |
| `Reassembly.Pieces` | main.py:131 | The lines of the body are at least one and contain no newline. Joining them with `'\n'` gives back the stripped body. |
| `Reassembly.NonBlank` | main.py:137 | The kept lines are all non-blank and are no more than the input lines. |
| `Reassembly.NonBlankKeepsNonBlank` | main.py:137 | Every line that is not whitespace-only is kept. |
| `Reassembly.FoldAppend` | main.py:133-139 | The fold over `a + b` is the fold over `a` when that fails. Otherwise it is the fold over `b` appended to it. |
| `Reassembly.FoldSnoc` | main.py:136-139 | One more line through the loop extends the accumulator by that line's text, or stops at its fault. |
| `Reassembly.FoldFailurePersists` | main.py:138-139 | Once a prefix of the lines has failed, the lines after it change nothing. |
| `Reassembly.FoldOkIff` | main.py:136-139 | The fold gets through exactly when the step of every line does. |
| `Reassembly.FoldFailsAtFirst` | main.py:136-139 | The fold's fault is the fault of the first failing line, whatever follows it. |
| `Reassembly.FoldSucceedsIff` | main.py:136-139 | Reassembly of a list of lines succeeds exactly when every line is acceptable. |
| `Reassembly.FoldText` | main.py:133-139 | On success the accumulated text is the in-order concatenation of the `response` texts of the non-blank lines. |
| `Reassembly.FoldFailsAtFirstFault` | main.py:138-139 | The first unacceptable line decides the fault. It is `DecodeFault` exactly when that line is malformed JSON, otherwise `OtherFault`. This holds however many lines before it were fine and whatever follows. |
| `Reassembly.BlankLinesIgnored` | main.py:137 | Dropping every whitespace-only line leaves the result unchanged, text and order included. |
| `Reassembly.SurroundingWhitespaceIgnored` | main.py:131 | Whitespace around the whole body, such as a trailing newline, does not change the reassembly. |
| `Reassembly.BlankBodyWritesEmpty` | main.py:131-143 | An empty or whitespace-only body with status 200 writes the empty string. |
| `Reassembly.WrittenIff` | main.py:128-143 | A file is written exactly when the status is 200 and every line is acceptable. The written text is the concatenation of the `response` texts of the non-blank lines of the stripped body. |
| `Reassembly.FirstBadLineDecides` | main.py:138-149 | With status 200, the first unacceptable line makes the outcome `DecodeError` if it is malformed JSON and `OtherError` otherwise. Nothing is written, even when earlier lines were accumulated. |
| `Text.IsSpace` | main.py:131-137 | Exactly the characters for which `str.isspace()` holds, which `strip()` removes at main.py:131 and main.py:137. `StripLeft`, `StripRight`, `Strip` and `StripIsSlice` state what the strips do with it. |
| `Text.StripLeft` | main.py:131 | The result is the suffix left after dropping the whitespace prefix. It does not start with whitespace. |
| `Text.StripRight` | main.py:131 | The result is the prefix left after dropping the whitespace suffix. It does not end with whitespace. |
| `Text.Strip` | main.py:131 | The stripped text is empty exactly when the input is all whitespace. Otherwise it starts and ends with a non-whitespace character. |
| `Text.StripIsSlice` | main.py:131 | The stripped text is a contiguous slice of the input. Only whitespace is cut from it, and only from its two ends. |
| `Text.Split` | main.py:131 | Splitting on `'\n'` gives at least one piece, and no piece holds a newline. |
| `Text.JoinSplit` | main.py:131 | Joining the pieces of a split with `'\n'` gives back the original text. |
| `Text.SplitJoin` | main.py:131 | Splitting a join of newline-free pieces gives back the pieces, so the split is the exact inverse of the join. |
| `Text.StripLeftPadded` | main.py:131 | Leading whitespace does not change what `lstrip` keeps. |
| `Text.StripRightPadded` | main.py:131 | Trailing whitespace does not change what `rstrip` keeps. |
| `Text.StripLeftAppend` | main.py:131 | After the first non-whitespace character, `lstrip` keeps everything that follows. |
| `Text.StripPadded` | main.py:131 | Whitespace on either side does not change what `strip` keeps. |
| `Text.StripUnpadded` | main.py:131 | A text with no whitespace at either end is its own `strip`. |
| `Request.Prompt` | main.py:117 | The prompt is the instructions, then exactly one space, then the code, each unchanged. |
| `Request.PromptRecoverable` | main.py:117 | Given the length of the instructions, the prompt determines both the instructions and the code. |
| `Request.BuildPayload` | main.py:115-120 | The payload names the `codellama` model with a 100-token limit. Its prompt is `Prompt(instructions, code)`. |
| `Scenarios.TwoFragmentsWritten` | main.py:131-143 | Two fragment lines are written as their texts, concatenated with no separator and no added newline. |
| `Scenarios.GapFragmentsWritten` | main.py:137 | An empty line between two fragment lines leaves the written text unchanged. |
| `Scenarios.SecondLineFails` | main.py:138-149 | An unacceptable second line fails the run although the first one got through. Its decoding decides the error kind. |
| `Scenarios.BlankLineBetweenFragments` | main.py:131-143 | `{"response":"a"}`, an empty line and `{"response":"b"}` write `ab`. |
| `Scenarios.HelloWorld` | main.py:131-143 | `{"response":"Hello"}` followed by `{"response":" World"}` writes exactly `Hello World`. |
| `Scenarios.MissingResponseIsEmpty` | main.py:139 | A line `{"x":1}` adds nothing and is not an error. |
| `Scenarios.DecodeErrorDiscardsEarlierText` | main.py:138-147 | A cut-off second line gives `DecodeError`, and the `a` gathered before it is discarded. |
| `Scenarios.NonStringResponseIsOtherError` | main.py:139-149 | A numeric `response` gives `OtherError`, not `DecodeError`. |
| `Scenarios.ArrayLineIsOtherError` | main.py:139-149 | A line holding a JSON array gives `OtherError`. |
| `Scenarios.ReviewPrompt` | main.py:117 | `Review:` and `int x;` give the prompt `Review: int x;`. |

## Left out

- The HTTP request (main.py:124) is network I/O. Its result enters the model as two inputs, the status code and the body text. How `requests` decodes the body bytes into text is not modelled. The call at main.py:124 is outside the `try`, so a failed `requests.post` (a refused connection, say) ends the script with an uncaught exception. The inputs `(status, body)` cannot express that case.
- Logging (main.py:5-7, 123, 125, 145, 147, 149, 151) is an observability side channel. It does not affect the outcome.
- Opening and writing `output.md` (main.py:142-143) is modelled only as the `Written(text)` outcome, the text handed to the write. The file is opened in text mode with the locale's encoding. On Windows each `'\n'` is written as `"\r\n"`, so the bytes on disk need not equal `text`. An I/O error while writing would also reach the generic handler, and so would a `UnicodeEncodeError` for a character the locale cannot encode. In both cases `open` has already emptied the file. The model does not produce `OtherError` for these failures.
- The JSON grammar of `json.loads` is not modelled: number syntax, Python's NaN and Infinity extensions, how a repeated key is resolved, and the depth at which the decoder gives up. The decoder is a parameter of every member that decodes a line.
- A JSON string with an unpaired surrogate escape (`"\ud800"`) decodes in Python to a `str` that Dafny's `string` cannot hold, because a Dafny `char` is a Unicode scalar value. The script would keep that text and then fail at the write with `UnicodeEncodeError`. That failure is already not modelled, as the line on `output.md` says.
- The sampling temperature `0.7` (main.py:119) is a floating-point constant with no logic, so `Payload` has no field for it.
- The long instruction and code literals (main.py:12-112) are opaque inputs to `Prompt` and `BuildPayload`.
- Exceptions that are not `Exception` subclasses, such as a keyboard interrupt, would escape both handlers. They are not modelled.
