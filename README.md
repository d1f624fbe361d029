# Shift schedule parser: response unwrapping and component state

The repository is one React component, `ShiftScheduleParser`. It uploads a PDF
shift schedule to a language-model completion service and shows the shifts the
service extracts. This project models the two parts of it that are local logic:

- **Response unwrapping** (`ResponseUnwrap`, `JsText`). The completion text goes
  through `content.match(/```(?:json)?\s*([\s\S]*?)```/)`. If there is a match,
  its captured group is trimmed; if not, the whole text is trimmed. The result is
  what `JSON.parse` receives. The regular expression becomes an explicit search:
  - `FindFence`: the first three backticks at or after a position;
  - the `json` tag, taken when written;
  - `SkipSpaces`: the greedy `\s*`;
  - a capture that runs to the next fence.

  `IsSpace` is the ECMAScript WhiteSpace/LineTerminator set. `\s` and `trim` both
  use that set. `FenceMatchIsFirstMatch` proves that this search finds the match
  a backtracking engine reports. The proof compares it with an independent description
  of every possible match (`RegexMatch`) and of the order in which the engine
  tries them (`TriedFirst`).
- **Component state** (`ScheduleParser`). A class holds the four state slots
  `file`, `loading`, `schedule` and `error`. Three methods change them:
  - `SelectFile`: the file input handler;
  - `StartParse`: the start of `parseSchedule`;
  - `FinishParse`: its end, after the read, the request and `JSON.parse`.

  `ParseSchedule` runs the two halves in sequence. The I/O results arrive as an
  `Outcome`. `JSON.parse` is a function parameter `parse: string -> JsonParse`.
  `Settle` is the try/catch: it decides which schedule or which message a parse
  ends with. `ButtonEnabled` (the `disabled` condition of the button) and
  `ScheduleVisible` (the condition around the schedule card) are predicates. The
  methods' postconditions state them.

Some consequences of the code as written:
- The code never clears the schedule when a new file is chosen, and in two
  cases it shows an error beside a schedule (`RejectedFileKeepsSchedule`,
  `RejectionDuringParseKeepsError`).
- The code does not validate the parsed object's shape.
- A decoded empty `shifts` list is not turned into a "no match" message. The list
  is stored, the card stays hidden and no error is set.
- A timeout is not a separate error kind. Its message is shown like any other
  thrown Error (`Threw`).

Fence transparency needs two side conditions. `FenceTransparency` carries both,
and a lemma for each shows that it cannot be dropped:
- the text must not end in a backtick (`TrailingBacktick`: otherwise the result
  is always shorter than the trimmed text);
- with no tag and no white space, the text must not begin with `json`
  (`BareJsonTag`: otherwise the four letters are always lost as the tag).

## Model

| member | source | states |
|---|---|---|
| JsText.SkipSpaces | src/ShiftScheduleParser.tsx:131 | the greedy `\s*`: every character it passes is white space, and it stops at the end or at a character that is not |
| JsText.IsSpace | src/ShiftScheduleParser.tsx:131-132 | the characters `\s` matches and `trim()` removes: the ECMAScript WhiteSpace and LineTerminator code points; `SkipSpaces`, `Trim` and the lemmas below are stated over it |
| JsText.Trim | src/ShiftScheduleParser.tsx:132 | `trim()` returns a text no longer than its input that neither begins nor ends with white space |
| JsText.TrimFromFirstNonSpace | src/ShiftScheduleParser.tsx:132 | when the first character that is not white space is at k and the text does not end in white space, trim drops exactly the first k characters |
| JsText.TrimRemovesSpace | src/ShiftScheduleParser.tsx:132 | `trim()` keeps a contiguous slice of its input and removes only white space before and after it |
| JsText.TrimUnique | src/ShiftScheduleParser.tsx:132 | for white space + t + white space, where t does not begin or end with white space, trim gives back exactly t |
| JsText.TrimDropLeading | src/ShiftScheduleParser.tsx:131-132 | white space skipped by `\s*` before the capture makes no difference once the capture is trimmed |
| JsText.TrimKeepsTrimmed | src/ShiftScheduleParser.tsx:132 | a text with no white space at either end is left unchanged by trim |
| JsText.TrimIdempotent | src/ShiftScheduleParser.tsx:132 | trimming twice equals trimming once |
| ResponseUnwrap.FindFence | src/ShiftScheduleParser.tsx:131 | returns the first position at or after i where ``` starts, or none when ``` does not occur from i on |
| ResponseUnwrap.FenceMatch | src/ShiftScheduleParser.tsx:131 | `content.match(...)` computed directly: the first ``` opens, the `json` tag is taken when written, all white space after it is skipped, and the capture runs to the next ```; `FenceMatchIsFirstMatch` and `MatchExistsIff` state what it means |
| ResponseUnwrap.FenceMatchIsFirstMatch | src/ShiftScheduleParser.tsx:131 | the computed match is a match of the regular expression and comes first in the engine's order: leftmost start, `json` tried before no tag, more `\s` before fewer, shorter lazy capture before longer; when none is computed, no match exists |
| ResponseUnwrap.MatchExistsIff | src/ShiftScheduleParser.tsx:131 | a match exists if and only if some ``` is followed by another starting at least three characters later |
| ResponseUnwrap.Unwrap | src/ShiftScheduleParser.tsx:131-132 | the text handed to `JSON.parse` neither begins nor ends with white space and is a contiguous substring of the completion |
| ResponseUnwrap.Capture | src/ShiftScheduleParser.tsx:131-132 | the trimmed captured group neither begins nor ends with white space and is a contiguous substring of the completion |
| ResponseUnwrap.UnwrapWithoutFencePair | src/ShiftScheduleParser.tsx:131-132 | with no ``` pair, the result is the whole completion trimmed |
| ResponseUnwrap.FencedResultHasNoFence | src/ShiftScheduleParser.tsx:131-132 | when a fenced block is found, the result contains no ```, because the lazy capture stops at the first closing fence |
| ResponseUnwrap.UnwrapIdempotent | src/ShiftScheduleParser.tsx:131-132 | unwrapping an already unwrapped text changes nothing |
| ResponseUnwrap.FenceTransparency | src/ShiftScheduleParser.tsx:131-132 | for a text c without ```, not ending in a backtick, `Unwrap("```json" + ws + c + "```") == Unwrap(c) == trim(c)` for any white space ws; the same holds without the tag unless both ws is empty and c begins with `json` |
| ResponseUnwrap.TrailingBacktick | src/ShiftScheduleParser.tsx:131-132 | for any text c ending in a backtick, with the `json` tag or without it and with any white space (including an untagged block whose text begins with `json`), the unwrapped fenced block is strictly shorter than trim(c), so it differs from it: the lazy capture stops at a fence that begins no later than c's last backtick, so it ends before that backtick, the last character of trim(c) |
| ResponseUnwrap.BareJsonTag | src/ShiftScheduleParser.tsx:131 | an untagged fence with no white space around a text c that begins with `json`, holds no ``` and does not end in a backtick unwraps to trim(c without its first four letters), because the letters are taken as the tag; this always differs from trim(c) |
| ScheduleParser.HasContent | src/ShiftScheduleParser.tsx:127-129 | the truthiness test `!content`: content counts when it is present and not the empty string; `Settle` states that without it the parse ends with "No response from AI" |
| ScheduleParser.Settle | src/ShiftScheduleParser.tsx:120-138 | a parse yields a schedule exactly when the content is present and non-empty and `JSON.parse` of the unwrapped text succeeds; otherwise the message is "Failed to parse PDF: " + statusText for a non-ok response, "No response from AI" for empty content, the Error's own message for anything thrown, and "Failed to parse PDF. Please try again." for the read failure, which throws no Error |
| ScheduleParser.ShiftScheduleParser.constructor | src/ShiftScheduleParser.tsx:21-24 | no file, not loading, no schedule, no error |
| ScheduleParser.ShiftScheduleParser.ButtonEnabled | src/ShiftScheduleParser.tsx:188 | the button's `disabled` condition negated: a file is selected and no parse is loading; the postconditions of `SelectFile`, `StartParse`, `FinishParse` and `ParseSchedule` state its value after each change |
| ScheduleParser.ShiftScheduleParser.ScheduleVisible | src/ShiftScheduleParser.tsx:218 | the condition `schedule && schedule.shifts.length > 0`; the postconditions of `StartParse` and `FinishParse` and the two scenario methods state its value |
| ScheduleParser.ShiftScheduleParser.SelectFile | src/ShiftScheduleParser.tsx:38-47 | accepted exactly when a file is present and its type is `application/pdf`; on acceptance the file is set and the error cleared; otherwise the file becomes null and the error "Please select a valid PDF file"; loading and schedule unchanged; the button ends up enabled exactly when accepted and not loading |
| ScheduleParser.ShiftScheduleParser.StartParse | src/ShiftScheduleParser.tsx:49-54 | with no file nothing changes; otherwise loading is set and error and schedule are cleared, which disables the button and hides the card |
| ScheduleParser.ShiftScheduleParser.FinishParse | src/ShiftScheduleParser.tsx:120-141 | loading always ends; on success the schedule is set and the error untouched; on failure the schedule stays null and the error is the message; the button is enabled exactly when a file is selected (line 188); the card is visible exactly when the parse succeeded with a non-empty `shifts` (line 218) |
| ScheduleParser.ShiftScheduleParser.ParseSchedule | src/ShiftScheduleParser.tsx:49-142 | a whole parse: without a file nothing changes; with one, it ends not loading, button enabled, with either the schedule and no error or no schedule and the message |
| ScheduleParser.RejectedFileKeepsSchedule | src/ShiftScheduleParser.tsx:38-47 | after a successful parse, choosing a non-PDF file shows the error while the schedule card stays visible |
| ScheduleParser.RejectionDuringParseKeepsError | src/ShiftScheduleParser.tsx:38-47 | choosing a non-PDF file while a parse is in flight, then a successful parse, leaves the schedule shown with the error and the button disabled |

## Left out

- `convertFileToBase64` (lines 26-36): the browser's data-URL encoding behind a callback-based reader. Only its failure, the `ReadFailed` outcome, is modelled.
- `fetch`, its headers and credential, and the 300-second `AbortSignal.timeout` (lines 85-118): network transport and a foreign timer. Their errors, and those of `response.json()` and of reading `choices[0]`, arrive as `Threw(message)` or `HttpNotOk(statusText)`.
- `JSON.parse` (line 133): foreign code, passed in as `parse`. Only two kinds of result are modelled: a schedule-shaped object, or a SyntaxError with its message. Other values it may return (`null`, a number, an object without `shifts`) are not. The code does not check the shape, so such values would reach the state or the rendering unchecked.
- Content that is present but is not a string (so that `match` throws) is not distinguished from `Threw`.
- The prompt strings (lines 59-83, 104): constant text.
- `formatDate` (lines 144-155): it depends on `Date` and the locale.
- `console.error` (line 137): logging.
- The JSX layout, styling and icons (lines 157-286).
- Asynchrony and React's re-render scheduling: a parse is `StartParse` followed later by `FinishParse`, with other handler calls possible in between.
- Strings are sequences of Unicode scalar values, not UTF-16 code units. Every character the regular expression and `trim` test for (the backtick, the letters of `json`, the white-space set) lies in the Basic Multilingual Plane, and `[\s\S]` accepts anything, so a surrogate pair behaves like one character that matches none of them and the results agree. A JavaScript string holding an unpaired surrogate has no counterpart in this model.
