# Output parser of the LangChain calculator agent

This project models `CustomOutputParser.parse` in `main.py`. That function turns the raw
text written by the language model into one of three outcomes:

- **a final answer** (`AgentFinish`): the response contains `Final Answer:`, and the output
  is the stripped text after the last such marker;
- **a tool request** (`AgentAction`): the tool name is the stripped text between the first
  `Action: ` and the newline after it, and the tool input is the stripped rest of the first
  `Action Input: ` line. That input goes to `json.loads`. If decoding fails, the
  parser tries to recover the numbers after `"a":` and `"b":`. If that fails too, the
  raw text is kept;
- **an error** (`ValueError`, with a Portuguese message that embeds the whole response):
  neither of the above applies.

The model has six modules:

- `Wrappers` holds the `Option` type used for results that may be absent.
- `Text` models the Python string operations the parser relies on: `in`, `str.strip()`,
  `str.split(sep)[-1]`, and the end of a line.
- `Patterns` models the three regular expressions and `re.search`'s leftmost-match rule.
- `Json` holds the values `json.loads` returns. The decoder is not modelled: it is a
  parameter of type `Decoder`, which yields `None` exactly where `json.loads` raises
  `JSONDecodeError`.
- `OutputParser` holds `Parse`, its two stages, and the lemmas about them.
- `ParserExamples` holds worked inputs.

A raised `ValueError` becomes the `ParseError` value.

## Model

| member | source | states |
|---|---|---|
| Text.FindFrom | main.py:32-34 | The result is the leftmost occurrence at or after `from`: no earlier index from `from` on holds one, and `None` means none occurs from `from` on. This scan underlies `in` and `split`. |
| Text.FindFirst | main.py:32 | A result exists exactly when `sub in s`. It is an occurrence, and no earlier index holds one. |
| Text.LineEnd | main.py:39-40 | The result is the first newline at or after `from`, or the end of the text. No newline lies before it: this is how far `.` reaches. |
| Text.SkipSpace | main.py:60-61 | Every character skipped is whitespace, and the one it stops at is not: how far `\s*` reaches. |
| Text.TrimEnd | main.py:34 | Every character dropped from the end is whitespace, and the last one kept is not. |
| Text.Strip | main.py:34 | `str.strip()`: the result is a piece of the input with only whitespace before and after it. It neither starts nor ends with whitespace. |
| Text.StripUnique | main.py:45-46 | Any slice that drops only whitespace and is bounded by non-whitespace is exactly `Strip`'s result. |
| Text.StripKeepsCharacters | main.py:45-46 | `Strip` introduces no character absent from its input. |
| Text.LastPieceStart | main.py:34 | The last piece starts after a separator occurrence, or at `from` exactly when none occurs. No separator occurs from there on. |
| Text.LastPiece | main.py:34 | `split(sep)[-1]` is a suffix with no separator in it. It is the whole text exactly when the separator is absent. Otherwise a separator ends right before it; for a separator that cannot overlap itself, this fixes the piece. |
| Text.MissingCharacter | main.py:32 | A text lacking one character of a marker does not contain the marker. |
| Text.ShiftOccurrence | main.py:34 | An occurrence in a suffix is the same occurrence in the whole text, shifted. |
| Patterns.SkipDigits | main.py:60-61 | Every character skipped is an ASCII digit, and the one it stops at is not: how far `\d+` reaches. |
| Patterns.MatchAt | main.py:39-61 | A match of one of the three patterns at an index captures a group that lies inside the text, at or after that index. When each pattern matches is stated by `ActionLineAt`, `ActionInputSearch`, `NumericFieldCapture` and `NumericFieldMatches`. |
| Patterns.Search | main.py:39-61 | `re.search`: a result is a match at its index, with no match at any earlier index. `None` means no match anywhere. |
| Patterns.ActionLineAt | main.py:39 | `Action: (.*?)[\n]` matches at `i` exactly when `Action: ` occurs there and a newline follows. The group ends at the first such newline and holds none. |
| Patterns.ActionLineSearch | main.py:39 | The action search succeeds exactly when the first `Action: ` has a newline after it. The match is then at that first occurrence. |
| Patterns.ActionInputSearch | main.py:40 | The input search succeeds exactly when `Action Input: ` occurs. The match is at its first occurrence, and the group runs to the end of that line. |
| Patterns.FieldAbsentBefore | main.py:60-61 | Before the first occurrence of the key letter, the field pattern cannot match. |
| Patterns.NumericFieldMatches | main.py:60-61 | Where `"a":` (or `"b":`) occurs and, after only whitespace, a digit follows, the pattern matches there, and the capture starts at that digit. |
| Patterns.NumericFieldCapture | main.py:60-61 | A field match starts with `"a":` (or `"b":`), and only whitespace follows up to the capture. The capture is a decimal literal, and no longer decimal literal starts there. |
| Patterns.DigitsNotExtended | main.py:60-61 | Greedy `\d+`: no longer run of digits begins at the same place. |
| Patterns.DecimalNotExtended | main.py:60-61 | Greedy `\d+(?:\.\d+)?`: no longer decimal literal begins at the same place. |
| OutputParser.ExtractAction | main.py:39-46 | A tool name and input exist exactly when an `Action: ` line ends in a newline and `Action Input: ` occurs. Neither part contains a newline. |
| OutputParser.DecodeToolInput | main.py:48-73 | The input is the decoded JSON exactly when `json.loads` succeeds. It is the numeric pair exactly when decoding fails and both fields match; both parts are then decimal literals. Otherwise it is the raw text. |
| OutputParser.Parse | main.py:30-73 | The result is a final answer exactly when `Final Answer:` occurs. Results carry the whole response as log. An error message is the fixed prefix, the response and a backquote. A tool name contains no newline. |
| OutputParser.ActionLineFound | main.py:39 | The action search succeeds exactly when some `Action: ` is followed, later, by a newline. |
| OutputParser.LineHasNoNewline | main.py:40 | A piece of a line contains no newline. |
| OutputParser.FinishAfterLastMarker | main.py:32-36 | With `q` the last `Final Answer:`, the result is the final answer, stripped from the text after `q`. |
| OutputParser.LastPieceAfterLastMarker | main.py:34 | The last piece after splitting on the marker starts right after its last occurrence. |
| OutputParser.MarkerStartsOnce | main.py:32 | `F` appears in `Final Answer:` only at its start, so two occurrences cannot overlap. |
| OutputParser.FinishTakesTextAfterMarker | main.py:32-36 | For `before + "Final Answer:" + after` with no marker in `after`, the output is `Strip(after)`, whatever `before` holds. |
| OutputParser.ErrorIffMarkersMissing | main.py:39-43 | The parser fails exactly when there is no final answer and either no `Action: ` line ends in a newline or no `Action Input:` occurs. |
| OutputParser.ToolNameFromFirstActionLine | main.py:39-45 | The tool is the stripped text from the first `Action: ` to the end of its line. |
| OutputParser.ToolInputFromFirstInputLine | main.py:40-56 | The tool input is decoded from the stripped rest of the first `Action Input: ` line. |
| OutputParser.InputTextFromFirstInputLine | main.py:40-46 | The raw input text is the stripped rest of the first `Action Input: ` line, and holds no newline. |
| OutputParser.WellFormedRequest | main.py:39-73 | `Action: t`, newline, `Action Input: l`, then any further lines, parses to tool `Strip(t)` with input decoded from `Strip(l)`. |
| OutputParser.RequestLayout | main.py:39-40 | In a well-formed request, the action line and the input line are found where they were written. |
| OutputParser.NoOverlapBeforeInputLine | main.py:40 | No `Action Input: ` occurrence starts inside the action line of a well-formed request. |
| OutputParser.InputIgnoresLaterLines | main.py:40 | For a request laid out as `Action: t`, newline, `Action Input: l`, then further lines, the tool input depends only on the input line: changing the lines after it does not change it. |
| OutputParser.LineEndUnique | main.py:39-40 | The end of a line is the only newline with no newline before it. |
| OutputParser.NumericRecoveryTakesFirstMatches | main.py:57-68 | When decoding fails, the pair consists of the captures of the leftmost `"a":` and `"b":` matches. |
| ParserExamples.FinalAnswerWinsOverAction | main.py:32-36 | A response with both a tool request and `Final Answer: 70 ` is the final answer `70`. |
| ParserExamples.MissingInputIsError | main.py:42-43 | A response with an `Action:` line but no `Action Input:` line is an error. |
| ParserExamples.ExampleLacksMarkers | main.py:42-43 | That response holds neither marker. |
| ParserExamples.NumericRecoveryExample | main.py:57-68 | `{"a": 2, "b": 5,}`, which is not valid JSON, is recovered as the pair `2`, `5`. |
| ParserExamples.ExampleFieldA | main.py:60 | In that input, `"a":` first matches at index 1 and captures `2`. |
| ParserExamples.ExampleFieldB | main.py:61 | In that input, `"b":` first matches at index 9 and captures `5`. |

### Behaviour of the code that a reader might not expect

- `Action Input: (.*)` has no DOTALL flag, so the tool input stops at the end of its line
  (`InputIgnoresLaterLines`).
- The `isinstance(action_input, dict)` branch (main.py:51-52) can never fire, because the
  input is always a string after `.strip()`.
- Numeric recovery runs only when `json.loads` fails. Valid JSON whose fields are not
  numbers, such as `{"a": 3, "b": "4.5"}`, is passed through as decoded.
- Both patterns are searched anywhere in the text, not at line starts. `Action: ` must be
  followed by a newline somewhere later; without one, the response is an error even when
  it holds `Action Input:`.

## Left out

- The agent set-up and driver loop (main.py:75-231) are not part of this model: the tools,
  the Groq chat model, the prompt template, `AgentExecutor`, environment variables and
  console output.
- `json.loads` itself is a parameter (`Decoder`). Its grammar is not modelled, nor are
  exceptions other than `JSONDecodeError` (for example, `RecursionError` on deep nesting),
  which would escape `parse`.
- OutputParser.DecodeToolInput: keeps the two recovered numbers as their decimal text
  rather than Python floats, because the model has no floating point. `float()` accepts
  every such text, so the `except`/`print` branch at main.py:69-70 is unreachable and
  not modelled.
- OutputParser.DecodeToolInput: `AgentAction` (imported from LangChain at main.py:15)
  declares and validates `tool_input` as a string or a dictionary. That validation is not
  modelled. `Decoded(v)` is the program's value only when `v` is a `JObject` or a
  `JString`. When `json.loads` yields a number, array, boolean or null, LangChain either
  converts it or raises a validation error that escapes `parse`; which one depends on its
  pydantic version, which is not part of this model.
- Text.LastPiece: for a separator that can overlap itself (`"aa"` in `"aaa"`), the contract does not single out the piece Python's scan yields, though the body computes it. The parser splits only on `Final Answer:`, which cannot overlap itself; there `LastPieceAfterLastMarker` fixes the piece.
- Patterns.MatchAt: `\d` is modelled as the ASCII digits `0`-`9`. Python's `\d` in a text
  pattern also matches other Unicode decimal digits.
- `AgentFinish` and `AgentAction` are modelled as the `Finish` and `Action` values. The
  `return_values` dictionary is reduced to its one `output` entry.
