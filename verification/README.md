# Response flattener of the agentic-app `/ask` endpoint

The backend of `agentic-app` forwards a user query to a ReAct-style
language-model agent and flattens the agent's streamed steps into one text
answer. The flattening is the only logic this backend writes itself, so it
is what this project models. `ask_question` does the following:

- It reads the latest message of every step in the stream.
- A message whose `str()` rendering contains `<tool_call>` becomes a tool
  announcement: `🛠️ <tool-call> <name> called with arguments <args>`. The
  announcement uses the message's first tool call only.
- A `(role, content)` tuple contributes its content. Any other message
  contributes its `.content`.
- Repeated content fragments are removed, keeping first-occurrence order.
  This is `list(dict.fromkeys(...))`.
- Tool announcements come first, then the remaining content. The parts are
  joined with a blank line (`"\n\n"`) and the ends are stripped.

The agent runtime is opaque, so its output is the model's input: a
sequence of `Step` values, each holding a message history.

Files:

- `strings.dfy` (module `Strings`) models Python's substring test, `sep.join`
  and `str.strip()`. `IsSpace` holds exactly the characters that Python's
  `str.isspace()` accepts.
- `unique.dfy` (module `Unique`) models order-preserving de-duplication. It
  has a functional definition `Dedup`, the dict-based loop `FromKeys`, and
  a proof that `Dedup` is fully determined by its properties.
- `flattener.dfy` (module `Flattener`) has the message and step datatypes,
  the per-step classification `Classify`, the accumulation `Collect`, the
  response `Flatten`, and the handler's loop `AskQuestion`. It also has
  filter-based reference definitions (`ToolsOf`, `ContentsOf`) and lemmas
  linking them to the handler.

The handler can also fail, and the model keeps those failures instead of
excluding them. A `Fault` is the Python exception the loop raises:

- `IndexError` on a step with an empty message list.
- `AttributeError` when a tuple message mentions `<tool_call>`, because a
  tuple has no `tool_calls`.
- `AttributeError` when a message object of a class without `tool_calls`
  mentions `<tool_call>`. User messages and tool results are such classes.
  The first step echoes the user's own message, so a query containing
  `<tool_call>` ends here. `Chat.toolCalls` is `None` for these classes.
- `IndexError` when a message mentions `<tool_call>` but its `tool_calls`
  list is empty.

The first such step ends the request.

A tuple's rendering is not stored. The marker occurs in
`str((role, content))` exactly when it occurs in `role` or in `content`.
The rendering shows each string through `repr` and glues the two with
parentheses and `", "`. `repr` puts a string in single or double quotes
and may insert escapes, each starting with a backslash. The marker holds
no backslash and no quote of either kind. So an escape never changes an
occurrence, and no occurrence can straddle the glue.
`Flattener.TupleMarkerIffParts` proves this for the single-quote rendering
without escapes.
A message object's rendering is given as a field, `Chat.rendered`.

## Model

| member | source | states |
|---|---|---|
| Strings.Contains | custom-agents/agentic-app/backend/app.py:130 | the `in` test: a string can only contain a pattern at most as long as itself; `ContainsIffOccurs` gives the full characterisation and `ContainsAroundChar` the splitting rule |
| Strings.ContainsAroundChar | custom-agents/agentic-app/backend/app.py:130 | a character absent from the pattern splits the string: the pattern occurs in `u + [c] + v` exactly when it occurs in `u` or in `v` |
| Strings.ContainsIffOccurs | custom-agents/agentic-app/backend/app.py:130 | the `in` test on strings holds exactly when the marker occurs at some index of the rendering |
| Strings.IsSpace | custom-agents/agentic-app/backend/app.py:143 | the whitespace `strip()` removes: every character of Python's `string.whitespace` is whitespace, and no printable non-blank ASCII character is |
| Strings.LeadingSpaces | custom-agents/agentic-app/backend/app.py:143 | `strip()` cuts the longest all-whitespace prefix: everything before the cut is whitespace, the character at the cut is not |
| Strings.TrailingSpaces | custom-agents/agentic-app/backend/app.py:143 | `strip()` cuts the longest all-whitespace suffix, symmetric to the prefix |
| Strings.Strip | custom-agents/agentic-app/backend/app.py:143 | the stripped text has no leading or trailing whitespace; it is the input with whitespace removed only at the two ends; it is empty exactly when the input is all whitespace |
| Strings.StripUnique | custom-agents/agentic-app/backend/app.py:143 | any trimmed text that is the input minus whitespace at both ends equals `Strip` of the input, so the contract fully determines `Strip` |
| Strings.StripIdempotent | custom-agents/agentic-app/backend/app.py:143 | stripping an already stripped response changes nothing |
| Strings.JoinWith | custom-agents/agentic-app/backend/app.py:143 | `"\n\n".join`: no parts give the empty string; otherwise the length is the parts' total length plus one separator between each two neighbours, and the first part starts the result |
| Strings.StripIgnoresSpacePrefix | custom-agents/agentic-app/backend/app.py:143 | whitespace put in front of a string does not change its stripped form |
| Strings.StripIgnoresSpaceSuffix | custom-agents/agentic-app/backend/app.py:143 | whitespace put after a string does not change its stripped form |
| Strings.StripJoinSplit | custom-agents/agentic-app/backend/app.py:143 | with a whitespace separator, the stripped join of two lists is the stripped text of the two joins with one separator between them, even when either list is empty |
| Strings.JoinKeepsParts | custom-agents/agentic-app/backend/app.py:143 | each fragment appears verbatim in the joined text at its offset, and the next fragment starts one separator after it ends |
| Strings.JoinExample | custom-agents/agentic-app/backend/app.py:143 | "A", "B", "C" joined with a blank line gives "A\n\nB\n\nC" |
| Strings.JoinAppend | custom-agents/agentic-app/backend/app.py:143 | joining two non-empty lists concatenated gives the two joins with one separator between them |
| Unique.FirstIndex | custom-agents/agentic-app/backend/app.py:141 | the first position of a value: it holds the value and no earlier position does |
| Unique.Dedup | custom-agents/agentic-app/backend/app.py:141 | the de-duplicated list has no repeated string, holds exactly the values of the input, and is no longer than the input |
| Unique.DedupKeepsFirstOccurrenceOrder | custom-agents/agentic-app/backend/app.py:141 | the kept values are listed by increasing first index in the input, so the output is a subsequence of the input made of first occurrences |
| Unique.DedupOfDistinct | custom-agents/agentic-app/backend/app.py:141 | a list without repeats is returned unchanged |
| Unique.DedupIdempotent | custom-agents/agentic-app/backend/app.py:141 | de-duplicating the de-duplicated list changes nothing |
| Unique.OrderedDistinctUnique | custom-agents/agentic-app/backend/app.py:141 | two repeat-free lists with the same values in first-occurrence order are equal |
| Unique.DedupCharacterization | custom-agents/agentic-app/backend/app.py:141 | any repeat-free list with exactly the input's values in first-occurrence order is the de-duplicated list |
| Unique.DedupExample | custom-agents/agentic-app/backend/app.py:141 | content "A", "B", "A", "C" becomes "A", "B", "C" |
| Unique.FromKeys | custom-agents/agentic-app/backend/app.py:141 | one pass that remembers the keys seen so far and appends a value only when first seen computes the de-duplicated list |
| Flattener.MentionsToolCall | custom-agents/agentic-app/backend/app.py:130 | `"<tool_call>" in str(message)`: for a tuple the marker test on the tuple's rendering agrees with the test on its role and content |
| Flattener.TupleMarkerIffParts | custom-agents/agentic-app/backend/app.py:130 | the marker occurs in `str((role, content))` exactly when it occurs in the role or in the content |
| Flattener.Announce | custom-agents/agentic-app/backend/app.py:132 | the announcement starts with the hammer-and-wrench prefix, which is not whitespace, holds the tool name right after the prefix and ends with the arguments |
| Flattener.Classify | custom-agents/agentic-app/backend/app.py:128-138 | a step raises the empty-history IndexError exactly when its history is empty; it contributes content exactly when its latest message does not mention a tool call, and that content is the message's; an announcement belongs to one of the latest message's tool calls; `MarkerTestedFirst` gives the outcome for every kind of latest message that mentions a tool call, and `OnlyLatestMessageCounts` shows the earlier history is ignored |
| Flattener.Collect | custom-agents/agentic-app/backend/app.py:124-138 | when no step raises, every step adds exactly one fragment: announcements plus content fragments number as many as the steps |
| Flattener.Flatten | custom-agents/agentic-app/backend/app.py:119-145 | an empty step stream yields the empty response, and every response has no leading or trailing whitespace |
| Flattener.AskQuestion | custom-agents/agentic-app/backend/app.py:119-145 | the handler's loop with its two accumulators, early exit on an exception, dict-based de-duplication, join and strip returns the response `Flatten` defines |
| Flattener.FiltersAppend | custom-agents/agentic-app/backend/app.py:127-138 | the per-category filters of a concatenated stream are the concatenated filters |
| Flattener.CollectAppend | custom-agents/agentic-app/backend/app.py:127-138 | draining a concatenated stream: the first exception wins; otherwise each accumulator is the first part's fragments followed by the second part's, so stream order is kept within each category |
| Flattener.CollectOne | custom-agents/agentic-app/backend/app.py:127-138 | a single step adds its announcement to the tool list, or its content to the content list, or raises |
| Flattener.CollectIsFilters | custom-agents/agentic-app/backend/app.py:124-138 | without an exception the accumulators equal the announcements of the announcing steps and the contents of the content steps, each in stream order |
| Flattener.CollectRaisesEarliest | custom-agents/agentic-app/backend/app.py:127-138 | draining raises exactly when some step cannot be handled, and the exception is that of the earliest such step |
| Flattener.FlattenFailsOnFirstBadStep | custom-agents/agentic-app/backend/app.py:127-138 | the request fails exactly when some step cannot be handled, with the exception of the first such step |
| Flattener.FlattenIsJoinOfFilters | custom-agents/agentic-app/backend/app.py:127-143 | the response is the stripped blank-line join of all announcements followed by the de-duplicated content |
| Flattener.ToolsBeforeContent | custom-agents/agentic-app/backend/app.py:130-143 | whatever the interleaving of steps, and even when there are no announcements or no content, the response is the stripped text of the joined announcements, one separator, then the joined de-duplicated content |
| Flattener.NoToolStepsAllContent | custom-agents/agentic-app/backend/app.py:130-138 | when no latest message mentions a tool call, there are no announcements and step i contributes exactly its latest message's content |
| Flattener.FlattenWithoutTools | custom-agents/agentic-app/backend/app.py:141-143 | with no tool-call steps the response is the stripped blank-line join of the de-duplicated content |
| Flattener.MarkerTestedFirst | custom-agents/agentic-app/backend/app.py:130-138 | the marker test comes before the tuple and plain tests. A message mentioning a tool call never contributes content. A tuple, or a message object without `tool_calls`, that mentions one raises AttributeError. One with an empty `tool_calls` list raises IndexError. Otherwise it is announced through its first tool call. A message without the marker contributes its content |
| Flattener.OnlyLatestMessageCounts | custom-agents/agentic-app/backend/app.py:128 | only the last message of a step's history decides what the step contributes |
| Flattener.AnnouncesFirstCallOnly | custom-agents/agentic-app/backend/app.py:132 | the announcement names the first tool call and its arguments, whatever further calls the message carries |
| Flattener.RepeatedToolCallAnnouncedTwice | custom-agents/agentic-app/backend/app.py:130-143 | announcements are not de-duplicated: the same tool step twice yields its announcement twice |
| Flattener.RepeatedContentKeptOnce | custom-agents/agentic-app/backend/app.py:133-143 | the same content step twice yields its content once |

## Left out

- The agent runtime (`create_react_agent`, `graph.stream`) and the language-model client (app.py:36-46, 91, 127). They are external, so the model takes their step stream as input.
- The `python_repl` tool (app.py:57-69) is a thin wrapper over an external interpreter. Its state is shared across requests, which is a concurrency concern outside this model.
- The `get_stock_price` tool (app.py:72-82) needs network access and formats a float with `:.2f`.
- The DuckDuckGo search tool (app.py:85) is external.
- The `/health`, `/config` and `/tools` routes (app.py:102-117) return constants or configuration.
- The request and response models, environment variables, logging and the server launch (app.py:25-33, 94-99, 122, 131, 134, 137, 144, 149-151) are I/O and configuration. The handler's log lines do not affect its result.
- The `str()` rendering of a message object, which is pydantic's field dump, is not modelled. It enters as the opaque field `Chat.rendered`. The rendering of a tool call's argument dictionary is likewise the opaque string `ToolCall.args`.
- Message content that is not a string, such as a list of content blocks, is not modelled. Content is a string, so `str(message[1])` is the content itself.
- A tuple message is always a pair. Tuples of other lengths are not modelled.
- Strings are sequences of Unicode scalar values. A Python `str` can also hold lone surrogates, for example from a JSON query containing `"\ud800"`; such strings are not modelled.
