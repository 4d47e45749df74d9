# ShamanAi chat client, modelled in Dafny

ShamanAi is a browser chat front end. The user picks a mode (`chat`, `graph`
or `draw`), may attach a picture, and sends a turn. The client posts a chat
completion request to a proxy with a mode-dependent system prompt. It then
renders the answer into the conversation:

- in graph mode, a ```` ```json ```` block becomes a Plotly chart;
- in chat and draw mode, a ```` ```svg ```` block, or else an inline
  `<svg>…</svg>`, becomes a drawing;
- what is left is cut into plain text and `$…$` formulas for MathJax.

This project models that pipeline and proves what it does:

| file | module | content |
|---|---|---|
| wrappers.dfy | `Wrappers` | `Option` |
| chars.dfy | `Chars` | the `\s` class, search, `trim`, `replace` with a string pattern, decimal printing |
| json.dfy | `Json` | parsed JSON values, truthiness, `?.` access, `\|\|`, chart data and layout |
| fences.dfy | `Fences` | the three regular expression searches, stated declaratively (the match a backtracking engine reports) and computed by index functions; proofs that `replace(match[0], '')` removes exactly the matched span |
| formulas.dfy | `Formulas` | the `$…$` split: a recursive specification, the `while` loop proved against it, round trip and shape lemmas |
| renderer.dfy | `Renderer` | `updateMessage`: the declarative list of bubble children, the imperative method proved equal to it, and lemmas on order, mode gating, text presence and what is removed |
| client.dfy | `Client` | the system prompt, the request body, the answer fallback, the text a bubble is rendered from, and a `ChatClient` class for `currentMode`, `currentImageBase64`, the text box and the conversation |

`JSON.parse` is a parameter of type `string -> Option<JsonValue>` (`None` is
a thrown `SyntaxError`). The network is a parameter as well: an `Outcome` is
a parsed answer, a non-OK status or an exception message. The engine's texts
for the two `TypeError`s that can occur are string parameters too.

Where the documented behaviour and the code differ, the model follows the code:

- For an inline `<svg>` the mounted markup is the whole `<svg…</svg>` span,
  tags included. The regular expression's group 1 wraps the whole pattern.
- A chart body that parses to `null` still leaves a (empty) plot container.
  The container is appended before `graphData.data` throws. The text is then
  left untouched, because the throw skips the `replace`.

## Model

| member | source | states |
|---|---|---|
| Chars.Find | script.js:144-145 | the first occurrence of a pattern at or after an index, and no occurrence before it; `None` only when there is none at all |
| Chars.Trim | script.js:90 | `trim()` is a slice of the text with only whitespace cut from each end; it is empty exactly when the text is all whitespace, and otherwise neither starts nor ends with whitespace |
| Chars.ReplaceFirst | script.js:163 | `replace(t, '')` cuts out the first occurrence of `t`, keeping what is before and after it, and returns the text unchanged when `t` does not occur |
| Chars.NatToString | script.js:266 | the status printed in the error text is a non-empty run of decimal digits without a leading zero that reads back as the status |
| Json.Field | script.js:154-155 | a property read is defined exactly on objects holding that key, and yields the bound value |
| Json.OptField | script.js:270 | `x?.name` is defined exactly when `x` is an object holding `name`, and then yields the bound value |
| Json.OptIndex0 | script.js:270 | `x?.[0]`: an array's first element, `undefined` for an empty array, an object's `"0"` property, a string's first character, and `undefined` on `undefined`, `null`, booleans, numbers and the empty string |
| Json.Or | script.js:154-160 | `x \|\| fallback` keeps a truthy `x` and otherwise yields the fallback |
| Json.ResolveChart | script.js:154-160 | no chart for `null`; an array is its own data; else a truthy `data`, else `[graphData]`; the layout is a truthy `layout`, else autosize with margins 30/30/40/40 and transparent backgrounds |
| Fences.FenceAt | script.js:144 | the fenced pattern matches at an index exactly when the computed span is a match there |
| Fences.FirstFence | script.js:144-145 | the leftmost fenced match at or after an index; `None` only when the pattern matches nowhere there |
| Fences.InlineSvgAt | script.js:145 | the inline pattern at one index: `<svg` to the first `</svg>` after it |
| Fences.FirstInlineSvg | script.js:145 | the leftmost inline match at or after an index |
| Fences.JsonMatch | script.js:144 | `match` of the chart pattern: a match, leftmost, and `None` only when there is no match |
| Fences.SvgMatch | script.js:145 | a `svg` fence anywhere wins and is the leftmost one; an inline tag is used only when no fence exists, and is then the leftmost; `None` exactly when neither matches |
| Fences.SkipWsUnique | script.js:144 | greedy `\s*` can stop at only one place |
| Fences.NoFenceWithoutClose | script.js:144 | an opener with no closing fence after its whitespace run starts no match |
| Fences.FenceSvgCode | script.js:170 | the mounted fenced drawing is its trimmed body, or the whole fence when the body is empty |
| Fences.InlineSvgCode | script.js:170 | the mounted inline drawing is the whole span, from `<svg` to `</svg>` |
| Fences.FenceStartsAtFirstOpener | script.js:144-145 | the leftmost fenced match starts at the first occurrence of its opener |
| Fences.InlineStartsAtFirstTag | script.js:145 | the leftmost inline match starts at the first `<svg` |
| Fences.ReplaceAtFirstOpener | script.js:163-175 | a string that begins with a pattern and occurs where the pattern first occurs is removed from exactly there |
| Fences.RemoveJsonSpan | script.js:163 | `replace(jsonMatch[0], '')` deletes exactly the matched span |
| Fences.RemoveSvgSpan | script.js:175 | `replace(svgMatch[0], '')` deletes exactly the matched span, fenced or inline |
| Formulas.CloseFromIsLazy | script.js:187 | the lazy `(.*?)\$`: the `$` found can close the formula with no `$` or line terminator before it, and `None` only when no `$` can close |
| Formulas.NextFormula | script.js:188 | a found formula lies at or after the scan position and before the end, opening and closing on `$` |
| Formulas.NextFormulaIsLeftmost | script.js:187-188 | `exec` with `lastIndex` returns the leftmost `$…$` match at or after it, and `null` exactly when there is none |
| Formulas.SplitFormulas | script.js:184-206 | the loop produces exactly the specified parts, and their rendering reproduces the input |
| Formulas.SplitRoundTrip | script.js:189-215 | concatenating text parts as they are and formulas re-wrapped in `$` gives back the text |
| Formulas.SplitWellFormed | script.js:189-206 | no text part is empty, no formula contains `$` or a line terminator, no two text parts are adjacent |
| Formulas.NoDollarIsPlainText | script.js:184-206 | a text without `$` is exactly one text part equal to it (none when empty) |
| Renderer.UpdateMessage | script.js:141-217 | the imperative pass over the reply yields exactly the declarative list of bubble children |
| Renderer.RegionOrder | script.js:152-217 | plot before drawing before text, and at most one child of each kind |
| Renderer.ModeGating | script.js:147-169 | a plot only in graph mode, a drawing only in draw or chat mode, never both; in any other mode the reply is shown as text, untouched |
| Renderer.TextBlockIffNotBlank | script.js:179-217 | a text block exists exactly when the remaining text is not blank; it is the formula split of that text and reproduces it |
| Renderer.ChartRemoval | script.js:147-163 | a drawn chart removes the whole ```` ```json … ``` ```` span and nothing else, and its plot comes first |
| Renderer.ChartParseFailure | script.js:149-165 | a body that does not parse leaves no plot and the text unchanged; a `null` body leaves an empty plot and the text unchanged |
| Renderer.DrawingRemoval | script.js:169-176 | in draw or chat mode the drawing is mounted, a fence is preferred, and the whole match is removed from the text |
| Client.SystemPromptShape | script.js:230-236 | every prompt starts with the base prompt; other modes get only it; graph and draw prompts differ and ask for the ```` ```json ```` and ```` ```svg ```` blocks the renderer extracts |
| Client.UserContent | script.js:238-246 | a text part exactly when the prompt is non-empty, an image part exactly when an image is present, text first |
| Client.ComposeRequest | script.js:229-261 | the pushes build the request: system prompt, user content, model `qwen/qwen-vl-plus`, temperature 0.7 |
| Client.ReplyValue | script.js:270 | the answer throws only on `null`; when `choices[0].message.content` exists (array element or object property `"0"`) it is shown if truthy and replaced by "Нет ответа." otherwise; with no such path the answer is "Нет ответа." |
| Client.ReplyFallback | script.js:270 | each break of the path gives "Нет ответа.": an answer that is no object or has no `choices`; `choices` null, boolean, number or empty; a first choice without a `message` object; a message without `content` |
| Client.ShownText | script.js:264-270 | the text the bubble is rendered from for each outcome: the content string, "Ошибка: " and the status or exception message, or "Ошибка: " and the engine's message for the `null` answer or for a content that is not a string (the `catch` of script.js:105-109) |
| Client.SecondField | script.js:64 | `split(',')[1]` is undefined exactly when there is no comma; otherwise it is the text from just after the first comma up to the next comma or the end |
| Client.ChatClient.constructor | script.js:16-17 | chat mode, no image, empty conversation |
| Client.ChatClient.SelectMode | script.js:51-56 | only the mode changes |
| Client.ChatClient.LoadImage | script.js:63-67 | only the image changes, to the base64 field of the data URL |
| Client.ChatClient.ClearImage | script.js:74-78 | only the image changes, to none |
| Client.ChatClient.TurnBubbles | script.js:94-103 | a turn appends one bubble per present picture and per non-empty text, plus the waiting bubble: the picture first, the typed text (present exactly when non-empty) just before the waiting bubble, which is last |
| Client.ChatClient.SendMessage | script.js:89-106 | an empty turn changes nothing; otherwise the bubbles are appended, the text box emptied, the image cleared, and the request carries no image |
| Client.ChatClient.SendMessageKeepingImage | script.js:89-106 | as above, but the request carries the attached image |
| Client.ChatClient.ReceiveReply | script.js:105-109 | the waiting bubble becomes the answer rendered by `updateMessage` (script.js:136-138) in the mode current at that moment; a missing bubble is left alone |
| Client.ImageNeverSent | script.js:101-106 | as written, no request carries an image part, the sent request differs from the one with the attached picture, and a picture-only turn sends an empty user message |
| Client.ImageSentWhenAttached | script.js:101-106 | when the image is read before clearing, the request carries it exactly when attached |

## Left out

- netlify/functions/proxy.js is not part of this model: it forwards the request over HTTP.
- The DOM is not modelled (element creation, `innerHTML`, `textContent`, scrolling, the modal, the sidebar and the navigation highlight). Bubbles and their children are values.
- `Plotly.newPlot` and `MathJax.typesetPromise` are foreign libraries. The model assumes `Plotly.newPlot` does not throw synchronously; if it did, the chart block would stay in the text.
- `MathJax.typesetPromise` is assumed callable whenever `window.MathJax` exists (script.js:221-222). If it were not, the synchronous `TypeError` would reach the `catch` of script.js:108-109 and the answer would be replaced by the error text; the model has no such path.
- ShownText: the engine's wording of a `TypeError` is not modelled; the two messages that can occur are parameters.
- `fetch`, `response.text()` and `response.json()` are network I/O. Their result is the `Outcome` parameter.
- `FileReader` is left out. `LoadImage` receives the data URL it produces.
- `Date.now()` loading ids are left out. An answer is addressed by the index of its waiting bubble, so two turns started in the same millisecond do not collide as they can in the source.
- Overlapping turns are not modelled as concurrent. `ReceiveReply` may still run after other state changes, and it uses the mode current at that moment.
- `JSON.parse` is an oracle; the JSON grammar is not modelled.
- Strings are sequences of code points, not UTF-16 code units. `.` in `/\$(.*?)\$/` and the `\s` class are taken per code point.
- Json.Field: property reads of `"data"`, `"layout"`, `"choices"`, `"message"` and `"content"` on strings and arrays are `undefined`. The model relies on these names not being built-in properties; it does not model reads of other names.

## Findings

| source | as written | input that shows it | evidently intended | confidence | as-written member | corrected member |
|---|---|---|---|---|---|---|
| script.js:101-106 | `sendMessage` calls `clearImage()` before `callQwen(text, currentImageBase64)`, so the second argument is always `null` | attach a picture, type nothing, send: the picture bubble is shown but the request's user content is `[]` | the attached picture is sent with the turn | high; not executed | Client.ChatClient.SendMessage, Client.ImageNeverSent | Client.ChatClient.SendMessageKeepingImage, Client.ImageSentWhenAttached |
