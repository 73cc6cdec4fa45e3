# api-tester-desk in Dafny

A model of the two parts of the desktop API tester that hold its logic:

- **The store** (`storage.js`, module `Store`): the request history (newest first, at most
  50 entries kept by one add), the named environments of `{{variable}}` values, the saved
  collections, and the colour theme. Each is an in-memory field of the class
  `Store.Storage`, and every change writes the whole document back to `localStorage`,
  modelled by a `saved*` field beside it.
- **The renderer's request/response logic** (`renderer.js`): the text helpers
  `formatSize`, `escapeHtml`, `formatJSON` and `formatXML` (module `Format`, with `Html`
  for escaping); `{{key}}` substitution from the active environment (`Substitution`);
  the header, body and environment-variable assembly of the form (`Request`); the curl,
  axios, fetch and Python code snippets (`Snippets`); and the submit handler, which sends
  the request, classifies the status, renders the body by content type, and records the
  exchange in the history (`Submit`).

JavaScript objects whose key order is visible (headers, environments, variables,
collection items, the options objects printed by `JSON.stringify`) are ordered lists of
entries, `JsObject.Object<V>`. Assignment `o[k] = v`, `delete o[k]` and the spread
`{...a, ...b}` are `Put`, `Remove` and `Spread`. The string operations the code chains
(`replace` with a global regex, `split`, `join`, `trim`, `toLowerCase`) are in `Text`.

Everything outside the program is a parameter:
- `fetch` is a function from the request to an optional response, where None means it rejected;
- `JSON.parse` and `JSON.stringify` are functions into `Option<Json>` and into strings;
- `Date.now()` and `toISOString()` are `now` and `iso`;
- the `textContent` of the rendered body is a function of its markup;
- the answers to `prompt` are a list of (name, value) pairs.

## Model

| member | source | states |
|---|---|---|
| Store.Storage.constructor | storage.js:2-7 | The history, environments and collections are the stored documents, or empty when absent. The theme is the stored one, or "light" when it is absent or empty. Nothing is written back. |
| Store.InitialTheme | storage.js:6 | A stored non-empty theme is used as it is; an absent or empty one gives "light". |
| Store.ThemeReload | storage.js:6 | A theme written by `setTheme` reads back on the next start, unless it is empty, which falls back to "light". |
| Store.Pushed | storage.js:20-21 | The new item is at index 0 and the old items follow in their old order. The length grows by one below 50 and stays the same otherwise. |
| Store.PushedBound | storage.js:20-21 | A history of at most 50 stays at most 50. Below 50 nothing is dropped; at 50 exactly the oldest entry is dropped. |
| Store.PushedOverLimit | storage.js:20-21 | A longer loaded history is not trimmed to 50: one add drops exactly one entry and the length stays the same. |
| Store.PushedNewestFirst | storage.js:12-20 | If the ids are strictly decreasing and the new id is larger than all of them, the history stays strictly newest first and its ids stay distinct. |
| Store.SameClockSameId | storage.js:12 | Two adds at the same clock reading give two entries with the same id: ids are not unique. |
| Store.Storage.AddToHistory | storage.js:10-24 | Returns the stored item: id and timestamp from the clock, the other fields copied from the argument. The history becomes `Pushed(old history, item)` and is saved. No other field changes. |
| Store.Storage.GetHistory | storage.js:26-28 | Returns the history. |
| Store.Storage.ClearHistory | storage.js:30-33 | The history and its saved copy are empty. Environments, collections and theme are untouched. |
| Store.EnvironmentOf | storage.js:45-47 | A present name gives its variables; an absent name gives the empty object. |
| Store.EnvironmentAfterAdd | storage.js:40-47 | After adding `name`, reading `name` gives the new variables, overwriting any earlier ones. Every other name reads as before. |
| Store.EnvironmentAfterDelete | storage.js:45-56 | After deleting `name`, it reads as empty and every other name reads as before. |
| Store.Storage.AddEnvironment | storage.js:40-43 | The table becomes `Put(old, name, variables)` and is saved. The keys stay unique. |
| Store.Storage.GetEnvironment | storage.js:45-47 | Returns `EnvironmentOf(environments, name)`. |
| Store.Storage.GetAllEnvironments | storage.js:49-51 | Returns the whole table. |
| Store.Storage.DeleteEnvironment | storage.js:53-56 | The table becomes `Remove(old, name)`, which is the same table when the name is absent. It is saved either way. |
| Store.NewCollection | storage.js:64-67 | The new item starts with the key "id" and has exactly "id" plus the collection's keys, each once. |
| Store.NewCollectionFields | storage.js:64-67 | The id is the clock reading unless the collection carries its own `id`, which wins. Every other field is the collection's. |
| Store.Storage.AddCollection | storage.js:63-71 | The new item is appended at the end, not prepended, and returned. The list is saved. |
| Store.Storage.GetCollections | storage.js:73-75 | Returns the list. |
| Store.FirstWithId | storage.js:78 | The first index whose `id` field equals the given id, or None when no item has it. |
| Store.Storage.UpdateCollection | storage.js:77-85 | Without a match it returns None and neither the list nor its saved copy changes. Otherwise only the first match is replaced by the shallow merge `{...item, ...updates}`, which is returned. The order and all other items are unchanged, and the list is saved. |
| Store.WithoutId | storage.js:88 | The kept items are exactly those without the id; the list never grows. |
| Store.WithoutIdAppend | storage.js:88 | Filtering distributes over concatenation, so the relative order of the kept items is preserved. |
| Store.WithoutIdNoMatch | storage.js:88 | With no match the list is unchanged; filtering twice equals filtering once. |
| Store.WithoutIdNoMatchAll | storage.js:88 | A list without the id comes back unchanged. |
| Store.Storage.DeleteCollection | storage.js:87-90 | Every item with the id is removed, the rest keep their order, and the list is saved even when nothing was removed. |
| Store.Storage.GetTheme | storage.js:97-99 | Returns the theme. |
| Store.Storage.SetTheme | storage.js:101-104 | The theme and its saved copy are the new value. |
| JsObject.Get | renderer.js:278 | A key is found exactly when it is among the keys, and the value found is that key's entry. |
| JsObject.Put | storage.js:41 | `o[k] = v`: reading `k` gives `v` and every other key is unchanged. A new key goes last; an existing key keeps its place. Unique keys stay unique. |
| JsObject.Remove | storage.js:54 | `delete o[k]`: `k` is gone, every other key is unchanged, and an absent key changes nothing. |
| JsObject.RemoveEntry | storage.js:54 | Removing the key of entry `i` deletes exactly that entry. |
| JsObject.Spread | storage.js:80 | `{...o, ...u}`: a key of `u` reads as its last value in `u`, and any other key as in `o`. The keys are those of both, and `o`'s keys keep their places. |
| JsObject.LastGetUnique | storage.js:80 | With unique keys, "last value" and "the value" agree. |
| Text.ReplaceChar | renderer.js:17-21 | `replace(/c/g, rep)`: when `rep` has no `c`, the result has none. |
| Text.ReplaceCharAppend | renderer.js:17-21 | Replacing a character distributes over concatenation. |
| Text.SplitStr | renderer.js:27 | `split` always gives at least one piece. |
| Text.JoinSplit | renderer.js:27-29 | Joining the pieces of a split with the same separator gives back the string. |
| Text.SplitCharPieces | renderer.js:27 | No piece of a split on a character contains that character. |
| Text.SplitJoin | renderer.js:27-29 | Splitting the join of pieces free of the separator gives back the pieces. |
| Text.TrimStart | renderer.js:38 | Only leading white space is removed, and the result does not start with white space. |
| Text.TrimEnd | renderer.js:38 | Only trailing white space is removed, and the result does not end with white space. |
| Text.Trim | renderer.js:38 | The result is the input with white space removed on both sides and nowhere else: a middle slice with only white space before and after it. It neither starts nor ends with white space. |
| Text.ToLower | renderer.js:503 | The same length, with each character lowered on its own. |
| Text.NatToString | renderer.js:396 | Decimal digits with no leading zero. |
| Text.ParseNatToString | renderer.js:396 | Reading the decimal text back gives the number. |
| Html.EscapeHtml | renderer.js:15-22 | `escapeHtml`, the chain of five replaces. EscapeHtmlPerChar equates it with a per-character escape, UnescapeEscape inverts it, and EscapeHtmlSafe shows it leaves no markup. |
| Html.EscapeHtmlPerChar | renderer.js:15-22 | Because `&` is replaced first, the five replaces equal one per-character mapping. |
| Html.UnescapeEscape | renderer.js:15-22 | Unescaping the escaped text gives back the input. |
| Html.EscapeHtmlSafe | renderer.js:15-22 | The output has no `<`, `>`, `"` or `'`. It has a line break exactly when the input does. Every `&` in it starts one of the five entities. |
| Html.ReplaceCharAbsent | renderer.js:17-21 | Replacing a character that does not occur changes nothing. |
| Html.ReplaceFromAppend | renderer.js:17-21 | The chain of replaces distributes over concatenation. |
| Html.ReplaceFromOne | renderer.js:17-21 | On one character, the chain of replaces gives that character's entity. |
| Html.UnescapeEach | renderer.js:15-22 | Unescaping undoes the per-character mapping. |
| Html.EscapeEachEntities | renderer.js:15-22 | Every `&` of the per-character mapping starts an entity. |
| Format.Pow1024 | renderer.js:8-11 | The divisor after `k` steps is positive. |
| Format.UnitIndex | renderer.js:8-11 | The unit is the largest of B, KB, MB, GB whose power of 1024 the size reaches. |
| Format.RoundHalfUp | renderer.js:12 | `toFixed` rounding: the result is within half a unit of the exact quotient, with halves rounded up. |
| Format.OneDecimalTenths | renderer.js:12 | The one-decimal text is digits, a point and one digit, and reads back as the same number of tenths. |
| Format.FormatSize | renderer.js:4-13 | The loop's label is `SizeText(bytes)`. |
| Format.SizeText | renderer.js:4-13 | The label `formatSize` returns, as a value. SizeTextMeaning states its unit and rounding, and the examples fix three labels. |
| Format.SizeTextMeaning | renderer.js:4-13 | The label is a one-decimal number, a space and the unit `UnitIndex` picks. The number is within half a tenth of `bytes / 1024^k`. |
| Format.SizeTextKilobytes | renderer.js:4-13 | 1536 bytes read "1.5 KB". |
| Format.SizeTextBytes | renderer.js:4-13 | 500 bytes read "500.0 B". |
| Format.SizeTextRoundsUp | renderer.js:4-13 | 1048575 bytes read "1024.0 KB": the unit is chosen before rounding. |
| Format.StripNumberLines | renderer.js:28 | Removing the line-number spans gives back the lines. |
| Format.NumberLinesNoBreak | renderer.js:28 | Numbering adds no line break. |
| Format.FormatJson | renderer.js:24-30 | `formatJSON`: the printed JSON, escaped, one numbered line per line. FormatJsonLines and FormatJsonRoundTrip specify it. |
| Format.FormatJsonLines | renderer.js:24-30 | The lines of `formatJSON` are the escaped JSON lines numbered 1, 2, …. |
| Format.FormatJsonRoundTrip | renderer.js:24-30 | Dropping the numbers and unescaping gives back the JSON text. |
| Format.FormatXml | renderer.js:32-42 | `formatXML`: the tag-separated pieces, filtered, trimmed, escaped and numbered. FormatXmlNumbered, the XmlLines lemmas and XmlSegments specify it. |
| Format.FormatXmlNumbered | renderer.js:32-42 | When the lines have no break of their own, the lines of `formatXML` are the kept pieces numbered 1, 2, …. |
| Format.XmlLinesFromPieces | renderer.js:38-39 | Every emitted line is a non-blank piece, trimmed and escaped. There are never more lines than pieces. |
| Format.XmlLinesEmpty | renderer.js:38 | No line is emitted exactly when every piece is blank. |
| Format.XmlLinesAppend | renderer.js:38-39 | The lines keep the order of the pieces: the lines of two runs of pieces are the first run's lines followed by the second's. |
| Format.XmlLinesOne | renderer.js:38-39 | One piece gives its trimmed, escaped text when it is not blank, and nothing otherwise. With XmlLinesAppend this fixes the lines exactly. |
| Format.Segments | renderer.js:33-37 | The cut of a text before each `<` and after each `>` has at least one piece. |
| Format.SegmentsConcat | renderer.js:33-37 | The pieces concatenate back to the text. |
| Format.SegmentsShape | renderer.js:33-37 | In every piece `<` can only be first and `>` only last. The first piece has no `<`. |
| Format.XmlSegments | renderer.js:33-37 | For XML without a literal `&newline;`, the replace/collapse/split chain gives exactly those pieces. So the pieces concatenate back to the input and each is tag-shaped. |
| Format.CollapsedMarks | renderer.js:34-36 | Marking both sides of every tag and collapsing doubled markers leaves one marker between adjacent tags. |
| Format.SplitCollapsed | renderer.js:36-37 | Splitting the collapsed text on the marker gives the pieces. |
| Format.MarkedStart | renderer.js:34-35 | A marked text starts with a marker exactly when the input starts with `<`. |
| Format.CollapsedStart | renderer.js:34-36 | After collapsing, the text starts with a marker exactly when the input starts with `<`. |
| Format.ClassifyStatus | renderer.js:391-394 | 5xx from 500 up, 4xx from 400, 3xx from 300, and 2xx for everything lower, including 1xx. |
| Format.ClassifyHistoryStatus | renderer.js:157 | A history entry with no response classifies as 2xx; otherwise as its status. |
| Format.RenderBody | renderer.js:445-462 | Content types are tested as substrings in the order json, html, xml. JSON that does not parse falls back to the text view. The JSON view is `formatJSON` of the printed value, and the XML view is `formatXML`. The HTML and text views are the escaped body: they hold no `<` or `>` and unescape to the body. |
| Substitution.KeyRun | renderer.js:277 | The longest run of non-`}` characters, stopping at a `}` if there is one. |
| Substitution.PlaceholderAt | renderer.js:277 | Answers the length n exactly when the first n characters are "{{", a non-empty key without `}`, and "}}". At most one length matches, and None means no prefix does. |
| Substitution.ReplaceEnvironmentVariables | renderer.js:271-280 | With no active environment the text is returned as it is. Otherwise the placeholders are substituted from the active environment. |
| Substitution.Substitute | renderer.js:276-279 | The global replace. SubstituteSkip, SubstitutePrefix, SubstituteInText and SubstitutePlaceholder specify what happens at every position, and SubstituteNothingDefined and SubstituteLiteral cover the cases where nothing changes. |
| Substitution.PlaceholderOf | renderer.js:277 | `{{key}}`, where the key is non-empty and has no `}`, is matched with exactly that key; it may contain `{`. |
| Substitution.KeyRunPrefix | renderer.js:277 | The key run stops exactly at the first `}`. |
| Substitution.SubstitutePlaceholder | renderer.js:276-279 | A placeholder becomes the variable's value when it is defined and non-empty, and stays as it is otherwise. The value is not rescanned. |
| Substitution.SubstituteSkip | renderer.js:276-279 | Where no placeholder starts, the character is copied and the scan moves on by one. |
| Substitution.SubstitutePrefix | renderer.js:276-279 | Text in which no placeholder starts is copied as it is, and the scan resumes after it. |
| Substitution.SubstituteInText | renderer.js:276-279 | A placeholder anywhere after such text, as in `https://{{host}}/x`, is replaced by its value when that is defined and non-empty, and kept otherwise. The text before it is copied and the scan goes on after it. |
| Substitution.SubstituteExample | renderer.js:276-279 | `"a{{k}}"` with `k` set to `"v"` gives `"av"`. |
| Substitution.SubstituteNothingDefined | renderer.js:278 | When no variable has a non-empty value, nothing changes. |
| Substitution.SubstituteEmptyEnvironment | renderer.js:275-278 | An environment name that does not exist changes nothing. |
| Substitution.SubstituteLiteral | renderer.js:276-279 | Text without `{{` is returned unchanged. |
| Request.Assigned | renderer.js:288-295 | The assignments made by the loop, never more than the rows. |
| Request.AssignedKeys | renderer.js:288-295 | A key is assigned exactly when some row with that key passes the filter. |
| Request.AssignedLastWins | renderer.js:288-295 | The last passing row for a key gives its value. |
| Request.Fold | renderer.js:288-295 | The object the assignments build has unique keys, and each key holds its last assigned value. |
| Request.FoldKeysStay | renderer.js:288-295 | A key, once present, stays present. |
| Request.AssignedPrefix | renderer.js:288-295 | The assignments of the first rows are a prefix of all the assignments. |
| Request.CollectHeaders | renderer.js:288-295 | The `forEach` builds `Headers(rows, …)`. |
| Request.Headers | renderer.js:288-295 | The headers object the rows fold into. HeadersMeaning and HeadersLastRowWins specify it. |
| Request.HeadersMeaning | renderer.js:288-295 | The keys are unique and are exactly the non-empty row keys, which are not substituted. |
| Request.HeadersLastRowWins | renderer.js:288-295 | The last row for a key gives its value, after substitution. |
| Request.CollectVariables | renderer.js:249-256 | The prompt loop builds the fold of the answers. |
| Request.VariablesMeaning | renderer.js:249-256 | A variable is defined exactly when some answer gives it a non-empty name and a non-empty value. |
| Request.VariablesLastAnswerWins | renderer.js:249-256 | The last such answer gives the value. |
| Request.AddEnvironmentFromPrompts | renderer.js:245-259 | An empty name changes nothing. Otherwise the environment is stored under the name, overwriting an older one, and saved. |
| Request.PrepareBody | renderer.js:306-317 | GET or an empty text means no body. Otherwise the substituted text is parsed; when the parse fails the submission aborts, and when it succeeds the parsed value is the body. |
| Snippets.CurlText | renderer.js:483-499 | The curl command. CurlBody, CurlOneLine and CurlExample specify it. |
| Snippets.CurlSnippet | renderer.js:483-499 | The `+=` loop builds `CurlText`: the command, one `-H` option per header in order, and `-d` with the raw body when one is sent. |
| Snippets.HeaderOptionsOneLine | renderer.js:487-490 | The header options add no line break: the backslash-newline is a line continuation. |
| Snippets.CurlOneLine | renderer.js:483-499 | The curl command is one line when its inputs are. |
| Snippets.CurlBody | renderer.js:493-496 | The `-d` option with the raw text closes the command exactly when a body is sent. |
| Snippets.CurlExample | renderer.js:483-499 | A one-header PUT reads `curl -X PUT "u"   -H "k: v"   -d 'b'`. |
| Snippets.HeadersJson | renderer.js:505 | The same keys in the same order, with string values. |
| Snippets.AxiosConfig | renderer.js:502-510 | The keys are method, url, headers, and `data` only when a body is sent. The method is lower case, the URL is the substituted one, the headers are the folded ones as strings, and the data is the raw text. |
| Snippets.FetchOptions | renderer.js:522-529 | The keys are method, headers, and `body` only when a body is sent. The method is kept as selected, the headers are the folded ones as strings, and the body is the raw text. |
| Snippets.AxiosSnippet | renderer.js:501-519 | The axios call around the printed AxiosConfig. |
| Snippets.FetchSnippet | renderer.js:521-539 | The fetch call on the substituted URL around the printed FetchOptions. |
| Snippets.PythonText | renderer.js:541-562 | The Python script. PythonShape specifies it. |
| Snippets.PythonSnippet | renderer.js:541-562 | The `+=` steps build `PythonText`. |
| Snippets.PythonShape | renderer.js:541-562 | The script opens with the import and, only when a body is sent, the `data` line. It closes with the arguments, where `json=data` appears only with a body, and the print. |
| Snippets.SnippetText | renderer.js:564-584 | The language switch. UpdateCodeSnippet computes it. |
| Snippets.UpdateCodeSnippet | renderer.js:564-584 | The snippet of the selected language; an unknown language gives the empty string. |
| Submit.Utf8Width | renderer.js:440 | One to four bytes, and one exactly for ASCII. |
| Submit.Utf8Size | renderer.js:440 | The blob size lies between one and four bytes per character. |
| Submit.Utf8SizeAscii | renderer.js:440 | ASCII text takes one byte per character. |
| Submit.SentRequest | renderer.js:288-317 | A request is sent exactly when the body does not abort. It carries the selected method, the substituted URL and the folded headers. It has a body exactly when `HasBody` holds, and that body is the value parsed from the substituted body text. |
| Submit.Outcome | renderer.js:284-617 | What one submission does. CompletedWhen, InvalidBodySendsNothing, OneRequestSent and HistoryRecord specify it. |
| Submit.Completion | renderer.js:389-612 | The display and the history item of a response that was read. HistoryRecord states the item. |
| Submit.SubmitForm | renderer.js:284-617 | The handler's outcome is `Outcome(...)`. Only a completed exchange changes the store: it pushes its record on the history and saves it. An abort or a failure leaves the store as it was. |
| Submit.ShowResponse | renderer.js:389-612 | Once a non-image response is in, the outcome is the status line, its colour class, the body markup and the snippet, together with the history item that `Completion` describes. That item is pushed on the history and saved. |
| Submit.InvalidBodySendsNothing | renderer.js:306-317 | A body that does not parse aborts the submission whatever `fetch` would do. |
| Submit.OneRequestSent | renderer.js:298-387 | The outcome depends on `fetch` only through its answer to the one request sent. |
| Submit.HistoryRecord | renderer.js:599-611 | The record has the clock's id and timestamp, the method, and the URL as typed, not substituted. It has the substituted headers, the parsed body when one is sent, and the response's status, text, headers and rendered text. |
| Submit.CompletedWhen | renderer.js:306-439 | A submission completes exactly when the body does not abort, `fetch` answers, and the answer is not an image. |

## Left out

- The DOM: element lookups, `innerHTML`, list rendering of history and environments, header rows, event wiring, theme toggling, the copy buttons with the clipboard and `setTimeout`, and the response-header list and "Format Headers" button. Header rows are abstract (key, value) pairs. So the rows' `input:nth-child(2)` selector, which in the markup `addHeaderRow` builds matches no value input, is not modelled.
- `main.js`: the Electron window and app lifecycle.
- The `PerformanceObserver` timing bars: floating-point durations drawn on screen.
- The image preview. An `image/` response is read with `blob()`, so the later `text()` on the consumed body rejects and the handler ends in its error branch. The model returns `RequestFailed` for it without modelling the preview.
- `fetch`, `JSON.parse`, `JSON.stringify`, `textContent`, the clock, `prompt` and `confirm` are parameters (see above). JSON numbers are integers.
- `localStorage` serialisation: the saved copy is the value itself, not its JSON text. A stored document is assumed well-formed.
- Aliasing: the getters return the live arrays and objects in JavaScript; here they return values.
- `===` on collection ids compares `Json` values structurally. Object ids compared by reference and ids that are `undefined` are not distinguished.
- Prototype keys (`variables["constructor"]`) and the reordering of integer-like keys in JavaScript objects.
- Text.ToLower: only ASCII letters are lowered; `toLowerCase` on other scripts is not modelled.
- Format.FormatSize: exact for sizes below 2^53 bytes, where the JavaScript number holding the size is exact; larger sizes are not modelled as floating point.
- Format.XmlSegments: the segmentation lemmas assume the XML has no literal `&newline;`, since such text is cut by the marker.
- Submit.Utf8Size: Dafny characters are Unicode scalar values, so a lone surrogate, which a blob encodes as three bytes, is not represented.
- The wire form of the request body: `options.body` is the parsed value itself, not JSON text. So the platform's `fetch` would send an object body as the text `[object Object]`. The `fetch` parameter receives the parsed `Json` value, and this conversion is not modelled.
- Overlapping submissions: the handler is modelled as running to completion on its own.
