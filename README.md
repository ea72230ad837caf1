# Kebab Compass: the scan controller and the reply extractor

Kebab Compass is a single-page web app. It reads the device's position and
compass heading, asks a generative-model service for the single best kebab or
shawarma place nearby, turns the free-text reply into at most one place, and
shows it with a map link. This project models the two pieces of logic in it
and proves their properties in Dafny:

- **The reply extractor** (`findKebabs` in `services/geminiService.ts`). It
  checks that an API key is present. It joins the first candidate's part texts
  and takes its grounding chunks. It reads four fields with
  `/Label:\s*(.+)/i`. It reconciles the name with the map grounding. Then it
  emits a place with id `target-1` unless the final name is `"Unknown Kebab"`.
  When no grounding URI was found, the link is a map search built with
  `encodeURIComponent`.
- **The scan lifecycle** (the `App` component in `App.tsx`). Five state cells
  (`appState`, `coords`, `target`, `errorMsg`, `heading`) are changed by the
  geolocation callbacks, the orientation handler, `handleSearch`, `reset` and
  the page's buttons.

Modules, one per concern:

| file | module | models |
|---|---|---|
| `wrappers.dfy` | `Wrappers` | `undefined`/`null` as `Option`, thrown errors as `Result` |
| `types.dfy` | `Types` | the records and the `AppState` enumeration of `types.ts` |
| `js_text.dfy` | `JsText` | `\s` and `.` character classes, `trim`, ASCII case mapping, `includes` |
| `label_pattern.dfy` | `LabelPattern` | the pattern shape `/Key\s*(.+)/i` under `String.prototype.match` |
| `uri_encoding.dfy` | `UriEncoding` | `encodeURIComponent` (ECMA-262 section 19.2.6), with a reference decoder |
| `gemini_service.dfy` | `GeminiService` | `findKebabs`: key guard, reply text and chunks, fields, reconciliation, gate |
| `gemini_cases.dfy` | `GeminiCases` | concrete replies that pin down the extractor's edge cases |
| `app.dfy` | `App` | the `App` class: state cells, one method per event, the invariant `Valid()` |

The extractor is pure code, so it is modelled as functions and lemmas. The
component works by calling state setters from callbacks. It is modelled as a
class whose methods assign its fields. Its `await` splits `handleSearch` in
two: `BeginSearch` runs up to the query, and `SearchResolved`/`SearchFailed`
(dispatched by `SearchCompleted`) run after it. Two ghost flags,
`locatePending` and `queryPending`, record the requests in flight. A
callback method requires its flag, because the browser and the promise only
deliver a callback for a request that was made. `Valid()` states these facts,
and every event method proves that it keeps them:

- each flag is set exactly while LOCATING or SEARCHING shows;
- a place is held exactly in RESULTS;
- SEARCHING and RESULTS always have a fix and no message;
- ERROR always has a message.

No stale-response guard is added. The controls that could start a second
search or reset mid-scan are disabled or hidden, and the proofs of
`HeaderPress`, `ScanPress` and `RetryPress` show that they never call
`BeginSearch` or `Reset` while a query is in flight.

`App.Session` is a usage scenario, not a model of any one callback. It
drives one session through the methods' contracts alone: locate, scan, show
a place, press the header button to reset, scan again, and fail.

Behaviour kept exactly as the code has it:

- Reconciliation runs even when no `Name:` was found. The placeholder
  `"Unknown Kebab"` is itself matched against chunk titles, so a map chunk
  titled "Kebab" yields a place with no `Name:` line (`PlaceholderRenamed`,
  `GeminiCases.PlaceholderMeetsKebabTitle`).
- The field patterns are not anchored to the start of a line. They match at
  the first case-insensitive occurrence anywhere, and `\s*` may cross line
  ends.
- The synthesized link uses the untrimmed address capture.
- A late reply is not guarded against.
- A reset without a fix reloads the page. `Reload` models that: the cells go
  back to their initial values and the mount effect runs again.

## Model

| member | source | states |
|---|---|---|
| `JsText.LeadingSpaces` | services/geminiService.ts:52 | the leading white-space run that `trim` drops ends at the first non-space character |
| `JsText.TrailingStart` | services/geminiService.ts:52 | the trailing white-space run that `trim` drops starts after the last non-space character |
| `JsText.TrimSlice` | services/geminiService.ts:78-80 | `trim` keeps a middle slice; what it drops is white space; what it keeps neither starts nor ends with white space |
| `JsText.TrimUnique` | services/geminiService.ts:78-80 | for any split of a string into white space, a core, and white space, `trim` returns exactly that core |
| `JsText.Trim` | services/geminiService.ts:78-80 | `trim` never lengthens a string, its result neither starts nor ends with white space, and a string without white space at either end is returned unchanged |
| `JsText.TrimIdempotent` | services/geminiService.ts:52 | trimming a trimmed field changes nothing |
| `JsText.Lower` | services/geminiService.ts:58 | `toLowerCase` keeps the length and lowers each ASCII letter in place |
| `JsText.LowerKeepsOccurrence` | services/geminiService.ts:58 | an exact occurrence of the title in the name survives lower-casing both |
| `JsText.Includes` | services/geminiService.ts:58 | `includes` is true exactly when the needle occurs at some index of the haystack |
| `LabelPattern.SkipSpaces` | services/geminiService.ts:46-49 | greedy `\s*` runs to the first non-white-space character or the end |
| `LabelPattern.LineEnd` | services/geminiService.ts:46-49 | greedy `.+` runs to the first line terminator or the end |
| `LabelPattern.LastLineChar` | services/geminiService.ts:46-49 | when `\s*` reached the end, backtracking stops at the last position `.` accepts |
| `LabelPattern.MatchAt` | services/geminiService.ts:46-49 | no key at the position means no match; a match found there starts with the key, and its capture is non-empty, lies after the key and crosses no line end |
| `LabelPattern.MatchAtGreedy` | services/geminiService.ts:46-49 | at a given position, the computed match is a match, it is the greedy one, and it is absent only when no match exists there |
| `LabelPattern.FirstMatch` | services/geminiService.ts:46-49 | `match` returns the match at the leftmost position where the pattern matches, and no match exists anywhere when it returns none |
| `LabelPattern.Capture` | services/geminiService.ts:46-49 | `match(...)[1]` exists exactly when the pattern matches somewhere in the text |
| `UriEncoding.Utf8` | services/geminiService.ts:81 | each character encodes to one to four octets |
| `UriEncoding.Escape` | services/geminiService.ts:81 | the escaped text is three characters per octet; `EscapeAlphabet` bounds its characters and `ReadEscaped` proves they read back as the octets |
| `UriEncoding.EncodeChar` | services/geminiService.ts:81 | an unreserved character stays as it is; any other becomes 3 to 12 characters starting with `%`; either way only unreserved characters and `%` appear; `DecodeEncodedChar` proves the encoding decodes back to the character |
| `UriEncoding.EncodeURIComponent` | services/geminiService.ts:81 | the encoded query holds only unreserved characters and `%`, and is at least as long as its input |
| `UriEncoding.EscapeAlphabet` | services/geminiService.ts:81 | an escaped octet sequence holds only `%` and unreserved characters (its hexadecimal digits) |
| `UriEncoding.HexValue` | services/geminiService.ts:81 | a hexadecimal digit's value is below 16 |
| `UriEncoding.ReadEscapes` | services/geminiService.ts:81 | reading n escapes yields n octets from the first 3n characters |
| `UriEncoding.HexRoundTrip` | services/geminiService.ts:81 | each escape's two digits read back as the octet's high and low halves |
| `UriEncoding.ReadEscaped` | services/geminiService.ts:81 | reading k escapes back from escaped octets gives their first k octets |
| `UriEncoding.DivSplit` | services/geminiService.ts:81 | the 6-bit groups of a code point recombine into it |
| `UriEncoding.Utf8RoundTrip` | services/geminiService.ts:81 | UTF-8 decoding inverts the encoding of every character, and the leading octet announces the length |
| `UriEncoding.DecodeEncodedChar` | services/geminiService.ts:81 | one encoded character followed by encoded text decodes to that character followed by the text |
| `UriEncoding.DecodeEncode` | services/geminiService.ts:81 | `decodeURIComponent(encodeURIComponent(s)) == s` for every string |
| `GeminiService.FirstCandidate` | services/geminiService.ts:39 | `candidates?.[0]` is present exactly when there is a non-empty candidate list, and is then its first element |
| `GeminiService.JoinTexts` | services/geminiService.ts:40 | one part gives its text, a missing text counting as `""`; parts whose texts are all missing or empty give `""` |
| `GeminiService.JoinTextsAppend` | services/geminiService.ts:40 | `join('')` concatenates the parts' texts in order, with nothing between them |
| `GeminiService.ResponseText` | services/geminiService.ts:39-40 | the text is `""` without a candidate, or when the candidate has no content or no parts (the empty-string fallback); otherwise it is the first candidate's joined part texts |
| `GeminiService.ResponseChunks` | services/geminiService.ts:39-41 | chunks are absent without a candidate or without grounding metadata; when the first candidate has metadata, its chunk list is returned as it is |
| `GeminiService.TrimmedOr` | services/geminiService.ts:78-80 | a missing capture gives the fallback; a present one gives a value no longer than the capture that neither starts nor ends with white space |
| `GeminiService.FieldValue` | services/geminiService.ts:46-52 | a field is the trimmed rest of the line after the first case-insensitive key and any white space, or the fallback when the key never matches |
| `GeminiService.InitialName` | services/geminiService.ts:52 | with no `Name:` match the name is `"Unknown Kebab"`; with one it is the trimmed capture of the leftmost match, and so has no white space at either end (`FieldValue` gives that match its greedy meaning) |
| `GeminiService.TitleMatches` | services/geminiService.ts:57-59 | a chunk passes the `find` test only when it has map data whose title is non-empty and no longer than the name |
| `GeminiService.LongerTitleNeverMatches` | services/geminiService.ts:57-59 | containment runs name-contains-title only: a title longer than the name never matches |
| `GeminiService.ContainedTitleMatches` | services/geminiService.ts:57-59 | a non-empty map title that occurs in the name matches |
| `GeminiService.FindTitleMatch` | services/geminiService.ts:57-59 | `find` returns the first chunk whose non-empty map title occurs, lower-cased, in the lower-cased name, or none when no chunk does |
| `GeminiService.FindMapChunk` | services/geminiService.ts:67 | `find(c => c.maps)` returns the first chunk with map data, or none when no chunk has any |
| `GeminiService.Reconcile` | services/geminiService.ts:55-72 | the name changes only to the title of a chunk that passes the title test; a non-empty URI is always the URI of some chunk with map data |
| `GeminiService.TitleMatchAdopted` | services/geminiService.ts:55-63 | the first title-matching chunk supplies both the URI and the name |
| `GeminiService.FirstMapFallback` | services/geminiService.ts:64-71 | with no title match, the first map chunk supplies the URI and the name is kept |
| `GeminiService.NoMapData` | services/geminiService.ts:51-72 | without map data, the name is kept and the URI stays empty |
| `GeminiService.MapChunks` | services/geminiService.ts:57-67 | a chunk is kept exactly when it is in the input and has map data |
| `GeminiService.MapChunksAppend` | services/geminiService.ts:57-67 | filtering keeps the order: the map chunks of `a + b` are those of `a` followed by those of `b` |
| `GeminiService.TitleMatchIgnoresWebOnly` | services/geminiService.ts:57-59 | the title search finds the same map data with or without the web-only chunks |
| `GeminiService.FirstMapIgnoresWebOnly` | services/geminiService.ts:67 | the first-map search finds the same map data with or without the web-only chunks |
| `GeminiService.WebOnlyChunksIgnored` | services/geminiService.ts:55-72 | chunks with only `web` data never change the reconciled name or URI |
| `GeminiService.SearchLink` | services/geminiService.ts:81 | the link starts with the map-search prefix, and its query decodes back to exactly `name + ' ' + address` |
| `GeminiService.ExtractPlaces` | services/geminiService.ts:43-85 | at most one place; a place is emitted iff the final name after reconciliation is not `"Unknown Kebab"`; it has id `target-1`, the final name, a non-empty URI and no rating |
| `GeminiService.PlaceFields` | services/geminiService.ts:78-80 | address, distance and description are the trimmed captures, or `""`, `"N/A"` and `"Highly recommended."` |
| `GeminiService.NoNameNoPlace` | services/geminiService.ts:52-74 | with no `Name:` match and no map title occurring in "unknown kebab", nothing is emitted |
| `GeminiService.PlaceholderRenamed` | services/geminiService.ts:52-74 | with no `Name:` match, the first map title occurring in "unknown kebab" renames the placeholder, and the place is emitted unless that title is exactly "Unknown Kebab" |
| `GeminiService.PlaceUri` | services/geminiService.ts:81 | a non-empty grounded URI is used as it is; otherwise the map-search link of the final name and the untrimmed address capture, whose query decodes back to that text |
| `GeminiService.ExtractIgnoresWebOnly` | services/geminiService.ts:55-83 | web-only chunks never change the extracted place |
| `GeminiService.HasApiKey` | services/geminiService.ts:7 | `!apiKey` is true for a missing key and for the empty string, and false for any non-empty key |
| `GeminiService.FindKebabs` | services/geminiService.ts:6-10 | a missing or empty API key fails with a configuration error whatever the service would reply; a failed request fails; a successful reply gives exactly the extractor's places for its text and chunks, at most one, with id `target-1` |
| `GeminiCases.TitleLongerThanNameDoesNotRename` | services/geminiService.ts:57-70 | name "Ali's Kebab" and title "Ali's Kebab House": no rename, and the first map URI is used |
| `GeminiCases.TitleInsideNameRenames` | services/geminiService.ts:57-63 | name "Ali's Kebab House" and title "Ali's Kebab": the title becomes the name |
| `GeminiCases.PlaceholderMeetsKebabTitle` | services/geminiService.ts:52-74 | an empty reply with a map chunk titled "Kebab" emits one place named "Kebab" |
| `GeminiCases.KeyOnItsOwnLine` | services/geminiService.ts:46 | `name:` in lower case followed by a line end and a tab captures the next line |
| `GeminiCases.AddressCaptureKeepsTrailingSpaces` | services/geminiService.ts:47 | the raw capture keeps trailing spaces that the address field trims |
| `App.LocationErrorMessage` | App.tsx:34-50 | code 1, 2 and 3 get "Access Denied…", "Position Unavailable…" and "Connection Timed Out…" whatever the platform message, none with the "GPS Error: " prefix; any other code gets exactly the platform message after that prefix |
| `App.App.constructor` | App.tsx:10-14 | the cells start as IDLE, no fix, no target, no message, heading 0 |
| `App.App.Init` | App.tsx:17-24 | without geolocation: ERROR with "Geolocation hardware not found."; otherwise LOCATING with a position request in flight |
| `App.App.LocSuccess` | App.tsx:26-32 | stores the fix and moves to IDLE; nothing else changes |
| `App.App.LocError` | App.tsx:34-54 | ERROR with the message for the error code |
| `App.App.HeadingUpdate` | App.tsx:63-67 | only the heading changes, in any state |
| `App.App.BeginSearch` | App.tsx:77-86 | without a fix: ERROR with "No GPS Fix. Cannot Scan." and no query; otherwise SEARCHING with target and message cleared and the query in flight |
| `App.App.SearchResolved` | App.tsx:94-99 | an empty list gives IDLE with the "Sector clear" message and no target; a non-empty one gives RESULTS holding its first place |
| `App.App.SearchFailed` | App.tsx:101-104 | any failure gives ERROR with "Comms Link Failed (API Error)." |
| `App.App.SearchCompleted` | App.tsx:88-105 | the query's outcome always settles the scan: the state is never left in SEARCHING |
| `App.App.Reload` | App.tsx:115 | the cells return to their initial values and the mount effect runs again |
| `App.App.Reset` | App.tsx:108-117 | with a fix: IDLE, target and message cleared, fix and heading kept; without one: reload, so no fix, no target, heading 0, and LOCATING with no message (or ERROR without geolocation) |
| `App.App.HeaderDisabled` | App.tsx:131 | when the header button is enabled in a valid state, no request is in flight and there is a fix or an error |
| `App.App.HeaderPress` | App.tsx:129-131 | disabled in SEARCHING and LOCATING, and without a fix outside ERROR, where a press changes nothing; reset in RESULTS; otherwise a search; the fix and the heading never change |
| `App.App.ScanPress` | App.tsx:161-164 | the IDLE view's button starts a search |
| `App.App.RetryPress` | App.tsx:172-179 | the ERROR view's button reloads: no fix, no target, heading 0, and LOCATING with no message (or ERROR without geolocation) |

## Left out

- The generative-model request (services/geminiService.ts:12-37) is not modelled. This covers the client, the model name, the prompt built from the coordinates, the tool configuration and the temperature. Its reply, or the error it threw, is an input of `FindKebabs`.
- Logging (`console.error`, `console.warn`) is not modelled: it changes no state that the model observes. The `catch` re-throws the same error; `FindKebabs` passes it on as `RequestFailed`.
- The 3-second delay (App.tsx:90) is not modelled. It only postpones the query.
- The heading formula (App.tsx:65) is floating-point arithmetic. `HeadingUpdate` takes the computed heading as its input.
- Registering and removing the orientation listener (App.tsx:69-74) and the `navigator.geolocation` call with its options (App.tsx:57-61) are not modelled. Only the callback bodies are.
- Rendering (App.tsx:119-197) is not modelled, except the header button's `disabled` rule and which view shows the scan and retry buttons. `components/` is not part of this model: it only draws.
- React's batching of state updates is not modelled. The setters in one callback run one after another, which gives the same final state.
- `JsText.Lower`: only ASCII letters are lowered. `toLowerCase` maps every Unicode letter, so a non-ASCII title that differs from the name only in letter case matches in the source but not in the model. Two proved facts hold only for this ASCII `Lower`:
  - `GeminiService.LongerTitleNeverMatches`: `"İ".toLowerCase()` is two code units long, so in the source the two-character title `"i̇"` matches the one-character name `"İ"`.
  - `JsText.LowerKeepsOccurrence`: Greek final sigma makes lower-casing depend on context, so in the source the title "ΑΣ" occurs in the name "ΑΣΑ" but no longer occurs once both are lower-cased.
- `LabelPattern.SameIgnoringCase`: this uses ASCII case folding. It is exact for the four ASCII keys, because the `i` flag without `u` never folds a non-ASCII character onto an ASCII one.
- Strings are sequences of Unicode scalar values. A lone UTF-16 surrogate, on which `encodeURIComponent` throws `URIError`, cannot occur in the model.
- Coordinates and the heading are `real` values. The model never computes with them.
- `App.App.Init`: this requires a component with no fix in IDLE or ERROR, as the mount effect always finds it. The effect runs once after mount; in the model it also runs from `Reload`.
