# Copilot chat export: a verified model

`extract-from-web-console.js` runs in the browser console of VS Code. It reads the
`vscode-userdata-store` of VS Code's IndexedDB and turns every stored Copilot chat session into
flat conversation records, `{key, content: {session, date, human, copilot}, type}`. It then
offers the records as a JSON download named after the export time.

This project models the deterministic core of that script. It also proves what the core
promises:

- the **key filter** picks the chat-session entries (`/chatSessions/…json`);
- the **cleaning transform** is applied to every message: two regular-expression passes, one
  removing the fence delimiters and one unwrapping the inline code spans;
- the **extraction loops** go over the decoded sessions and their requests, with the
  `try`/`catch` that ends a session when reading it throws;
- the **file name** is sanitised from the ISO timestamp.

Modules, one per file:

| file | module | models |
|---|---|---|
| `wrappers.dfy` | `Wrappers` | `Option` |
| `strings.dfy` | `Strings` | `includes`, `endsWith`, `join(' ')` and `trim` as explicit scans; the subsequence relation; `FlatMap`, the concatenation an appending loop builds |
| `decimal.dfy` | `Decimal` | the decimal text of `j + 1` in the labels, and its parse |
| `key_filter.dfy` | `KeyFilter` | the key filter |
| `cleaning.dfy` | `Cleaning` | the two `replace` passes as left-to-right recursive scans |
| `extraction.dfy` | `Extraction` | the decoded session as datatypes, the inner loop (`ReadRequest`, `ProcessSession`), and the concatenation of the sessions' records |
| `export.dfy` | `Export` | the whole run (`ExportChats`) and the file name |

The two loops are methods with `while` loops. Each is proved against a specification
function:

- `ProcessSession` returns exactly `SessionRecords(s)`. That function is a left fold `Run`
  over the per-request `Outcomes` of the session: `Emit` a record, `Skip`, or `Throw`.
- `ExportChats` returns exactly `ExportedRecords(allKeys, load)`, the `FlatMap` of the
  sessions' contributions.

The properties are proved as lemmas about those functions.

Two consequences of the cleaning regular expressions are easy to misread:

- **Fenced code is kept.** The fence pass deletes only the openers and closers
  (```` ``` ```` plus word characters plus an optional newline). The code between the fences
  stays, so `"Sure, ```js\ncode\n``` here you go"` cleans to `"Sure, code\n here you go"`
  (`Cleaning.ResponseFenceExample`, `Extraction.ExampleSession`). A pass that deleted whole
  fenced blocks would give `"Sure,  here you go"`.
- **Cleaning is not idempotent,** even on text it produced itself. ``` ``x`` ``` cleans to
  `` `x` ``, which cleans to `x` (`Cleaning.CleanNotIdempotent`). The fence pass alone is
  idempotent (`Cleaning.StripFencesIdempotent`).

## Model

| member | source | states |
|---|---|---|
| KeyFilter.FilterKeys | extract-from-web-console.js:22-24 | the kept keys are an order-preserving subsequence of the keys; each is a chat-session key; each chat-session key is kept exactly as many times as it occurs, and every other key is dropped |
| KeyFilter.FilterKeysMembership | extract-from-web-console.js:22-24 | a key survives exactly when it is one of the keys, `/chatSessions/` occurs in it, and it ends with `.json` |
| KeyFilter.IsChatSessionKey | extract-from-web-console.js:22-24 | the filter's predicate: the key includes `/chatSessions/` and ends with `.json` |
| Strings.Includes | extract-from-web-console.js:23 | `includes` as a scan over the start positions (see `Strings.IncludesSpec`) |
| Strings.EndsWith | extract-from-web-console.js:23 | `endsWith`: the suffix is no longer than the text and equals its last characters |
| Strings.IncludesSpec | extract-from-web-console.js:23 | the `includes` scan answers true exactly when the pattern occurs at some position |
| Cleaning.StripFences | extract-from-web-console.js:50 | the first `replace`, `/```[\w]*\n?/g` to `''`, as a leftmost-first scan: at three backticks it drops them, the longest run of word characters after them and one newline if there is one, and otherwise copies a character; never longer than its input (its properties are the lemmas below) |
| Cleaning.UnwrapInline | extract-from-web-console.js:50 | the second `replace`, `` /`([^`]+)`/g `` to `'$1'`, as a leftmost-first scan: at a backtick followed by a non-empty backtick-free text and a backtick it keeps the text, and otherwise copies a character; never longer than its input |
| Cleaning.Clean | extract-from-web-console.js:57 | the two passes in the order the script chains them, used for the user text and for every response value (its properties are the lemmas below) |
| Cleaning.StripFencesSubseq | extract-from-web-console.js:50 | the fence pass only deletes characters: its output is a subsequence of its input |
| Cleaning.UnwrapInlineSubseq | extract-from-web-console.js:50 | the inline-span pass only deletes characters |
| Cleaning.CleanSubseq | extract-from-web-console.js:50 | cleaning gives a subsequence of the text, never longer |
| Cleaning.CleanBacktickFree | extract-from-web-console.js:50 | a text without a backtick is returned unchanged |
| Cleaning.StripFencesFixed | extract-from-web-console.js:50 | the fence pass leaves a text with no run of three backticks unchanged |
| Cleaning.UnwrapInlineFixed | extract-from-web-console.js:50 | the span pass leaves a backtick-free text unchanged |
| Cleaning.StripFencesNoFence | extract-from-web-console.js:50 | after the leftmost-first global fence pass, no three consecutive backticks remain |
| Cleaning.UnwrapInlineKeepsNoFence | extract-from-web-console.js:50 | unwrapping spans never creates a run of three backticks |
| Cleaning.CleanNoFence | extract-from-web-console.js:50 | no run of three backticks remains after both passes |
| Cleaning.StripFencesIdempotent | extract-from-web-console.js:50 | running the fence pass twice gives the same text as running it once |
| Cleaning.CleanNotIdempotent | extract-from-web-console.js:50 | cleaning is not idempotent: ``` ``x`` ``` cleans to `` `x` ``, and that cleans to `x` |
| Cleaning.FencedBlockClean | extract-from-web-console.js:50 | for backtick-free `p`, `code` and `q` and a word `w` that `q` does not continue, a fenced block `p ```w\n code ``` q` cleans to `p code q'`, where `q'` is `q` without its first character if that is a newline: delimiters gone, code kept |
| Cleaning.InlineSpanClean | extract-from-web-console.js:50 | for backtick-free `p`, `q` and a non-empty backtick-free `x`, `` p`x`q `` cleans to `p x q` |
| Cleaning.FenceExample | extract-from-web-console.js:50 | `"a ```js\ncode\n``` b"` cleans to `"a code\n b"` |
| Cleaning.InlineExample | extract-from-web-console.js:50 | ``"Hello world, `please` help"`` cleans to `"Hello world, please help"` |
| Cleaning.ResponseFenceExample | extract-from-web-console.js:57 | `"Sure, ```js\ncode\n``` here you go"` cleans to `"Sure, code\n here you go"` |
| Extraction.UserText | extract-from-web-console.js:48-51 | the user text: the cleaned `message.text` when it is a non-empty string, `''` when the text is absent or empty (a truthy non-string text throws, see `Extraction.RequestOutcome`; a falsy one such as `0`, `false` or `null` gives `''`) |
| Extraction.UserTextUntrimmed | extract-from-web-console.js:48-51 | the user text is cleaned but not trimmed: a non-empty text without backticks is kept as written |
| Extraction.TextValues | extract-from-web-console.js:55-56 | the `filter` on the response elements, giving their `value`s: an element is kept when its `value` is a non-empty string |
| Extraction.TextValuesSpec | extract-from-web-console.js:55-56 | a value is kept exactly when it is the non-empty string `value` of some element, and there are no more values than elements |
| Extraction.TextValuesAppend | extract-from-web-console.js:55-56 | the filter works element by element: the values of two runs of elements are those of the first run followed by those of the second, so order and multiplicity are kept |
| Extraction.TextValuesSingle | extract-from-web-console.js:56 | one element gives `[v]` when its `value` is a non-empty string `v`, and nothing otherwise |
| Extraction.CleanAll | extract-from-web-console.js:57 | the `map` that cleans each kept value |
| Extraction.CleanAllSpec | extract-from-web-console.js:57 | the `map` cleans every kept value, position by position, and keeps the count |
| Strings.JoinWithSpace | extract-from-web-console.js:58 | joining gives `''` for no parts; otherwise its length is the parts' total length plus one separator between each pair of neighbours, it starts with the first part, and a single part is returned as it is (with `Strings.JoinAppend` this fixes the whole join) |
| Strings.JoinAppend | extract-from-web-console.js:58 | joining two non-empty lists puts exactly one space where they meet |
| Strings.Trim | extract-from-web-console.js:58 | the trimmed text neither starts nor ends with whitespace |
| Strings.TrimSpec | extract-from-web-console.js:58 | the trimmed text is an infix of the text, never longer, and everything cut off on either side is whitespace |
| Strings.TrimIdempotent | extract-from-web-console.js:58 | trimming twice is trimming once |
| Extraction.ResponseText | extract-from-web-console.js:53-59 | the response text: the kept values cleaned, joined by `' '` and trimmed, or `''` when the response is not an array (properties in the rows around it) |
| Extraction.ResponseTextTrimmed | extract-from-web-console.js:53-59 | a response of one non-empty backtick-free value gives that value trimmed |
| Extraction.Label | extract-from-web-console.js:63 | the key `conversation-${j + 1}`: the prefix `conversation-` followed by the decimal text of `j + 1` |
| Extraction.LabelRoundTrip | extract-from-web-console.js:63 | the key `conversation-(j+1)` can be read back to `j`, so the keys within one session are distinct |
| Decimal.Show | extract-from-web-console.js:63 | the decimal numeral of `j + 1` in `${j + 1}`: non-empty, digits only, no leading zero |
| Decimal.ParseShow | extract-from-web-console.js:63 | the decimal text of `j + 1` reads back as `j + 1` |
| Decimal.ShowInjective | extract-from-web-console.js:63 | different numbers give different decimal texts |
| Extraction.SessionPrefix | extract-from-web-console.js:65 | `substring(0, 8)` is the prefix of the id whose length is the smaller of 8 and the length of the id |
| Extraction.Qualifies | extract-from-web-console.js:61 | the push test: a request (not null, text not a truthy non-string) whose cleaned user text and response text are both longer than 10 characters |
| Extraction.RequestOutcome | extract-from-web-console.js:46-72 | what the loop body does with request `j`: it throws on a null request or a truthy non-string text; it pushes nothing unless both texts are longer than 10 characters; for a qualifying request it throws when the session has no string id, and then when its creation date cannot be converted; otherwise it pushes the record |
| Extraction.OutcomeAt | extract-from-web-console.js:46-72 | the outcome of request `j` throws exactly when the request is null, its text is a truthy non-string, or it qualifies while the session has no string id or a creation date that cannot be converted |
| Extraction.ReadRequest | extract-from-web-console.js:46-72 | reading request `j` gives that request's outcome: the record to push, nothing, or a throw |
| Extraction.Run | extract-from-web-console.js:45-77 | the inner loop over the first `n` outcomes as a left fold: `Emit` appends its record, `Skip` changes nothing, `Throw` sets the aborted flag, and once aborted (the catch at lines 75-77 ends the session) nothing changes |
| Extraction.SessionRecords | extract-from-web-console.js:44-77 | the records one session pushes: those of `Run` over all its outcomes |
| Extraction.RunAbortedStable | extract-from-web-console.js:75-77 | once a request has thrown, the caught session pushes nothing more |
| Extraction.RunAborted | extract-from-web-console.js:45-77 | the session has thrown after `n` requests exactly when one of them threw |
| Extraction.RunLength | extract-from-web-console.js:45-72 | `n` requests push at most `n` records |
| Extraction.RunRecordsFrom | extract-from-web-console.js:45-72 | every pushed record is the `Emit` outcome of the request its key names, and the records are in request order |
| Extraction.RunEmits | extract-from-web-console.js:45-77 | request `j` has a record exactly when nothing threw before it and its outcome is a record |
| Extraction.SessionEmits | extract-from-web-console.js:45-72 | request `j` of a session gets a record exactly when no earlier request threw, both cleaned texts are longer than 10 characters, the session has a string id, and its creation date converts |
| Extraction.EmittedRecord | extract-from-web-console.js:61-71 | a pushed record has key `conversation-(j+1)` and type `'conversation'`; its session is `SessionPrefix` of the id, the first min(8, length) characters; it carries the converted creation date and the two texts, each longer than 10 |
| Extraction.SessionRecordsShape | extract-from-web-console.js:44-73 | a session adds at most one record per request, in request order, each record the outcome of the request its key names |
| Extraction.ProcessSession | extract-from-web-console.js:44-77 | the inner loop pushes exactly the session's records: those of the requests before the first throw |
| Extraction.ExampleSession | extract-from-web-console.js:44-72 | an example session (id `abcdef1234567`, one request) gives exactly one record, `conversation-1` with session `abcdef12`, human `"Hello world, please help"` and copilot `"Sure, code\n here you go"` |
| Extraction.Contribution | extract-from-web-console.js:39-40 | what one read entry adds: nothing for `None` (the skip of a missing or non-binary value, and a parse that throws or gives `null`), the session's records otherwise |
| Extraction.AllRecords | extract-from-web-console.js:31-79 | the outer loop: the contributions of the read entries, concatenated in key order |
| Extraction.AllRecordsAppend | extract-from-web-console.js:31-79 | the records of later sessions are appended after those of earlier sessions |
| Extraction.SkippedSession | extract-from-web-console.js:39-40 | a missing, non-binary or unparseable session adds nothing and leaves the other sessions' records as they are |
| Extraction.AllRecordsLength | extract-from-web-console.js:31-73 | the output has at most as many records as the decoded sessions have requests |
| Extraction.AllRecordsFrom | extract-from-web-console.js:31-79 | every output record is a record of one of the decoded sessions |
| Export.SanitizeTimestamp | extract-from-web-console.js:89 | the sanitised timestamp has the timestamp's length; at each position it has `-` where the timestamp has `:` or `.`, and the timestamp's character elsewhere |
| Export.SanitizedHasNoSeparator | extract-from-web-console.js:89 | no `:` or `.` remains, and every other character is kept in place |
| Export.SanitizeIdempotent | extract-from-web-console.js:89 | sanitising twice is sanitising once |
| Export.SanitizeAppend | extract-from-web-console.js:89 | the global replace works piece by piece: sanitising a concatenation concatenates the sanitised pieces |
| Export.ExportFileName | extract-from-web-console.js:89 | the name is `copilot_export_`, then the sanitised timestamp, then `.json`; it is 20 characters longer than the timestamp, with no `:` or `.` between prefix and suffix |
| Export.FileNameExample | extract-from-web-console.js:89 | the timestamp `2024-01-02T03:04:05.678Z` gives `copilot_export_2024-01-02T03-04-05-678Z.json` |
| Export.LoadAll | extract-from-web-console.js:31-37 | one read per matched key, in key order: the list has one entry per key, and entry `i` is what the store gives for key `i` |
| Export.ExportedRecords | extract-from-web-console.js:22-79 | the records of the whole run: the outer loop over the store's entries for the filtered keys |
| Export.LoadAllStep | extract-from-web-console.js:31-37 | reading one more matched key appends that key's session records, if it has a session |
| Export.ExportChats | extract-from-web-console.js:28-89 | the script's body: the records it collects are exactly the records of the matched keys' sessions in key order, and the file name is the sanitised one |
| Export.ExportIgnoresOtherKeys | extract-from-web-console.js:22-37 | store entries under keys that are not chat-session keys do not affect the output |
| Export.NoChatKeysNoRecords | extract-from-web-console.js:15-24 | without a chat-session key nothing is exported; this includes a failed key listing, which yields `[]` |
| Export.ExportedRecordFrom | extract-from-web-console.js:22-79 | every exported record comes from the session stored under a chat-session key among the listed keys |
| Export.ExportLength | extract-from-web-console.js:31-73 | the export has at most as many records as the matched sessions have requests |

## Left out

- IndexedDB (lines 5-19, 33-37). Opening the database, the transaction, `getAllKeys` and `get` are asynchronous browser I/O. The model takes the key list as input. It takes the store as a total function `load` from key to `Option<Session>`. Failed reads therefore appear only as an empty key list or as `None`.
- `TextDecoder` and `JSON.parse` (lines 41-42). These are library calls the model cannot see. Their result is the given `Option<Session>`. `None` stands for a missing value, a value that is not a `Uint8Array`, or text that does not parse. The decoder is not fatal: invalid bytes become U+FFFD and never throw. `None` also stands for text that parses to `null`: reading `chatSession.requests` then throws, the catch swallows it, and the session contributes nothing. A parsed session whose `requests` is missing, not truthy or empty is a session with no requests.
- JSON shapes outside the datatypes. For example, `requests` may be a truthy non-array. A `message` or `response` may be a value whose fields are read on a prototype. These cases are not modelled. The request, message and response datatypes cover null requests, absent or non-string texts, non-array responses, and response elements without a string `value`.
- `sessionId`. It is modelled as a string or absent, and `None` covers every non-string. Any read of `.substring` on a non-string is taken to throw, as it does for `undefined` and `null`.
- `String(key)` of non-string keys (line 23). Keys are modelled as strings.
- `new Date(creationDate).toLocaleDateString()` (line 66). The formatted text depends on the locale, so the session carries it as an uninterpreted string. Whether the conversion throws is given with the session too, as `None`. `new Date` throws for a `creationDate` whose conversion to a primitive fails, for example an object whose own `toString` is not a function. Which JSON values throw is not modelled.
- `new Date().toISOString()` (line 89). It reads the clock, so the timestamp is a parameter of `ExportChats`.
- `JSON.stringify`, `Blob`, the object URL, the anchor click and `revokeObjectURL` (lines 84-91). This is serialisation and download plumbing.
- `console.log` and `console.warn`. These are diagnostics only.
- String length. Strings are sequences of Unicode code points. JavaScript's `length`, used in the `> 10` tests and by `substring(0, 8)`, counts UTF-16 code units, so the two differ for characters outside the Basic Multilingual Plane.
- Regular-expression character classes. `[\w]` is taken as the ASCII word characters, which matches the regular expressions used without the `u` flag. The whitespace set of `trim` is the ECMAScript WhiteSpace and LineTerminator set written out in `Strings.IsWhitespace`.
- Extraction.ProcessSession: it does not push onto a shared `allChats` array. It returns the records it pushed, and `Export.ExportChats` appends them. This is the same result, including when a request throws partway through a session: the records already pushed stay, as in the script.
