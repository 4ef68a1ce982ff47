# ONLYOFFICE document-server backend: the save callback, modelled in Dafny

The server serves the page that opens an ONLYOFFICE editor and bridges the editor to two
directories. One holds the
source documents. The other holds the saved edits. The model covers three things.

- The save callback `POST /save`. The editor posts `{status, url, key}`. Saving happens when
  `status` is strictly 2 or 4 and `url` is truthy. The server then rewrites the first
  `localhost` in the url to `host.docker.internal`. It derives a file name from `key`, or from
  `edited.docx` when `key` is falsy, and deletes every character outside `[a-zA-Z0-9._-]`. It
  downloads the url and overwrites that file in the saved-documents directory. It answers
  `200 {error: 0}`, or `500 {error: 1, message}` when any step throws.
- The listing `GET /files`: the source directory's entries whose names end in `.docx`, in
  directory order.
- The lookup `GET /file/:filename`: the file's bytes, or `404 File not found`.

Modules, one per concern:

- `Base` (base.dfy): bytes, `Option`, and `Result` with the thrown error's message.
- `Sequences` (sequences.dfy): `Filter` (the shape of both `Array.prototype.filter` and a
  global character-class replace with `""`), with lemmas about what it keeps.
- `JsValues` (js_values.dfy): a JSON body field as a JavaScript value, its truthiness, and
  `=== n` for a number.
- `JsStrings` (js_strings.dfy): `indexOf`, `replace` with a string pattern, and `endsWith`.
- `Registry` (registry.dfy): the listing and the lookup, as functions over the directory.
- `SaveCallback` (save_callback.dfy): the callback. `Reconcile` is the handler as a function of
  the saved directory before the call, and the lemmas about it state the handler's
  guarantees. The class `SavedDocuments` holds the directory as a `map` field, and its method
  `HandleSave` performs the same steps one by one, proved equal to `Reconcile`.

The effects are parameters. The saved directory is a map from file name to bytes. The download
is `fetch: string -> Result<Bytes>`, applied to the rewritten url. Its `Err` carries the message
axios throws. A write refused by the file system is `writeError: string -> Option<string>`,
applied to the file name. The listing takes the directory's entries in enumeration order;
the lookup takes the source directory as a map from name to bytes. The model does not tie
the two together.

Three behaviours of the code are worth stating outright.

- The default name applies only to a falsy key. A non-empty key with no allowed character
  gives the empty name (`FallbackOnlyForFalsyKey`).
- The alias `host.docker.internal` is hard-coded.
- The trigger test uses JavaScript truthiness. A truthy url that is not a string (a number,
  an array) triggers; `replace` is then not a function, the exception is caught, and the
  answer is a 500. The same holds for a truthy key that is not a string.

## Model

| member | source | states |
|---|---|---|
| `Sequences.Filter` | server.js:29 | The result holds only kept elements and is no longer than the input. |
| `JsValues.Truthy` | server.js:61 | A value is truthy exactly when it is not one of `undefined`, `null`, `false`, `0`, `""`; this decides `&& req.body.url` and, at line 69, `key \|\| "edited.docx"`. |
| `JsStrings.EndsWith` | server.js:29 | `s.endsWith(suffix)` holds exactly when `s` is some string followed by `suffix`. |
| `JsStrings.IndexOf` | server.js:66 | The index found is where the pattern occurs and no earlier occurrence exists; `None` means no occurrence from `from` on. |
| `JsStrings.ReplaceFirst` | server.js:66 | With no occurrence the string is unchanged; otherwise only the leftmost occurrence is replaced and everything after it is kept verbatim. |
| `JsStrings.FirstOccurrenceExists` | server.js:66 | Any occurrence implies a leftmost one, so one of ReplaceFirst's two cases always applies. |
| `Registry.IsDocx` | server.js:29 | A name is listed exactly when it is some stem followed by `.docx` (case-sensitive). |
| `Registry.ListDocuments` | server.js:29 | Every listed name ends in `.docx`. |
| `Registry.ListingExact` | server.js:29 | A name is listed iff it is an entry ending in `.docx`; each listed name appears as often as in the directory; the listing keeps directory order. |
| `Registry.ListingEmpty` | server.js:29 | The listing is empty exactly when no entry ends in `.docx`. |
| `Registry.ListingExample` | server.js:29 | Entries a.docx, b.txt, c.docx list as a.docx, c.docx. |
| `Registry.FetchDocument` | server.js:37-43 | A missing name gives 404 `File not found`; a present name is served from its stored bytes. |
| `SaveCallback.Triggers` | server.js:61 | True exactly when status is the number 2 or 4, compared with `===`, and url is truthy. |
| `SaveCallback.RewriteUrl` | server.js:63-66 | A url without `localhost` is fetched as is; otherwise only the first `localhost` becomes `host.docker.internal`. |
| `SaveCallback.RewriteAfterPrefix` | server.js:66 | When `localhost` first occurs right after a prefix (no earlier occurrence), that occurrence is rewritten and the rest of the url, later occurrences included, is kept. |
| `SaveCallback.SafeCharsSpelledOut` | server.js:69 | The characters the regex keeps are exactly the ASCII letters, the digits, `.`, `_` and `-`. |
| `SaveCallback.Sanitize` | server.js:69 | The name holds only `[a-zA-Z0-9._-]`, so no `/` or `\`, and is no longer than the key. |
| `SaveCallback.DefaultFilenameIsSafe` | server.js:69 | Sanitising `edited.docx` leaves it unchanged. |
| `SaveCallback.Filename` | server.js:69 | A falsy key gives `edited.docx`; a string key gives a safe name; a truthy non-string key throws a TypeError. |
| `SaveCallback.FallbackOnlyForFalsyKey` | server.js:69 | The empty key gets the default; a non-empty key is sanitised; a non-empty key of only disallowed characters gives `""`, not the default. |
| `SaveCallback.SanitizeKeepsAllowedInOrder` | server.js:69 | The name is an in-order subsequence of the key holding every allowed character as often as the key does, and no other character. |
| `SaveCallback.SanitizeConcat` | server.js:69 | Each character is kept or deleted independently: sanitising distributes over concatenation. |
| `SaveCallback.SanitizeIdempotent` | server.js:69 | Sanitising twice equals sanitising once. |
| `SaveCallback.SanitizeUnchangedIffSafe` | server.js:69 | A key is kept as is exactly when all its characters are allowed. |
| `SaveCallback.SanitizeDropsOne` | server.js:69 | One disallowed character between allowed parts is deleted and nothing else changes (`report#1.docx` becomes `report1.docx`). |
| `SaveCallback.Reconcile` | server.js:56-89 | A non-triggering callback is acknowledged and changes nothing; a failed callback changes nothing; no file is ever removed. |
| `SaveCallback.WriteOnlyWhenTriggered` | server.js:61 | The directory changes only if status `=== 2` or `=== 4` (`IsNumber`: the number itself, never the string `"2"`) and url is a non-empty string. |
| `SaveCallback.SuccessfulSave` | server.js:61-84 | After a triggering callback whose download and write succeed, the name maps to exactly the downloaded bytes, replacing any earlier file; the other files are unchanged; the answer is `{error: 0}`. |
| `SaveCallback.FetchFailureWritesNothing` | server.js:75-87 | A failed download leaves the directory unchanged and answers with the error's message, `HttpStatus` 500 and `ErrorCode` 1. |
| `SaveCallback.AcknowledgedExactly` | server.js:58-88 | The answer is `Ack` iff the callback did not trigger, or the url was a string, the key was usable, and the download and write succeeded. `Ack` is `HttpStatus` 200 with `ErrorCode` 0; any other answer is 500 with `ErrorCode` 1 and leaves the directory unchanged. |
| `SaveCallback.NewFilesHaveSafeNames` | server.js:69-78 | Every file a callback creates has a name made only of allowed characters. |
| `SaveCallback.RepeatedCallbackIdempotent` | server.js:69-78 | Repeating a callback with the same download gives the same directory and the same answer. |
| `SaveCallback.LastWriteWins` | server.js:78 | After two callbacks for the same name, the second one's bytes are stored. |
| `SaveCallback.EndToEnd` | server.js:61-84 | Status 2, url `scheme + localhost + rest` (no earlier `localhost`) and key `a + c + b` (c disallowed) download `scheme + host.docker.internal + rest` and store the bytes under `a + b`. |
| `SaveCallback.EndToEndExample` | server.js:61-84 | Status 2, url `http://localhost:9000/doc` and key `report#1.docx` download `http://host.docker.internal:9000/doc` and store the bytes under `report1.docx`, acknowledged. |
| `SaveCallback.SavedDocuments.constructor` | server.js:14-16 | The saved-documents directory starts with the files it already holds. |
| `SaveCallback.SavedDocuments.HandleSave` | server.js:56-89 | The answer and the new directory are those of `Reconcile` on the old directory; a non-triggering or failed callback leaves the directory unchanged. |

## Left out

- Express wiring, CORS, the JSON body limit, static serving of `public/` and `/plugins`, and
  `app.listen`: framework plumbing. The body is taken to be a JSON object; a missing field is
  `Undefined`.
- Directory bootstrap with `mkdirSync` and the real `fs` calls. The directories are maps. The
  listing's order is the given entry sequence.
- `path.join` normalisation. A file name is a key of the map. The names `.`, `..` and `""`,
  which the filter lets through, resolve to directories on a real file system. The model treats
  a failure to write them like any other refused write, through `writeError`. No traversal
  safety is claimed for them or for the unsanitised `:filename` of `GET /file`.
- The axios download. It is the parameter `fetch`: no timeout, retry or size limit is
  modelled.
- A write that fails part-way and leaves a truncated file. A refused write is taken to leave
  the directory unchanged.
- `readdirSync` failing in `GET /files`: Express's default error handler answers that, not
  the server's code.
- The Content-Type and Content-Disposition headers and `sendFile` streaming of `GET /file`.
- `Registry.FetchDocument`: does not model the cases, among others, where a present name is
  not answered with its bytes. Header validation rejects a name with a control character,
  DEL or a character above U+00FF, so the Content-Disposition header throws and Express
  answers 500. A name starting with `.` is refused by `sendFile`'s default dotfile policy
  with 404 `Not Found`. A subdirectory passes the existence check, `sendFile` then fails with
  EISDIR, and Express answers 404 `Cannot GET`. All of these live in the header and `sendFile`
  calls, which are outside the model.
- Console logging, and the commented-out earlier versions of the server.
- Concurrent callbacks racing on one file. The model applies callbacks one at a time, so
  last-write-wins is stated only for sequential callbacks (`LastWriteWins`).
- `SaveCallback.Filename`: the TypeError messages are V8's wording for these call sites,
  taken as constants. The model does not derive them.
- `JsStrings.ReplaceFirst`: inserts the replacement literally and does not interpret `$`
  patterns. The server's replacement `host.docker.internal` contains none.
- Strings are sequences of Unicode scalar values rather than UTF-16 code units. The filter
  deletes an astral character that JavaScript deletes as two code units, so for such strings
  the result is the same. A lone surrogate, which `JSON.parse` accepts (`"\ud800"`), is not a
  Dafny `char`: keys and urls holding one are outside the model. JavaScript deletes it from
  the key and keeps it in the url.
