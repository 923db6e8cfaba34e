# Survey-score upload handler, in Dafny

This project models `exports.handler` of `functions/upload-survey-scores.js`. It is the
Netlify function that takes a data-URL file posted with its year and semester and stores
the file in a GitHub repository under `data/survey-scores/<timestamp>.<ext>`. It then
records an entry for the file in the index `data/survey-scores.json`, a JSON list that is
read, extended by one entry and written back.

The handler is modelled as one pure function, `UploadHandler.Run`. It takes:

- the configuration (`GITHUB_USER`, `GITHUB_REPO`, `GITHUB_BRANCH`);
- the request;
- the clock readings (`Date.now()`, `toISOString()`);
- a record of remote failures;
- the state of the repository.

It returns the response, the new state of the repository, and the list of contents-API
calls made. `UploadHandler.Handle` is the handler as written.

Modules:

- `Optional`: the option type.
- `Text`: `split` on one character and the two pieces the handler takes from it, `pop()`
  and `[1]`. Also the decimal rendering of the timestamp and its inverse.
- `Json`: JSON values as JavaScript sees them, including truthiness, member access on a
  parsed body, and what "well formed" means (distinct keys, valid numerals).
- `JsonPrint`, `JsonParse`, `JsonRoundTrip`: `JSON.stringify` with and without
  indentation, `JSON.parse`, and the proof that parsing what was printed gives the value
  back.
- `Store`: the branch of the repository as the contents API presents it. It is a map from
  path to content and blob sha. A write is accepted only with the right sha: none for a
  new path, the current one for an existing path.
- `Derive`: the texts the handler computes, namely the extension, the storage path, the
  raw URL, the payload, the semester label (with the prototype members a plain object
  inherits) and the index entry. `DeriveProps` holds what they mean.
- `UploadHandler`: the handler itself. `HandlerProps` holds its properties, including the
  finding below.

A file name without a dot keeps the whole name as its extension (`split('.').pop()`
gives the name itself, `DeriveProps.ExtensionWholeName`). The default `pdf` is used only
for an empty name or a name that ends in a dot (`DeriveProps.ExtensionTrailingDot`).

The semester label is looked up with `typeMap[semester]`, which uses `String(semester)` as
the key, so the model does more than "label for the four codes, the value otherwise":

- a one-element list such as `["mid1"]` gets the label of its element;
- `"__proto__"` gets an empty object;
- the names of `Object.prototype` methods get a function, which `JSON.stringify` then
  leaves out of the entry;
- an object with an own `toString` member, or a list holding one at any depth, cannot be
  turned into a key. Its `toString` is data, not a function, and the inherited `valueOf`
  returns the object itself, so the lookup throws a `TypeError`. That happens after the
  upload, so the handler answers 500 and the uploaded file stays without an index entry
  (`HandlerProps.SemesterThrows`).

## Model

| member | source | states |
|---|---|---|
| UploadHandler.Run | functions/upload-survey-scores.js:5-7 | A method other than POST, and only such a method, is answered 405 `Method Not Allowed` with no call made and the store untouched. Every response is 200, 400, 405 or 500, and the store changes only through a call. |
| UploadHandler.Branch | functions/upload-survey-scores.js:17 | The branch is `GITHUB_BRANCH` when that is set and non-empty, and `main` otherwise. |
| UploadHandler.Required | functions/upload-survey-scores.js:10-12 | The four members are taken from the body exactly when `year`, `semester`, `file` and `fileName` are all truthy, and then they are the body's values under those names. |
| UploadHandler.Handle | functions/upload-survey-scores.js:3-119 | The handler as written answers 405 exactly to a method other than POST, and otherwise 200, 400 or 500. It never changes the store without making a call. |
| UploadHandler.Posted | functions/upload-survey-scores.js:9-14 | A POST request is answered 200, 400 or 500, and the store changes only through a call. |
| HandlerProps.RunOutcome | functions/upload-survey-scores.js:9-16 | A POST whose body parses to something other than `null` is decided by the field check: 400 `Missing required fields` with no call and the store untouched when a member is missing or falsy, the upload otherwise. |
| UploadHandler.UpdateIndex | functions/upload-survey-scores.js:41-111 | Reading the index, building the entry and writing the index back answers 200 or 500. The calls made so far stay a prefix, and the next call is the read of the index. |
| UploadHandler.Upload | functions/upload-survey-scores.js:16-111 | Past the field check the answer is 200 or 500, and the store changes only through a call. |
| UploadHandler.IndexText | functions/upload-survey-scores.js:42-53 | The text read is the stored index when the read succeeds and finds it, and `[]` when the read fails or finds nothing. |
| UploadHandler.Previous | functions/upload-survey-scores.js:55-60 | The old list is well formed, as everything `JSON.parse` yields is. `HandlerProps.PreviousIsParse` states that it is the parse. |
| UploadHandler.AppendEntry | functions/upload-survey-scores.js:73-105 | The index update answers 200 or 500, keeps the calls made so far as a prefix, and leaves the store alone on 500. On 200 the index holds the old list with the entry pushed, printed with two spaces. |
| HandlerProps.UnreadableBodyFails | functions/upload-survey-scores.js:9-10 | A body that is not JSON, or is `null`, gives 500 with the error message after the fixed prefix, before any call and with the store unchanged. |
| HandlerProps.ServerErrorParses | functions/upload-survey-scores.js:112-117 | Every caught failure answers 500 with a body that reads back as `{"error": prefix + message}`. |
| HandlerProps.MissingFieldsGate | functions/upload-survey-scores.js:12-14 | A posted, parsable, non-null body gives 400 if and only if one of the four members is falsy. Then the body reads back as `{"error": "Missing required fields"}`, no call is made and the store is unchanged. |
| HandlerProps.OnlyRequiredMembersMatter | functions/upload-survey-scores.js:10-14 | Two object bodies that agree on `year`, `semester`, `file` and `fileName` get the same outcome, so `fileType` and other members are never consulted. |
| HandlerProps.RunReachesUpload | functions/upload-survey-scores.js:9-16 | A request that changed the store or got 200 passed the field check, its copied members are well formed, and its outcome is that of the upload. |
| Derive.Extension | functions/upload-survey-scores.js:19 | The extension is non-empty and has no dot. It is `pdf` when the name is empty or ends with a dot. |
| DeriveProps.ExtensionWholeName | functions/upload-survey-scores.js:19 | A non-empty name without a dot is its own extension. |
| DeriveProps.ExtensionAfterLastDot | functions/upload-survey-scores.js:19 | For `p.e` with `e` non-empty and dot-free, the extension is `e`, the text after the last dot. |
| DeriveProps.ExtensionTrailingDot | functions/upload-survey-scores.js:19 | A name ending in a dot gets `pdf`. |
| Derive.UploadPath | functions/upload-survey-scores.js:20 | The storage path lies under `data/survey-scores/`. |
| DeriveProps.UploadPathInjective | functions/upload-survey-scores.js:18-20 | Two uploads get the same path if and only if they have the same timestamp and the same extension. |
| DeriveProps.UploadPathNotIndex | functions/upload-survey-scores.js:20 | No storage path is the index path `data/survey-scores.json`. |
| Text.Split | functions/upload-survey-scores.js:19 | `split` gives at least one piece, no piece holds the separator, and joining the pieces with it gives the text back. |
| Text.SplitJoin | functions/upload-survey-scores.js:19 | Splitting a join of separator-free pieces gives the pieces back. |
| Text.LastPiece | functions/upload-survey-scores.js:19 | `pop()` is a separator-free suffix. It is shorter than the text exactly when the text holds the separator, and then a separator precedes it. |
| Text.SecondPieceSpec | functions/upload-survey-scores.js:23 | For `file = p + "," + r + q`, with `p` and `r` comma-free and `q` empty or starting with a comma, the payload is exactly `r`. |
| Text.SecondPieceDefined | functions/upload-survey-scores.js:23 | The payload is `undefined` if and only if the data URL has no comma. |
| Text.SecondPieceShape | functions/upload-survey-scores.js:23 | Conversely, a defined payload is the run between the first comma and the next comma or the end. |
| Text.Decimal | functions/upload-survey-scores.js:64 | The `id` is a non-empty run of digits with no leading zero. |
| Text.DecimalRoundTrip | functions/upload-survey-scores.js:64 | Reading the `id` as a decimal number gives the timestamp back. |
| Text.DecimalInjective | functions/upload-survey-scores.js:64 | Different timestamps give different ids. |
| Derive.RawUrl | functions/upload-survey-scores.js:69 | The url starts with `https://raw.githubusercontent.com/` and ends with the storage path. |
| DeriveProps.SemesterTextOfString | functions/upload-survey-scores.js:34-67 | For a string semester, `semesterText` is one of four things. It is the table's label for `mid1`, `final1`, `mid2` and `final2`. It is `{}` for `__proto__`. It is absent for the names of `Object.prototype` methods. Otherwise it is the string unchanged. |
| DeriveProps.SemesterTextOfSingleton | functions/upload-survey-scores.js:67 | A one-element list is looked up under its element's key. |
| Derive.SemesterText | functions/upload-survey-scores.js:67 | `semesterText` is the semester itself, one of the four labels, `{}`, or absent, and it is well formed when the semester is. |
| DeriveProps.SemesterTextKept | functions/upload-survey-scores.js:67 | A number semester, or an object semester without an own `toString`, converts to a key without throwing and is kept unchanged. |
| HandlerProps.SemesterThrows | functions/upload-survey-scores.js:63-67 | A semester that cannot be turned into a key makes the lookup throw after the upload and the index read. The answer is 500, the calls are the upload and the read, the uploaded file stays and the index is unchanged. |
| Derive.Payload | functions/upload-survey-scores.js:23 | `file.split(',')[1]` is `undefined` exactly when the data URL has no comma, and a defined payload holds no comma. |
| DeriveProps.EntryMembers | functions/upload-survey-scores.js:63-71 | Read by name, the entry's members are the following. `id` is the decimal timestamp. `year`, `semester`, `fileName`, `url` and `uploadedAt` are the values given. `semesterText` is the semester's label. |
| DeriveProps.EntryWellFormed | functions/upload-survey-scores.js:63-71 | The entry has distinct keys and well-formed values whenever `year` and `semester` are well formed, so it survives printing. |
| Json.Truthy | functions/upload-survey-scores.js:12 | Lists, objects, `true` and non-empty strings are truthy. `null`, `false` and the empty string are falsy. A number is truthy exactly when a digit before its exponent is non-zero. |
| Json.ExponentFreeTruthy | functions/upload-survey-scores.js:12 | A number written without an exponent is truthy exactly when one of its digits is non-zero, so a number `year` such as `2024` passes the check. |
| Json.Member | functions/upload-survey-scores.js:10 | Destructuring finds a member exactly when the body is an object holding that key. With distinct keys, the value found is the value of the member with that name. |
| Json.Insert | functions/upload-survey-scores.js:9 | When `JSON.parse` meets a repeated key, the first member with that key takes the new value in its position and every other member is unchanged. A new key is appended. Keys stay distinct, and the key then maps to the value. |
| JsonParse.Parse | functions/upload-survey-scores.js:9 | What `JSON.parse` yields, here and for the index at line 57, is well formed: distinct keys and valid numerals. |
| JsonPrint.Stringify | functions/upload-survey-scores.js:76 | A list prints between brackets, an object between braces and a string between quotes, and the empty list prints as `[]`. `JsonRoundTrip.ParseStringify` is its inverse. |
| JsonRoundTrip.ParseStringify | functions/upload-survey-scores.js:76 | Parsing the printed form of a well-formed value, at any indentation of spaces, gives the value back. |
| Store.Put | functions/upload-survey-scores.js:87-104 | A write is accepted exactly when it has content and the right sha: none for a new path, the current one for an existing path. A refusal says which rule failed. An accepted write replaces only that path, under a new sha, with one commit. |
| Store.PutOther | functions/upload-survey-scores.js:24-31 | A write leaves every other path as it was. |
| Store.PutGet | functions/upload-survey-scores.js:87-95 | Reading back after a write gives the written content under a sha no file had before. |
| Store.StaleShaRefused | functions/upload-survey-scores.js:81-95 | A sha used for one write is refused when used again for the same path. |
| UploadHandler.UploadCall | functions/upload-survey-scores.js:23-31 | The upload is a write without sha of the payload to the storage path. |
| UploadHandler.Finish | functions/upload-survey-scores.js:87-111 | After the index write, the handler answers 200 exactly when the write was accepted, and then the store is the written one. Otherwise it answers 500 with the store unchanged. |
| HandlerProps.UploadLeavesIndex | functions/upload-survey-scores.js:20-31 | The upload write leaves the index, and what the first read yields, as they were. |
| HandlerProps.AfterUpload | functions/upload-survey-scores.js:24-31 | After an accepted upload, the store holds the payload at the fresh storage path and one more commit. The index is unchanged. |
| HandlerProps.UploadStep | functions/upload-survey-scores.js:41-77 | After an accepted upload, the rest of the handler is the index update on the new store. It uses the existence test and the list read before that update. |
| HandlerProps.UploadRefused | functions/upload-survey-scores.js:112-117 | When the file name or file is not text, or the upload write fails, the answer is 500 and the store is unchanged. |
| HandlerProps.PreviousIsParse | functions/upload-survey-scores.js:55-60 | The old list is `JSON.parse` of the text read, or `[]` when that fails. |
| HandlerProps.AppendWrite | functions/upload-survey-scores.js:77-105 | The calls and the index write are fixed by the handler's belief. Believing the index exists gives a second read and an update carrying the current sha. Otherwise there is a create without sha. The write succeeds exactly when nothing fails remotely and the belief matches the store. |
| HandlerProps.AppendSucceeded | functions/upload-survey-scores.js:73-111 | A successful index write stores the old list with the entry pushed, under one more commit, and answers 200 with that entry. |
| HandlerProps.AppendFrame | functions/upload-survey-scores.js:77-105 | The index update touches no path but the index, and a failed one touches nothing. |
| HandlerProps.UploadSucceeded | functions/upload-survey-scores.js:16-111 | A 200 means two things. The payload went to a fresh storage path. The index became the old list with the entry pushed, printed with two-space indentation. The sha counter advanced by two and the response carries the entry. |
| HandlerProps.NewIndexParses | functions/upload-survey-scores.js:76 | The printed new index reads back as the old list with the entry pushed. |
| HandlerProps.SuccessIndex | functions/upload-survey-scores.js:55-76 | After a success, the stored index parses to the old list with exactly the new entry appended. Earlier entries stay, in order. |
| HandlerProps.FreshIndex | functions/upload-survey-scores.js:42-60 | If the read failed, found nothing or found unparsable text, a success leaves an index of that one entry. |
| HandlerProps.SuccessResponse | functions/upload-survey-scores.js:107-110 | A success answers with the JSON content type and a body that reads back as `{"success": true, "entry": e}`, where `e` is the appended entry. |
| HandlerProps.EntryOfMembers | functions/upload-survey-scores.js:18-70 | The entry's `id`, `url` and storage path all come from the one timestamp. The url is the raw URL of that path on the configured branch. |
| HandlerProps.SuccessPayload | functions/upload-survey-scores.js:23-29 | After a success, the stored file holds the text between the first and second commas of the data URL. |
| HandlerProps.IndexWriteSha | functions/upload-survey-scores.js:77-105 | Once the upload is written, the semester converts to a key and the index reads as a list, the calls are fixed. They are the upload, one read, a second read when the index is believed to exist, and the index write. That write carries the current sha exactly when the index is believed to exist. |
| HandlerProps.SentinelSha | functions/upload-survey-scores.js:77-104 | As written, once the entry is built, the index write carries a sha exactly when the text read is not `[]`, and that sha is the current one. |
| HandlerProps.UploadKept | functions/upload-survey-scores.js:24-31 | There is no rollback. Once the upload is written, the file stays whatever happens to the index afterwards. |
| HandlerProps.UploadFrame | functions/upload-survey-scores.js:24-105 | An upload changes at most its storage path and the index, and keeps every sha below the next one. |
| HandlerProps.TwoUploadsAccumulate | functions/upload-survey-scores.js:42-76 | Two successful uploads in a row leave both entries, in order, after the old ones. |
| HandlerProps.UploadableOutcome | functions/upload-survey-scores.js:77-105 | With no remote failure and a request that can be stored, the upload succeeds exactly when the handler's belief about the index matches the store. |
| HandlerProps.SentinelSuccessIff | functions/upload-survey-scores.js:77 | As written, such an upload succeeds exactly when the stored index is not the text `[]`. |
| HandlerProps.SentinelOrphansUpload | functions/upload-survey-scores.js:77-104 | An index holding `[]` is rewritten as a create without sha. The write is refused, the answer is 500, the uploaded file stays and the index still holds `[]`. |
| HandlerProps.CorrectedSucceeds | functions/upload-survey-scores.js:77-105 | Deciding by whether the read found the index, the same upload always succeeds. |
| HandlerProps.TestsAgree | functions/upload-survey-scores.js:77 | The two existence tests disagree exactly when the first read succeeds and the index holds `[]`. A failed read makes both say the index does not exist. |
| HandlerProps.PoliciesAgree | functions/upload-survey-scores.js:77 | Unless the first read succeeds on an index holding `[]`, the handler as written and the corrected one answer alike. |

## Left out

- The Octokit calls (lines 24, 44, 81, 87, 97) are replaced by the `Store` map. Remote failures are inputs, the `Faults` record. Authentication and HTTP are not modelled.
- Base64 encoding and decoding (lines 50, 92, 102) are left out. The store keeps the text a file encodes, and the payload is stored as the text that would be sent.
- `Date.now()` and `toISOString()` (lines 18, 70) are inputs (`Clock`), and `process.env` is `Config`.
- `console.error` (line 113) is left out.
- Concurrent invocations racing on the index are left out. The model covers one invocation at a time, and `Store.StaleShaRefused` is as far as it goes.
- Store.StaleShaRefused: every accepted write gets a fresh sha from a counter. GitHub's blob sha is the hash of the content, so rewriting a file with unchanged content keeps its sha, and then the old sha is not refused. No property of the handler depends on this, because every index write adds an entry and so changes the content.
- The second `getContent` (lines 81-86) reads the same store as the first. Only a fault that makes it fail is modelled.
- Size limits of the function platform and the contents API are not modelled.
- Numbers in JSON are kept as their numeral text. The conversion to IEEE doubles is not modelled, so `1.0` and `1` stay distinct values.
- Json.Truthy: a numeral is falsy only when its mantissa digits are all zero. A numeral that rounds to zero as a double, such as `1e-400`, is falsy in JavaScript, so the handler answers 400 where the model uploads. A numeral too large for a double, such as `1e400`, becomes `Infinity` and is printed as `null` in the index, where the model keeps the numeral.
- `JSON.stringify` puts integer-like keys first. That reordering is not modelled, and the entry and response keys are not integer-like.
- `\u` escapes that denote lone surrogates make the model's `JSON.parse` fail, because Dafny characters are Unicode scalar values.
- UploadHandler.Message: the texts of runtime and GitHub errors are representative, not the exact texts.
- Text.Decimal: a timestamp at or above 10^21, which JavaScript prints in exponent notation, is not modelled.
- UploadHandler.Previous: the text `[]` is read directly as the empty list instead of through the parser. `HandlerProps.PreviousIsParse` proves the two agree.
- Derive.TypeMap: of the members `Object.prototype` provides, only the standard methods and `__proto__` are modelled. Members added at runtime by other code are not.

## Findings

| source | as written | input that shows it | evidently intended | confidence | as-written member | corrected member |
|---|---|---|---|---|---|---|
| functions/upload-survey-scores.js:77 | The index is taken to exist exactly when the text read is not `[]`. A create without sha is sent otherwise. | The index file exists and holds exactly `[]`, for example after all entries were removed by hand. The write without sha is refused because the path exists. The handler answers 500 on every upload, and each uploaded file is left in the repository with no index entry. | Decide by whether the read found the file: update with its sha when it did, create when it did not. | not executed | HandlerProps.SentinelOrphansUpload | HandlerProps.CorrectedSucceeds |

`HandlerProps.SentinelSuccessIff` states the as-written behaviour in full: with no remote
failure, an upload succeeds if and only if the index does not hold `[]`.
`HandlerProps.PoliciesAgree` shows that the corrected handler, `UploadHandler.HandleCorrected`,
differs from the handler as written only when the first read succeeds on an index holding `[]`.
A failed first read makes both handlers create the index without a sha.
