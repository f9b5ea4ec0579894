# AWS S3 task-pane add-in: retrieval pipeline, file list and config slot

This project models the core of an Office task-pane add-in that browses an
AWS S3 bucket. The model has three parts:

- **`S3Service`** (`src/app/services/S3Service.ts`)
  - lists a bucket page by page;
  - checks a connection with a one-key listing;
  - fetches one object and classifies its content type as text-like or binary;
  - turns the object's body into a string (through a streaming UTF-8 `TextDecoder`) or a blob (by collecting the stream's chunks).
- **`FileList`** (`src/app/components/FileList.tsx`) is the list component.
  - It loads pages, appending or replacing rows, and keeps the continuation cursor and the `loading` and `inserting` flags.
  - It builds a composite id for each row.
  - On "insert", it dispatches a fetched object: the text goes into the document, or the object is offered as a download under its last path segment, or it is reported as unprocessable.
- **`Storage`** (`src/app/services/storage.ts`) is the config slot. The four connection settings are kept in one `localStorage` entry as base64 of the UTF-8 bytes of their JSON text. The module has `saveConfig`, `loadConfig` and `clearConfig`.

The browser built-ins that these files rely on are modelled as well, so that their round trips can be proved:

| module | built-in | following |
|---|---|---|
| `Utf8` | `TextDecoder("utf-8")` (streaming and flush); `Blob.text()` | the UTF-8 decoder of the WHATWG Encoding Standard, section 9.1.1 |
| `Utf8` | `encodeURIComponent`/`unescape` | the UTF-8 encoder of RFC 3629 |
| `Utf8` | `escape`/`decodeURIComponent` | a strict decode |
| `Base64` | `btoa` | RFC 4648 section 4 |
| `Base64` | `atob` | the WHATWG forgiving-base64 decode |
| `Json` | `JSON.stringify` and `JSON.parse` | restricted to string literals, RFC 8259 |

External parties are modelled as follows:

- **AWS SDK.** `client.send` is an oracle: a function from the request record to the response record, or to the failure it throws. It is passed in as `ListSender` or `GetSender`.
- **Office host.** `setSelectedDataAsync` is an oracle `string -> Result<(), Failure>`.
- **Browser download.** A download is recorded as a requested `(fileName, blob)` pair.
- **Requests.** The component records every service request, host insert and download it asks for, in order. The contracts can therefore say exactly which calls were made.
- **`localStorage`.** A class holding a string map.

Every React handler runs as one sequential step. The moment before its
first `await` is exposed as `BeginLoad` and `BeginInsert`, so that the flags
visible during the operation can be stated.

## Model

| member | source | states |
|---|---|---|
| S3Service.SomePrefix | src/app/services/S3Service.ts:122 | `types.some(t => s.startsWith(t))` holds iff some entry of the list is a prefix of `s` |
| S3Service.IsTextLikeExactly | src/app/services/S3Service.ts:86-123 | a content type is text-like iff it starts with `text/`, `application/json`, `application/xml` or the Word document type (the three `text/...` entries of the allow-list add nothing beyond the `text/` rule) |
| S3Service.ClassificationExamples | src/app/services/S3Service.ts:106-123 | the default `application/octet-stream` and `image/png` are binary; `application/json`, a custom `text/x-foo` and the Word document type are text-like (the general rule is `IsTextLikeExactly`) |
| S3Service.EffectiveContentType | src/app/services/S3Service.ts:106 | a present, non-empty `ContentType` is used as is; a missing or empty one becomes a type that classifies as binary |
| S3Service.TestConnection | src/app/services/S3Service.ts:30-37 | one list request for the configured bucket with `MaxKeys` 1 and no token; it succeeds exactly when that request does, and passes its error on |
| S3Service.KeepKeyed | src/app/services/S3Service.ts:57 | the filter keeps only entries with a non-empty key, all taken from the input, never more than the input |
| S3Service.KeepKeyedAppend | src/app/services/S3Service.ts:52-57 | filtering commutes with concatenation, so the kept entries stay in service order |
| S3Service.ProjectEntries | src/app/services/S3Service.ts:52-57 | the listing of a concatenation is the concatenation of the listings; a single entry is kept, with its key, time and size, exactly when its key is present and non-empty; absent or empty `Contents` gives an empty list |
| S3Service.ListFiles | src/app/services/S3Service.ts:39-63 | the request carries the bucket, the page size and the continuation token unchanged; a service error is passed on; on success the files are the projection of the response's `Contents` that `ProjectEntries` describes, every file has a non-empty key, and `nextContinuationToken` is the response's, unchanged |
| S3Service.Present | src/app/services/S3Service.ts:134-138 | the kept chunks, joined, are every received byte in arrival order, with `undefined` reads contributing nothing |
| S3Service.StreamToString | src/app/services/S3Service.ts:66-77 | the streamed decode (each chunk with `stream: true`, then a flush) equals the one-shot UTF-8 decoding of all received bytes, wherever the chunk boundaries fall |
| S3Service.CollectChunks | src/app/services/S3Service.ts:132-138 | the loop collects exactly the defined `read()` values in order, and their bytes are all received bytes |
| S3Service.Retrieve | src/app/services/S3Service.ts:106-149 | an absent body is an error with message "Empty object body"; otherwise the content type is the effective one, `isTextLike` is its classification, text is present iff text-like and a blob iff not |
| S3Service.RetrieveStream | src/app/services/S3Service.ts:125-141 | for a streamed body the text is the UTF-8 decoding of all received bytes, and the blob holds all received bytes under the content type (not normalised as the `Blob` constructor would) |
| S3Service.GetFile | src/app/services/S3Service.ts:95-150 | the method with its two loops computes exactly the outcome of one `GetObject` request for the bucket and key followed by `Retrieve` |
| FileList.ErrorText | src/app/components/FileList.tsx:58 | the error text (the message, else `e.toString()`) is never empty and is the message when there is one |
| FileList.NatToString | src/app/components/FileList.tsx:48 | the row index is written as one or more decimal digits |
| FileList.NatToStringInjective | src/app/components/FileList.tsx:48 | different indexes are written differently |
| FileList.DashSuffix | src/app/components/FileList.tsx:48 | the part after the last dash of an id determines the index text, whatever dashes the key or token hold |
| FileList.RowIds | src/app/components/FileList.tsx:46-49 | each row keeps its object's key, time and size; its id is `key-(token or "first")-index`; the ids of one page are pairwise distinct |
| FileList.RowIdsNonEmpty | src/app/components/FileList.tsx:48 | every row id is non-empty, so `!!inserting` is true while a row is being inserted |
| FileList.Split | src/app/components/FileList.tsx:103 | `key.split("/")` has at least one piece, no piece holds `/`, and joining the pieces with `/` gives the key back |
| FileList.LastSegment | src/app/components/FileList.tsx:103 | `pop()` of the split key is the text after the key's last `/` (the whole key when there is none) |
| FileList.DownloadNameSegment | src/app/components/FileList.tsx:103 | the download name is `download` when the key is empty or ends with `/`; otherwise it is the key's non-empty last path segment |
| FileList.DispatchRetrieved | src/app/components/FileList.tsx:83-111 | for a fetched object: text-like with non-empty text is inserted as that text; text-like with empty text is neither inserted nor downloaded; anything else is downloaded as `getFile`'s blob under the download name |
| FileList.EmptyTextCannotBeProcessed | src/app/components/FileList.tsx:83-111 | a text-like object with no bytes ends in "cannot process", whether it is a stream whose `read()` results (any number, empty chunks or `undefined`) carry no bytes, or an empty buffered blob of any type |
| FileList.FileListState.constructor | src/app/components/FileList.tsx:22-33 | mounting starts with an empty list, no cursor, flags off, no message, and the config `loadConfig` reads from the store |
| FileList.FileListState.BeginLoad | src/app/components/FileList.tsx:42-43 | during a load the spinner is on, the message is cleared and "load more" is not offered |
| FileList.FileListState.LoadPage | src/app/components/FileList.tsx:35-64 | without a config: a warning-kind message, no request, and files, cursor and `loading` unchanged; otherwise one list request with the token and page size 50; on success the page's rows are appended when the token is truthy and replace the list otherwise, and the cursor is the page's token; on failure list and cursor stay and an error-kind message is shown; `loading` is false afterwards |
| FileList.FileListState.LoadMore | src/app/components/FileList.tsx:195-199 | offered only when the cursor is truthy and nothing is loading; a click sends one list request for the page after the cursor; on success its rows are appended, the cursor becomes the page's token and no message is shown; on failure list and cursor stay and the error is shown; `loading` is false afterwards, and `inserting`, the get, insert and download logs and the config are unchanged; without a config only the warning is set |
| FileList.FileListState.BeginInsert | src/app/components/FileList.tsx:78-79 | during an insert `inserting` holds the row id and every insert button is disabled exactly when that id is non-empty |
| FileList.FileListState.Deliver | src/app/components/FileList.tsx:83-111 | the text of an insert is handed to the host and the outcome reported as success or error; a download is recorded with its file name and blob and reported as started; otherwise "cannot process" is reported; nothing else changes |
| FileList.FileListState.HandleInsert | src/app/components/FileList.tsx:71-120 | without a config: a warning and no request; otherwise one `GetObject` request for the key, then the host insert of the text, or the recorded download under the download name, or a "cannot process" warning, with request and host failures shown as errors (the message has the error kind exactly when one of them failed); `inserting` is null afterwards; list, cursor and `loading` never change |
| Storage.DecodeEncode | src/app/services/storage.ts:12-18 | `decode(encode(s)) == s` for every string |
| Storage.ParseStringify | src/app/services/storage.ts:21-31 | `JSON.parse(JSON.stringify(c))` gives back the config |
| Storage.Load | src/app/services/storage.ts:26-35 | an absent or empty slot and an undecodable text give null; a config is returned only when the text decodes and its JSON parses to it |
| Storage.LoadSaved | src/app/services/storage.ts:20-35 | what `saveConfig(c)` writes reads back as `c` |
| Storage.LocalStorage.GetItem | src/app/services/storage.ts:27 | `getItem` returns the stored value, or null for a missing key |
| Storage.LocalStorage.SetItem | src/app/services/storage.ts:23 | `setItem` writes the one key |
| Storage.LocalStorage.RemoveItem | src/app/services/storage.ts:38 | `removeItem` deletes the one key |
| Storage.SaveConfig | src/app/services/storage.ts:20-24 | only the key `aws-s3-addin-config` changes; it then holds the encoded JSON of the config, and loading gives the config back |
| Storage.LoadConfig | src/app/services/storage.ts:26-35 | the method returns what `Load` says about the slot, never throwing |
| Storage.ClearConfig | src/app/services/storage.ts:37-39 | only the key `aws-s3-addin-config` is removed, and loading then gives null |
| Utf8.TextDecoder.Decode | src/app/services/S3Service.ts:73-75 | `decode(input, {stream})` runs the UTF-8 decoder from the state the previous streaming call left (fresh after a flush); a flush reports a truncated sequence as U+FFFD; a leading byte order mark is dropped once per stream |
| Utf8.StreamChunk | src/app/services/S3Service.ts:73 | one streaming call after a prefix leaves the decoder where decoding prefix and chunk together would, and the text so far is their joint decoding |
| Utf8.StreamFlush | src/app/services/S3Service.ts:75 | the final `decode()` completes the one-shot decoding of everything streamed |
| Utf8.DecodeEncode | src/app/services/S3Service.ts:146 | `Blob.text()` of UTF-8 bytes gives the string back (less a leading byte order mark) |
| Utf8.RunAppend | src/app/services/S3Service.ts:73 | decoding `a + b` is decoding `a` and then `b` from the state `a` left, so chunk boundaries carry no information beyond the decoder state |
| Utf8.RunEncode | src/app/services/storage.ts:13 | decoding the UTF-8 encoding of a string yields its characters without error and returns the decoder to its initial state |
| Utf8.DecodeStrict | src/app/services/storage.ts:17 | `decodeURIComponent(escape(b))` succeeds iff the decoder reports no error, and then yields the decoded characters |
| Utf8.DecodeStrictEncode | src/app/services/storage.ts:12-18 | strict decoding undoes UTF-8 encoding for every string |
| Base64.Decode | src/app/services/storage.ts:17 | `atob` succeeds only on texts made of ASCII whitespace, the base64 alphabet and `=` |
| Base64.OctetsOfSextets | src/app/services/storage.ts:13 | regrouping the 6-bit groups of any byte string into bytes gives the bytes back |
| Base64.DecodeEncode | src/app/services/storage.ts:13-17 | `atob(btoa(b)) == b` for every byte string |
| Json.ParseQuote | src/app/services/storage.ts:21-31 | a string literal written by `JSON.stringify` parses back to the same string and leaves the rest of the text alone |

## Left out

- The AWS client (`createClient`, credentials, region, the network) is not modelled. `client.send` is an oracle from request records to responses or failures.
- `Office.context.document.setSelectedDataAsync` is an oracle returning success or a failure. Its effect on the document is not modelled.
- Only the requested `(fileName, blob)` pair of a download is recorded. `URL.createObjectURL`, the anchor click and `revokeObjectURL` are not modelled.
- React rendering, Fluent UI, the column definitions, the message texts and `toLocaleString` are UI and are not modelled. Messages are modelled by kind and by the key or error text they mention. Timestamps are integers.
- The mount effects: on the first render the effect at `FileList.tsx:66-69` calls `loadPage()` while `config` is still null, because `setConfig` at `FileList.tsx:32` only takes effect on the next render; that call takes the guard at `FileList.tsx:37-41` and sets the "configure first" warning. After the re-render, `loadPage` has a new identity and the effect runs again, now with the config, and loads the first page. The model's `FileList.FileListState.constructor` ends with the config read, and the caller's first `LoadPage(None, …)` stands for that re-run; the passing warning of the first render is not modelled.
- Overlapping calls of `loadPage` and `handleInsert` are not modelled, and neither is React's batching of state updates. Each handler is one atomic step, and only the point before its first `await` is exposed (`BeginLoad`, `BeginInsert`).
- `body instanceof ReadableStream` and `transformToWebStream` are not modelled. The choice between them is folded into the `Stream` body variant, and any other body is the `Buffered` blob.
- `localStorage` quota errors are not modelled.
- `encodeURIComponent` throwing on a lone surrogate is not modelled. A Dafny `string` holds only Unicode scalar values, so such input cannot be formed.
- Storage.ParseConfig: accepts only JSON text of the shape `JSON.stringify` writes for a config whose keys were created in the order `accessKeyId`, `secretAccessKey`, `bucketName`, `region`. Other JSON that `JSON.parse` would accept (whitespace, other key orders, extra or missing fields, non-string values) is refused as if it were a syntax error, so Storage.Load is weaker than `loadConfig` on hand-edited slots.
- Json.UnicodeEscape: a `\u` escape naming a surrogate is refused, including a high/low pair that `JSON.parse` would join into one character. `JSON.stringify` never writes such escapes for a Dafny string, so the round trip is unaffected.
- FileList.ErrorText: gives every failure the plain `Error` name, so `e.toString()` with an empty message is the text `Error`; the SDK's `Error` subclasses would print their own `name` (such as `NoSuchKey`). Non-`Error` values thrown by the SDK or the host are not modelled.
- S3Service.RetrieveStream: the `Blob` constructor's normalisation of its `type` option (lower-casing, and the empty type when a character lies outside U+0020–U+007E) is not modelled; the blob keeps the content type as given.
- The `TextDecoder` fatal mode and its `ignoreBOM` option are not used by the add-in and are not modelled.
