# zqs send-message and queue-listing core, in Dafny

This project models the logic of a small command-line tool for a managed
message-queue service (SQS). It covers two source files:

- `helper/sqs.go`, the queue helper:
  - `stringInSlice`, exact or case-insensitive partial name matching;
  - `ListQueues`, which derives each queue's name from its URL, filters by
    name and can look up attributes and tags;
  - `ListQueuesWithAttributes`;
  - `uuidv5`, the deterministic message id;
  - `SendMessages`, which builds one batch request from a list of messages.
- `cmd/sendMessage.go`, the `send-message` command:
  - flag validation;
  - `parseFile`, a whole-file JSON parse with a line-by-line fallback;
  - `Find`, the extension filter over a directory walk;
  - concatenation of per-file payloads in directory mode;
  - resolution of the target queue.

Everything is a pure function. The queue service is a `Sqs.Service` value
with one function field per remote operation. Each operation that talks to
the service returns a `Sqs.Traced` value: the result plus the ordered log of
remote calls it made. So "no per-queue lookup", "exactly one batch call" and
"nothing is sent" are stated directly about that log.

JSON decoding and encoding, the SHA-1 name-based UUID and request-URI
parsing are passed in as function parameters.

The filesystem is a map from paths to nodes. An open file is a `Files.Handle`
with an explicit read cursor. A directory walk is the given sequence of
callback events.

Two behaviours of the code are modelled as written:

- `io.ReadAll` drains the handle before the line-mode fallback creates its
  scanner on the same handle. The fallback therefore sees no lines.
  - For a regular file whose whole content is not one JSON object,
    `parseFile` returns no payloads and no error (`SendMessage.ParseFile`).
  - For a path that is a directory (which `Find` does not exclude), the
    scanner's read fails. `parseFile` then reports that error.
  - The line loop is still modelled and proved on its own
    (`SendMessage.ParseTokens`, `SendMessage.LineModeFromStart`).
- The command collects payloads, resolves the queue and prints its URL.
  It never sends anything: `SendMessage.RunSendMessages` proves that the
  only remote call it can make is the name lookup.

The code has no chunking of messages into batches of ten, no progress
reporting and no per-batch abort. `SendMessages` puts every message into one
batch request, and nothing calls it from the command. The model follows the
code and has none of these.

Directory mode keeps the order of the walk events it is given. `filepath.WalkDir` visits the entries of each directory in lexical order, which is not the same as sorting by full path; the model leaves the order of the events unconstrained.

The list command (`cmd/listQueues.go`) is modelled only as far as the name
filter it hands to the listing (`ListQueuesCmd`). It always passes a non-nil
name list, and `Sqs.EmptyNamesKeepNoQueue` shows that when no `--queue-name`
is given, that empty list keeps no queue. This contradicts the command's own
description, "all queues if no name is provided" (see "## Findings").

Modules: `Outcomes` (results and errors), `Bytes`, `Json`, `Seqs` (filter,
map, split/join), `Strings` (`ToLower`, `Contains`), `Hex`
(`encoding/hex`), `Files` (filesystem, handles, `io.ReadAll`, line scanner,
`filepath.Ext`, walk events), `Sqs` (`helper/sqs.go`), `SendMessage`
(`cmd/sendMessage.go`) and `ListQueuesCmd` (the name filter of
`cmd/listQueues.go`).

## Model

| member | source | states |
|---|---|---|
| Sqs.StringInSlice | helper/sqs.go:35-45 | true exactly when some element equals `sub`, or (with partial matching) contains it ignoring case |
| Sqs.StringInSliceExact | helper/sqs.go:35-45 | When `partialMatch` is false the result is true exactly when `sub` is an element of the list, and for an empty list the result is false whatever `partialMatch` is. |
| Sqs.PartialMatchContains | helper/sqs.go:36-43 | When `partialMatch` is true the result is true exactly when some element, lowered, contains `sub` lowered. |
| Sqs.PartialMatchIgnoresCase | helper/sqs.go:40 | When `partialMatch` is true, searching for `sub` lowered finds exactly what searching for `sub` finds. |
| Strings.ToLower | helper/sqs.go:40 | Every ASCII capital becomes its small letter and every other character stays, so the length is kept and no capital remains. |
| Strings.ToLowerIdempotent | helper/sqs.go:40 | Lowering a lowered string changes nothing. |
| Strings.Contains | helper/sqs.go:40 | The empty string is contained in every string, and a contained string is never longer than its container. |
| Strings.ContainsTrivially | helper/sqs.go:40 | Every string contains the empty string and itself. |
| Sqs.ExactMatchImpliesPartial | helper/sqs.go:36-43 | an exact match is also a partial match |
| Sqs.EmptySubMatchesAnyList | helper/sqs.go:40 | the empty name is a partial match for every non-empty list |
| Seqs.Split | helper/sqs.go:105 | `strings.Split` yields at least one piece, no piece contains the separator, and joining the pieces gives back the input |
| Seqs.SplitJoin | helper/sqs.go:105 | splitting the join of separator-free pieces gives back exactly those pieces |
| Sqs.QueueName | helper/sqs.go:103-106 | the name is the slash-free suffix after the URL's last `/`: the whole URL when there is no `/`, empty when it ends in `/` |
| Sqs.QueueNameUnique | helper/sqs.go:105-106 | those suffix properties determine the name uniquely |
| Sqs.KeptUrlsIsFilter | helper/sqs.go:102-110 | the kept URLs are the in-order filter of the listing by the name test |
| Sqs.NilNamesKeepEveryQueue | helper/sqs.go:108 | a nil name list keeps every URL |
| Sqs.EmptyNamesKeepNoQueue | helper/sqs.go:108 | a non-nil empty name list keeps no URL |
| Sqs.Describe | helper/sqs.go:111-129 | without attributes: name and URL only, and no call; with them: attributes, then tags, are looked up, and the first failure is the result |
| Sqs.Extend | helper/sqs.go:102-131 | One turn of the loop: a dropped URL returns the rest unchanged; a kept URL whose description fails returns that description's error with only that description's calls; a kept URL whose description succeeds makes that description's calls and then the rest's; on success its URL comes in front of the rest's; without lookups it makes no call. |
| Sqs.ListFrom | helper/sqs.go:100-132 | on success the returned URLs are exactly the kept URLs in listing order; without attributes it always succeeds and makes no call |
| Sqs.ListFromInfos | helper/sqs.go:111-129 | each returned queue has its derived name and holds attributes and tags exactly when asked, equal to the service's answers |
| Sqs.ListFromSucceeds | helper/sqs.go:116-129 | with attributes, the listing succeeds iff every kept queue's attribute and tag lookups succeed; otherwise no list is returned |
| Sqs.ListFromCalls | helper/sqs.go:116-129 | every remote call is an attribute or tag lookup of a kept queue |
| Sqs.ListFromAllLookups | helper/sqs.go:116-131 | A successful listing with lookups looked up every kept queue in listing order, attributes before tags, and none of those lookups failed. |
| Sqs.ListFromFirstFailure | helper/sqs.go:116-126 | A failed listing with lookups stops at the first kept queue whose lookup fails: that lookup's error is the result, and the calls are the lookups of the kept queues up to and including that one. |
| Sqs.ListQueues | helper/sqs.go:89-135 | One listing call comes first and a failed listing returns its error; otherwise the returned queues are the kept URLs in order, each with its derived name and, exactly when asked, the service's attributes and tags, and every later call is a lookup of a kept queue. |
| Sqs.ListQueuesWithAttributes | helper/sqs.go:137-142 | equals `ListQueues` with lookups and partial matching, and every returned queue carries attributes and tags |
| Hex.EncodeToString | helper/sqs.go:147 | two lowercase hex digits per byte |
| Hex.DecodeEncode | helper/sqs.go:147 | decoding the hex encoding gives back the bytes |
| Sqs.Uuidv5 | helper/sqs.go:144-148 | exactly 32 lowercase hex digits that decode to the name-based UUID of the input |
| Sqs.Uuidv5Injective | helper/sqs.go:144-148 | two ids are equal iff their UUIDs are |
| Sqs.Entries | helper/sqs.go:158-167 | one entry per message, in order; body is the serialized message, id is `uuidv5` of the body |
| Sqs.EntryIdsAgree | helper/sqs.go:160-166 | equal bodies give equal ids; ids are equal iff the bodies' UUIDs are |
| Sqs.SendMessages | helper/sqs.go:150-176 | no messages: success and no call; otherwise exactly one batch call to the queue with one entry per message, and its outcome is the result |
| Files.Stat | cmd/sendMessage.go:101-132 | Stat, used for both the `--file` and the `--directory` path, fails with the not-exist error exactly when the path is absent, and otherwise tells whether the path is a directory. |
| Files.Open | cmd/sendMessage.go:28-31 | opening fails with the not-exist error exactly when the path is absent, else the handle starts at offset 0 |
| Files.ReadAll | cmd/sendMessage.go:33 | delivers what remains and leaves nothing for a later reader; on a directory it fails and delivers nothing |
| Files.ScanLines | cmd/sendMessage.go:44-46 | the scanner yields the lines of what remains to be read; on a directory it yields none and reports the read error |
| Files.Lines | cmd/sendMessage.go:44-46 | No token holds a newline, and empty input yields no token. |
| Files.LinesOfTerminated | cmd/sendMessage.go:46 | Scanning CR-free, newline-terminated lines gives back exactly those lines. |
| Files.LinesOfUnterminatedLast | cmd/sendMessage.go:46 | A non-empty, CR-free last line without a newline is still scanned as a line of its own, after the terminated ones. |
| SendMessage.ParseTokens | cmd/sendMessage.go:46-57 | succeeds iff every line decodes, giving one payload per line in order tagged with the path; otherwise the first bad line's error |
| SendMessage.ScanAndParse | cmd/sendMessage.go:44-63 | line mode on a regular file is the line loop over the remaining lines; on a directory it is the read error |
| SendMessage.LineModeIsLineLoop | cmd/sendMessage.go:44-57 | On a fresh handle over CR-free, newline-terminated lines, line mode is the line loop over exactly those lines. |
| SendMessage.LineModeFromStart | cmd/sendMessage.go:44-57 | on a fresh handle over a JSON-lines file, line mode gives one payload per line, in order |
| SendMessage.LineModeBadLine | cmd/sendMessage.go:46-51 | on a fresh handle, a line that fails to decode fails the whole file |
| SendMessage.ParseFile | cmd/sendMessage.go:26-64 | a missing path fails; a whole-file object gives exactly one payload; otherwise a regular file gives no payloads and no error (drained handle), and a directory gives the read error; payloads carry the path |
| Files.Ext | cmd/sendMessage.go:72 | `filepath.Ext`: the suffix from the last dot of the final path element, or empty when that element has no dot |
| Files.ExtEmptyIff | cmd/sendMessage.go:72 | The extension is empty exactly when the last path element has no dot. |
| Files.Visits | cmd/sendMessage.go:68-71 | the walk delivers the visits before its first error, and stops there |
| SendMessage.Find | cmd/sendMessage.go:66-78 | never an error; exactly the paths of delivered visits whose name has the extension, in walk order, directories included |
| SendMessage.FindMembership | cmd/sendMessage.go:72-74 | A visited entry, file or directory, with no walk error before it is found when searching for its own extension. |
| SendMessage.ParseEach | cmd/sendMessage.go:140-148 | the loop over files succeeds iff every file parses |
| SendMessage.ParseEachFileNames | cmd/sendMessage.go:140-148 | every collected payload names one of the files |
| SendMessage.ParseEachFirstFailure | cmd/sendMessage.go:141-145 | a failed loop reports the error of the first failing file, with every earlier file parsed |
| SendMessage.ParseEachAppend | cmd/sendMessage.go:140-148 | the loop over `a + b` concatenates the payloads of `a` and of `b`, in order |
| SendMessage.ParseEachStopsAtFailure | cmd/sendMessage.go:141-145 | a failure within `a` is the result for `a + b` |
| SendMessage.ParseAll | cmd/sendMessage.go:140-148 | directory mode succeeds iff every found file parses, and every payload names a found file |
| SendMessage.ValidateInput | cmd/sendMessage.go:87-95 | accepted iff exactly one of `--file` and `--directory` is non-empty; neither and both are distinct errors |
| SendMessage.CollectMessages | cmd/sendMessage.go:97-149 | a missing path fails; file mode rejects a directory; directory mode rejects a regular file; otherwise the file is parsed, or the `.json` entries are parsed in walk order |
| SendMessage.ResolveQueue | cmd/sendMessage.go:151-165 | a string that parses as a request URI is used with no call; otherwise exactly one name lookup, whose answer (or failure) is the result |
| ListQueuesCmd.ListAsWritten | cmd/listQueues.go:22-28 | On success the listed URLs are those kept by the flag values used as a non-nil name list with partial matching. |
| ListQueuesCmd.NoNameListsNothing | cmd/listQueues.go:22-28 | With no `--queue-name` and a successful listing, the command as written returns an empty list, whatever queues the service has. |
| ListQueuesCmd.ListIntended | cmd/listQueues.go:90 | With names given it is the command as written; with none it lists, on success, every URL of the listing in order. |
| ListQueuesCmd.NoNameListsEveryQueue | cmd/listQueues.go:90 | With no `--queue-name`, a successful listing and successful lookups, the intended command succeeds and lists every URL of the listing in order. |
| SendMessage.RunSendMessages | cmd/sendMessage.go:80-168 | input and parse errors end the run with no remote call; otherwise the result is the resolved queue; at most one call, a name lookup, and never a send |

## Left out

- The queue service's operations are network I/O. They are the function
  fields of `Sqs.Service`.
- The service's response bodies are not modelled beyond what the code reads.
  For example, per-entry failures inside a successful batch response are not
  modelled, and the code ignores them too.
- JSON decoding and encoding (`json.Unmarshal`, `json.Marshal`) are
  parameters. The nil map that decoding `null` produces is not distinguished
  from an object. The ignored marshal error is not modelled.
- `uuid.NewSHA1` in the URL namespace, including the string-to-bytes
  conversion, is the parameter `nameUuid`. Only the hex encoding is concrete.
- `url.ParseRequestURI` and `String()` are the parameter `parseRequestUri`.
- Strings.ToLower: lowers ASCII letters only. Go's `strings.ToLower` applies
  Unicode case mapping (so `'É'` becomes `'é'` there and stays here); that is
  not modelled.
- Files.ScanLines: `bufio.Scanner`'s 64 KiB token limit (`ErrTooLong`) is not
  modelled. It matters only where a fresh handle is scanned
  (`SendMessage.LineModeFromStart` and its neighbours); the handle that
  `parseFile` scans has already been drained.
- Stat errors other than not-exist (which crash the source on a nil
  `statInfo`), permission errors on open, and closing files are not modelled.
- `filepath.WalkDir`'s traversal is the given event sequence. The
  filesystem map is not used to derive it.
- Process exit, coloured logging, flag registration, AWS configuration
  loading, and the tree rendering of the list command are not modelled.
- Files.Lines: the contract states only that tokens hold no newline and
  that empty input has none. The exact tokens are pinned down by
  `Files.LinesOfTerminated` and `Files.LinesOfUnterminatedLast` for CR-free
  lines; lines that end in a carriage return are not characterised beyond
  the single CR that `DropCR` removes.
- SendMessage.ParseFile: for a directory, the result is stated only when the
  decoder rejects empty input, as `json.Unmarshal` does.

## Findings

| source | as written | input that shows it | evidently intended | confidence | as-written member | corrected member |
|---|---|---|---|---|---|---|
| cmd/listQueues.go:28 | the flag's slice is passed by address, so the name filter is never nil, and with no `--queue-name` the empty list keeps no queue | no `--queue-name`, and a service listing one queue `https://sqs/q` with working lookups: the result is an empty list | "all queues if no name is provided" (cmd/listQueues.go:90): pass a nil filter when no name is given | high, by reading; not executed | ListQueuesCmd.NoNameListsNothing | ListQueuesCmd.NoNameListsEveryQueue |
