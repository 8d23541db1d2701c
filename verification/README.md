# Upload admission for a time-lock-gated IPFS service

This project models the core of an IPFS upload service. The service admits a
file into its IPFS node only after the client shows a YAC ledger transaction
that locked 10 YAC (10000000 minor units) for 20 blocks. The transaction must
be at most one day old, and it must not have paid for an earlier upload.
The model covers the two request handlers of `index.js`:

- `POST /api/add_ipfs_content` is an ordered pipeline that stops at the first
  failed check:
  1. the uploaded file is present;
  2. the content's CIDv0 is not already pinned;
  3. the transaction is fetched from the explorer;
  4. no TimelockInfo record holds the transaction yet;
  5. the transaction is fresh;
  6. some output carries the exact lock amount and period;
  7. the content is pinned and one `{tx, ipfs_cidv0, ipfs_cidv1}` record is saved.
- `POST /api/is_content_existed` is a read-only query of the pin set.

Each handler is a pure step function. It maps the state and the collaborators'
answers to a `Response`. The state is the set of CIDv0s that `ipfs.pin.ls`
reports as pinned, directly or as inner blocks, plus the sequence of lock records. A `Response` holds:
- the exit the handler took (`outcome`, with the HTTP status of its answer given by `Domain.Status`);
- whether that answer reached the client;
- whether the temp file was unlinked;
- whether the handler threw an exception that nothing catches;
- the next state;
- the calls made to external collaborators, in order.

Each handler is written once, over how it removes the temp file
(`Admission.AddIpfsContent`, `Admission.IsContentExisted`). `Admission.Admit`
and `Admission.CheckExistence` are the code as written. `Admission.AdmitIntended`
and `Admission.CheckExistenceIntended` are the same handlers with an unlink that
works (see "## Findings").

The collaborators are inputs gathered in `Domain.Env`:
- kubo's content hashing, as an arbitrary function from bytes to a `(v0, v1)` CID pair;
- the CIDv0s of the inner blocks of the DAG that `ipfs.add` builds for the bytes;
- whether the pin listing threw;
- the explorer's answer, either `Unavailable` or the transaction's timestamp and outputs;
- the current time in whole seconds;
- whether `TimelockInfo.findOne` throws;
- whether `ipfs.add` or `save` throws.

The model keeps these behaviours of the code:
- `fs` is the callback API (index.js:10). Every `fs.unlink(filePath)` call
  (index.js:143, 161, 174, 195, 212, 255) passes no callback. Such a call throws
  a TypeError before unlinking anything, so no exit ever removes the temp file.
  - The rejections after the duplicate check write their answer first, so the
    client gets it and the handler then throws.
  - An admission throws after the pin and the record are committed but before
    `res.json`, so the client never receives the CIDs.
  - The existence check throws before sending its verdict.
- The duplicate-content rejection has no unlink call at all.
- An exception nothing catches ends the process: the `unhandledRejection`
  handler refers to a `server` that is not in scope (index.js:278-290). The
  model records only that the handler threw. Such exceptions are:
  - a missing `timelocktx` field, read as `fields.timelocktx[0]` on `undefined`
    after the duplicate check;
  - a throwing `findOne`, `ipfs.add` or `save`;
  - the unlink calls above.
- The explorer is queried before the database lookup.
- An explorer reply with an error status, or no reply, makes `axios.get` throw,
  and the handler answers 500. How the explorer reports an unknown transaction
  is outside the code. A 2xx reply without `tx` is the unexpected-shape case
  left out below.
- `ipfs.add` pins recursively, and `pin.ls` with its default type `all` also
  reports the indirectly pinned inner blocks. So an upload whose CIDv0 is an
  inner block of admitted content reads as existed.
- The code checks neither that a transaction reference was given nor that the
  stored CID equals the hash-only one. In the model the same hash function
  gives both CIDs.
- If `save` throws after `ipfs.add` succeeded, the content's DAG stays pinned with no record.

Single use of a lock transaction holds only for sequential runs.
`AdmissionProperties.RunPreservesTxUnique` and
`AdmissionProperties.ConsumedTxNeverAdmitted` prove it for a run of requests
handled one after another. The state lives in IPFS and the database, so it
survives the process exits. The `tx` index of the TimelockInfo schema is not
unique (`models/timelockInfo.js:5`), so the lookup in the handler is the only
guard. `Admission.AdmitIntended` has the same state effects as
`Admission.Admit`, so these results hold for the corrected handler too.

## Model

| member | source | states |
|---|---|---|
| Domain.Status | index.js:100-256 | An exit's answer is 200 only for an admission, an existence verdict or a parser-supplied 200. It is 500 only for a ledger fetch failure or a parser-supplied 500. An exit that throws before deciding has no answer. |
| Store.IsFileExisted | index.js:56-74 | Content counts as existing only if its hash-only CIDv0 is pinned. A pin listing that throws reads as "not existed". |
| Store.AddFile | index.js:76-85 | After `addFile`, the same bytes read as existed to `isFileExisted`, and so does any content whose CIDv0 is an inner block of their DAG. The returned CIDs are those of the hash `isFileExisted` computes. Nothing outside the content's DAG is pinned, and nothing is unpinned. |
| Store.FindByTx | index.js:150 | `findOne({ tx })` finds nothing exactly when no record holds the reference. Otherwise it returns the earliest record holding it. |
| Policy.HasTimelockUtxo | index.js:179-185 | The lock proof holds exactly when some output matches the policy in both amount and lock period. |
| Policy.ScanVouts | index.js:179-185 | The `for`/`break` scan reports a match exactly when some output matches, and stops at the first matching output. |
| Policy.FreshnessIsAgeBound | index.js:165-168 | A transaction is fresh exactly when it is at most 86400 seconds old. A timestamp of exactly `now - 86400` passes, and one second older fails. |
| Policy.ExactMatchOnly | index.js:181 | A single output with amount 10000000 and locktime 20 proves the lock. One with the right amount and any other period, the right period and any other amount, or no lock information proves nothing. |
| Admission.AddIpfsContent | index.js:88-214 | Records are only ever appended, at most one per request. Pins only grow, by at most the uploaded content's DAG (its root CIDv0 and inner blocks). A new record binds the request's reference, and no earlier record holds that reference. The file is unlinked only by an unlink that works. |
| Admission.Commit | index.js:199-213 | The commit adds at most one record and pins at most the content's DAG. A new record is `{tx, cidv0, cidv1}` of the content, with an `Added` exit. An answer is sent only by an admission with a working unlink. |
| Admission.Admit | index.js:88-214 | As written, no exit unlinks the temp file. No admission is answered: its handler throws. Every answer the client gets carries a status. |
| Admission.AdmitIntended | index.js:88-214 | With a working unlink, the handler takes the same exits with the same state effects as written. Every exit but an uncaught exception answers. An admission answers, unlinks and does not throw. |
| Admission.IsContentExisted | index.js:238-256 | Never changes the state. With a file, the verdict is true exactly when the CIDv0 is pinned and the listing did not throw. Without a file, it answers 400. |
| Admission.CheckExistence | index.js:238-256 | As written, the existence check never unlinks. With a file, it throws in `fs.unlink` before sending its verdict. |
| Admission.CheckExistenceIntended | index.js:238-256 | With a working unlink, the existence check answers every request, with the same verdict as written. It unlinks the file of every request that has one. |
| Admission.FormErrorStatus | index.js:100 | A failed parse answers the parser's `err.httpCode`, or 400 when that code is missing or 0. The status is never 0. |
| AdmissionProperties.FormErrorTouchesNothing | index.js:97-106 | A failed multipart parse answers the parser's code, or 400 when it gives none or 0. It makes no call, changes no state and does not unlink. |
| AdmissionProperties.MissingFileRejectedFirst | index.js:109-116 | A missing file is answered 400 before any hash, ledger or database call. The state is unchanged. |
| AdmissionProperties.DuplicateRejectedBeforeLedger | index.js:119-127 | Pinned content is answered 400 after only the hash and the pin listing. There is no ledger call, no state change and no unlink. |
| AdmissionProperties.DuplicateIgnoresLaterInputs | index.js:119-135 | The duplicate verdict is the same whatever the transaction field, the ledger answer, the clock, the database or the commit behaviour. |
| AdmissionProperties.MissingTxFieldCrashes | index.js:129-130 | With no `timelocktx` field and new content, the handler throws. There is no answer, no unlink, no state change and no ledger call. |
| AdmissionProperties.LedgerFailureIs500 | index.js:133-145 | An explorer failure is answered 500 before any database call, and nothing is pinned or recorded. The unlink that follows throws, so the file stays. |
| AdmissionProperties.LookupFailureCrashes | index.js:150 | A `findOne` that throws ends the handler after the ledger call and the lookup. There is no answer, no unlink and no state change. |
| AdmissionProperties.ReusedTxRejected | index.js:148-163 | A reference already bound is answered 400, reporting the CIDv0 of the earliest record that holds it. The state is unchanged, and the unlink that follows throws. |
| AdmissionProperties.FreshnessDecides | index.js:165-176 | After the reuse check, the request is refused as too old exactly when `timestamp < now - 86400`. That refusal is answered 400 and changes nothing, and its unlink throws. |
| AdmissionProperties.LockProofDecides | index.js:178-197 | A fresh, unused transaction is refused exactly when no output has both amount 10000000 and locktime 20. That refusal is answered 400 and changes nothing, and its unlink throws. |
| AdmissionProperties.AdmittedIff | index.js:199-213 | A request is admitted exactly when every check passes and both commit calls succeed. It then pins the content's DAG and appends exactly one record `{tx, cidv0, cidv1}`. The unlink then throws, so nothing is answered or unlinked. |
| AdmissionProperties.IntendedAdmissionAnswers | index.js:199-213 | With a working unlink, an admitted request is answered 200 with the content's CIDs, and its file is unlinked. |
| AdmissionProperties.RejectionsChangeNothing | index.js:110-209 | Every exit except admission and a failed `save` leaves pins and records unchanged. A failed `save` leaves the content's DAG pinned with no record. |
| AdmissionProperties.AsWrittenExits | index.js:110-212 | As written, no exit unlinks. The client is answered exactly on the parse, presence and duplicate rejections and on the four later rejections. The handler throws exactly on the later rejections, on admission and on the uncaught exceptions: a missing `timelocktx` field, or a throwing `findOne`, `ipfs.add` or `save`. |
| AdmissionProperties.IntendedReleasedExits | index.js:110-212 | With a working unlink, the file is unlinked exactly on the four later rejections and on admission. Every exit but an uncaught exception answers. |
| AdmissionProperties.LedgerBeforeLookup | index.js:120-150 | Every database lookup comes after a ledger call for the same reference. Every collaborator call sequence starts with the hash and the pin listing. |
| AdmissionProperties.ExistenceMatchesDuplicateCheck | index.js:249-256 | The verdict computed at index.js:249 is true exactly when the admission handler would refuse the same upload as a duplicate. As written it is never sent; with a working unlink it is. |
| AdmissionProperties.AdmittedContentIsDuplicate | index.js:76-127 | After an admission and any sequential run, a re-upload of the same bytes is refused as a duplicate whenever the pin listing works. |
| AdmissionProperties.InnerBlockIsDuplicate | index.js:56-85 | After an admission and any sequential run, an upload whose CIDv0 is an inner block of the admitted content's DAG is refused as a duplicate whenever the pin listing works. |
| AdmissionProperties.Run | index.js:150-209 | Over a sequential run, records are only appended, at most one per request, and pins only grow. |
| AdmissionProperties.AdmitPreservesTxUnique | index.js:150-209 | If no two records share a reference before a request, none do after it. |
| AdmissionProperties.RunPreservesTxUnique | index.js:150-209 | Reference uniqueness across records holds through any sequential run of requests. |
| AdmissionProperties.RunFromEmptyTxUnique | index.js:150-209 | Starting from an empty collection, no sequential run ever binds a reference twice. |
| AdmissionProperties.ConsumedTxNeverAdmitted | index.js:150-163 | After a reference is admitted, no later request in any sequential run is admitted with it. A later request that reaches the reuse check is refused there. |

## Findings

| source | as written | input that shows it | evidently intended | confidence | as-written member | corrected member |
|---|---|---|---|---|---|---|
| index.js:143-212 | `fs.unlink(filePath)` from the callback API, with no callback, throws a TypeError before unlinking. The rejections after the duplicate check answer, then throw and keep the file. An admission commits pin and record, then throws before `res.json`, so the CIDs are never sent. | New content, with a fresh, unused transaction that has a `(10000000, locktime 20)` output, and every collaborator succeeding. | Unlink the temp file, then answer 200 with `{cidv0, cidv1}`. The rejections unlink after answering. | high; not executed | Admission.Admit | Admission.AdmitIntended |
| index.js:255-256 | The existence check's callback-less `fs.unlink` throws before `res.json({ status })`. The verdict is never sent and the file stays. | Any request carrying a file. | Unlink the file and answer `{ status: isExisted }`. | high; not executed | Admission.CheckExistence | Admission.CheckExistenceIntended |

`AdmissionProperties.AsWrittenExits` and `AdmissionProperties.AdmittedIff`
exhibit the first discrepancy, and `AdmissionProperties.IntendedReleasedExits`
and `AdmissionProperties.IntendedAdmissionAnswers` prove the intended
behaviour. `AdmissionProperties.ExistenceMatchesDuplicateCheck` does both for
the second. The duplicate rejection (index.js:121-127) has no unlink call, so
it keeps the file in both variants.

## Left out

- HTTP wiring: Express routing, CORS, morgan logging, body and cookie parsers, the 404 fallback, the error middleware and the process signal handlers (index.js:39-54, 259-300). These are framework plumbing. An uncaught exception is modelled only as `threw`, with no answer; the process exit it causes is not modelled.
- Multipart parsing (formidable), including the 1 MiB size limit. A failed parse is an opaque `FormError` carrying the parser's HTTP code. A `timelocktx` field given as an empty array is not modelled, because the parser always yields at least one value for a field it reports.
- kubo internals: CID computation and the CIDv0 to CIDv1 conversion are one uninterpreted function, and the DAG's inner blocks another. Chunking and DAG layout are not modelled. A throwing hash-only `ipfs.add` is not modelled.
- The explorer HTTP call: it is reduced to `Unavailable` or a transaction. A reply of an unexpected shape (a 2xx reply without `tx`, which throws at index.js:166, missing or non-numeric timestamp, fractional amount) is not modelled, so timestamps and amounts are integers.
- mongoose: the connection and schema are left out. Only the record's field names are kept. A failing `findOne` is one opaque fault.
- Concurrency: the window between the lookup (index.js:150) and the save (index.js:209) cannot be expressed in a sequential model. Two overlapping requests with one reference can both be admitted.
- The clock: `Date.now()` is the integer parameter `now`, already floored to seconds. The float constant `10 * 1e6` is the integer 10000000.
- Message text, including the `/ 1e6` display of the amount, and debug logging.
