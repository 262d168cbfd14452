# SupabaseUpsert: a verified model of the per-item upsert

The SupabaseUpsert node uploads CSV attachments to a Supabase table through
the PostgREST gateway. For every input item it reads the item's parameters
and checks its named binary attachment. It then builds a header map whose
`Prefer` header carries the conflict policy, and POSTs the bytes to
`<host>/rest/v1/<table>`. The node records either the response (with a
`rowsAffected` count) or the error. A failure either becomes an error record
(continue-on-fail) or ends the run, naming the failing item.

The model has six modules:

- `Wrappers` (wrappers.dfy): `Option`.
- `Json` (json.dfy): the JSON values a response can hold.
- `Text` (text.dfy): JavaScript's `String.prototype.trim`, over an explicit
  whitespace set. The set is TAB, LF, VT, FF, CR, SPACE, NBSP, the Unicode
  space separators (U+1680, U+2000 to U+200A, U+202F, U+205F, U+3000),
  U+2028, U+2029 and U+FEFF: the WhiteSpace and LineTerminator code points
  of ECMAScript.
- `Request` (request.dfy): the header map, the `Prefer` value and the URL, all as
  functions. The `Prefer` value is a comma-joined preference list in the list
  form of section 2 of RFC 7240. Two readers are modelled:
  - `ParsePrefer` decodes exactly what the node renders. The columns after
    `,on-conflict=` run to the end of the value, commas included. Its round
    trip with the rendering shows that the header loses nothing of the mode
    and the conflict target.
  - `SplitList` is a plain split at every comma. It keeps whitespace and
    ignores quoting, so it agrees with the list rule of section 7 of
    RFC 7230 only for values whose elements are tokens with no whitespace
    next to a comma and no quote, such as `resolution=merge-duplicates,on-conflict=ID,email`.
    Under it, a target of several columns falls apart into separate
    elements.
- `Upsert` (upsert.dfy): the specification of a run. `ProcessItem` is what one
  pass of the loop body does to item `i`. `RunSteps` folds the per-item steps
  with the continue-on-fail / abort policy. `Execution` is the whole run. The
  lemmas about `RunSteps` hold for any sequence of steps.
- `Node` (node.dfy): the node's code in imperative form. `UpsertItem` is the
  `try` block, including the in-place `headers['Prefer'] += …`. `Execute` is
  the `for` loop that appends to `returnData`. Both are proved equal to the
  specification. Then come the properties of a run, stated on the host's
  inputs.

The host's services are inputs in a `Host` value:
- the stored credential (`None` when it cannot be read);
- the input items with their binary attachments;
- the parameter values per item index;
- the HTTP transport, as a function from item index and request to
  `Ok(response)` or `Err(message)`;
- the continue-on-fail setting.

`Execute` also returns the log of requests it handed to the transport, so
"no request without an attachment" and "no request after the abort" can be
stated.

## Model

| member | source | states |
|---|---|---|
| Text.TrimStart | nodes/SupabaseUpsert/SupabaseUpsert.node.ts:173-174 | the result is a suffix of the input that does not start with whitespace, and everything dropped is whitespace |
| Text.TrimEnd | nodes/SupabaseUpsert/SupabaseUpsert.node.ts:173-174 | the result is a prefix of the input that does not end with whitespace, and everything dropped is whitespace |
| Text.Trim | nodes/SupabaseUpsert/SupabaseUpsert.node.ts:173-174 | `trim()` never lengthens its input, and a non-empty result starts and ends with non-whitespace |
| Text.TrimEmptyIff | nodes/SupabaseUpsert/SupabaseUpsert.node.ts:173 | `onConflictColumns.trim()` is empty (falsy) exactly when the field is whitespace only |
| Text.TrimStartOfPadded | nodes/SupabaseUpsert/SupabaseUpsert.node.ts:173-174 | leading whitespace before a text that starts with non-whitespace is removed and nothing else |
| Text.TrimEndOfPadded | nodes/SupabaseUpsert/SupabaseUpsert.node.ts:173-174 | trailing whitespace after a text that ends with non-whitespace is removed and nothing else |
| Text.TrimOfPadded | nodes/SupabaseUpsert/SupabaseUpsert.node.ts:173-174 | trimming `w1 + t + w2` (whitespace around a text with non-whitespace ends) gives exactly `t`: only the ends of the whole field go, inner text such as `id, email` is kept verbatim |
| Text.TrimIdempotent | nodes/SupabaseUpsert/SupabaseUpsert.node.ts:173-174 | a property of trim alone: trimming a trimmed value changes nothing (the code trims the raw field at both lines, never a trimmed one) |
| Request.OnConflictTarget | nodes/SupabaseUpsert/SupabaseUpsert.node.ts:173-174 | there is no conflict target exactly when the columns field is whitespace only; otherwise the target is the non-empty trimmed field |
| Request.PreferValue | nodes/SupabaseUpsert/SupabaseUpsert.node.ts:169-175 | `Prefer` is `resolution=<mode>` when the trimmed columns are empty, and `resolution=<mode>,on-conflict=<trimmed columns>` otherwise |
| Request.ParseRender | nodes/SupabaseUpsert/SupabaseUpsert.node.ts:169-174 | a preference list rendered as the node does decodes back to the same mode and conflict target, whenever the mode has no comma: the rendering is injective in (mode, target) |
| Request.RenderParse | nodes/SupabaseUpsert/SupabaseUpsert.node.ts:169-174 | every value the decoder accepts is exactly the rendering of what it decodes, so the decoder and the rendering are inverse |
| Request.PreferRoundTrip | nodes/SupabaseUpsert/SupabaseUpsert.node.ts:169-175 | the `Prefer` value the node sends decodes back to its mode and its conflict target (none for a blank field), whenever the mode has no comma |
| Request.OfferedModesRoundTrip | nodes/SupabaseUpsert/SupabaseUpsert.node.ts:105-116 | both offered modes, `merge-duplicates` and `ignore-duplicates`, survive that round trip for any columns field |
| Request.SplitListAfter | nodes/SupabaseUpsert/SupabaseUpsert.node.ts:169-174 | a plain comma split cuts a value at its first comma and goes on cutting the rest (whitespace kept, quoting ignored) |
| Request.ListReaderSplitsTarget | nodes/SupabaseUpsert/SupabaseUpsert.node.ts:173-174 | for a two-column target `c1,c2` (the shape of the `ID,email` placeholder at line 131), a split at every comma gives three elements: `resolution=<mode>`, `on-conflict=c1` and a bare `c2`; for token columns without whitespace or quotes these are also the RFC 7230 list elements |
| Request.Headers | nodes/SupabaseUpsert/SupabaseUpsert.node.ts:164-170 | the header map has exactly the keys `apikey`, `Authorization`, `Content-Type`, `Accept`, `Prefer`; `apikey` is the key, `Authorization` is `Bearer=` followed by the `apikey` value, the content type is `text/csv`, `Accept` is `application/json` and `Prefer` is the given value |
| Request.HeadersWithPrefer | nodes/SupabaseUpsert/SupabaseUpsert.node.ts:174 | overwriting `Prefer` in the header map gives the map built with the new value: no other header is touched |
| Request.AuthorizationNotBearerScheme | nodes/SupabaseUpsert/SupabaseUpsert.node.ts:166 | the `Authorization` value never starts with `Bearer ` (the scheme of section 2.1 of RFC 6750): its seventh character is `=` |
| Request.RequestUrl | nodes/SupabaseUpsert/SupabaseUpsert.node.ts:178 | the URL is the host, then `/rest/v1/`, then the table name unmodified, in that order and nothing else |
| Request.RequestUrlInjective | nodes/SupabaseUpsert/SupabaseUpsert.node.ts:178 | under one host, different table names give different URLs |
| Request.BuildRequest | nodes/SupabaseUpsert/SupabaseUpsert.node.ts:164-185 | in terms of the credential: a POST whose body is the attachment bytes unchanged, to `<host>/rest/v1/<table>`; exactly the five headers, with `apikey` the service key and `Authorization` `Bearer=` followed by the service key; `Prefer` is `resolution=<mode>` for a blank columns field and `resolution=<mode>,on-conflict=<trimmed columns>` otherwise |
| Upsert.RowsAffected | nodes/SupabaseUpsert/SupabaseUpsert.node.ts:192 | `rowsAffected` is the array length for an array response and 1 for any other response; it is 0 only for the empty array |
| Upsert.ProcessItem | nodes/SupabaseUpsert/SupabaseUpsert.node.ts:152-185 | an item is skipped exactly when the operation is not the CSV upsert; a request is built exactly when the attachment is present, and it is the item's own request; a missing attachment fails with its property name; a success is the transport's `Ok` response for that request; a request failure carries the transport's message |
| Upsert.StepJson | nodes/SupabaseUpsert/SupabaseUpsert.node.ts:187-205 | a record is a success exactly when the item's request succeeded; a success names the table, holds the response and counts rows per `RowsAffected`; a failure record carries the failure |
| Upsert.Advance | nodes/SupabaseUpsert/SupabaseUpsert.node.ts:187-208 | one item's effect on a run still going: a skipped item changes nothing; a success, or a failure under continue-on-fail, appends record `i` holding the step's JSON and keeps the run going; a failure without continue-on-fail ends the run with `Aborted(i, failure)`; a request built for the item is appended to the log, tagged `i`, and the log is otherwise unchanged. `OutputFollowsSteps`, `SentFollowsSteps` and `AbortAtFirstFailingStep` lift this to whole runs |
| Upsert.RunSteps | nodes/SupabaseUpsert/SupabaseUpsert.node.ts:151-210 | the `for` loop as a fold of `Advance` that stops at the first abort: it never reports missing credentials, an abort names one of the first `n` items, and at most `n` requests go out. `AbortIsFinal`, `OneRecordPerStep`, `AbortAtFirstFailingStep` and `RequestedItems` carry its other properties |
| Upsert.Execution | nodes/SupabaseUpsert/SupabaseUpsert.node.ts:138-213 | the whole `execute`: the run ends in `NoCredentials` exactly when the credential read at line 143 finds none, and then nothing is sent; otherwise it is `RunSteps` over every item, so an abort names an input item, at most as many requests as items go out, and they go out in strictly increasing item order, so at most one per item. `Node.Execute`, `Node.OneRecordPerItem`, `Node.AbortAtFirstFailure` and `Node.RequestsIssued` state the rest |
| Upsert.AbortIsFinal | nodes/SupabaseUpsert/SupabaseUpsert.node.ts:208 | once the run has thrown, later items change nothing |
| Upsert.AbortEndsRun | nodes/SupabaseUpsert/SupabaseUpsert.node.ts:197-208 | without continue-on-fail, the first failure decides the result of the whole run |
| Upsert.OneRecordPerStep | nodes/SupabaseUpsert/SupabaseUpsert.node.ts:187-206 | with no skipped item, a run that has not aborted (always so with continue-on-fail) has record `k` for every `k`, tagged `k` and holding item `k`'s result |
| Upsert.AbortAtFirstFailingStep | nodes/SupabaseUpsert/SupabaseUpsert.node.ts:197-208 | without continue-on-fail, the run aborts exactly when some step fails; it then names the first failing item and that item's failure |
| Upsert.OutputFollowsSteps | nodes/SupabaseUpsert/SupabaseUpsert.node.ts:187-205 | records are in strictly increasing item order, and each holds the result of the item it is tagged with |
| Upsert.SentFollowsSteps | nodes/SupabaseUpsert/SupabaseUpsert.node.ts:151-185 | requests go out in strictly increasing item order, and each is the one its item's step built |
| Upsert.RequestedItems | nodes/SupabaseUpsert/SupabaseUpsert.node.ts:151-210 | an item gets a request exactly when its step builds one and the run has not aborted on an earlier item |
| Upsert.SkippedStepsDoNothing | nodes/SupabaseUpsert/SupabaseUpsert.node.ts:153 | when every step is skipped, the output is empty and nothing is sent |
| Node.UpsertItem | nodes/SupabaseUpsert/SupabaseUpsert.node.ts:154-185 | the `try` block (attachment check, literal header map, in-place `Prefer` extension, URL, POST) does exactly what `ProcessItem` specifies for that item |
| Node.Execute | nodes/SupabaseUpsert/SupabaseUpsert.node.ts:138-213 | the loop's output (or abort) and its request log are exactly those of `Execution`, the specified run |
| Node.OneRecordPerItem | nodes/SupabaseUpsert/SupabaseUpsert.node.ts:151-207 | with the CSV upsert selected and a run that completes (always so with continue-on-fail), there is one record per input item; record `k` is tagged `k`, is a success exactly when item `k`'s upsert succeeded, and otherwise carries item `k`'s failure |
| Node.AbortAtFirstFailure | nodes/SupabaseUpsert/SupabaseUpsert.node.ts:197-208 | without continue-on-fail, the run aborts exactly when some item fails; it names the first failing item and its failure, and no request goes out for any later item |
| Node.RequestsIssued | nodes/SupabaseUpsert/SupabaseUpsert.node.ts:151-185 | every request sent is the one built from its item's parameters and attachment; requests go out in item order; item `i` gets one exactly when the CSV upsert is selected, item `i` has its attachment and the run has not aborted earlier |
| Node.NoRequestWithoutBinary | nodes/SupabaseUpsert/SupabaseUpsert.node.ts:160-180 | an item without its named attachment never reaches the transport |
| Node.RecordsMatchItems | nodes/SupabaseUpsert/SupabaseUpsert.node.ts:187-195 | records are tagged with input items in increasing order; a success record names its item's table, holds the transport's response to its item's request, and counts rows per `RowsAffected` |
| Node.OtherOperationDoesNothing | nodes/SupabaseUpsert/SupabaseUpsert.node.ts:148-153 | when `resource`/`operation`, read at index 0, are not `csvData`/`upsert`, the output is empty and no request is made |
| Node.SingleItemScenario | nodes/SupabaseUpsert/SupabaseUpsert.node.ts:151-195 | one item with its attachment, answered by a one-element array: the output is that item's success record with one row affected, and the only request is the one built for it |

## Left out

- The `description` object (nodes/SupabaseUpsert/SupabaseUpsert.node.ts:11-136) is a parameter and UI schema that the host renders. Only the two `conflictResolution` values it offers appear, as the constants `MergeDuplicates` and `IgnoreDuplicates`.
- credentials/SupabaseApi.credentials.ts is not part of this model. It is a declarative descriptor: the host applies its header template and runs its GET probe. Its credential name (`supabaseApi`) differs from the name the node asks for (`test_SupabaseApi`, line 143). That is wiring outside the node's code. The model's `Host.credentials` is simply present or absent, and absence ends the run before any item (`NoCredentials`).
- The HTTP helper, `getBinaryDataBuffer`, `getCredentials` and `async`/`await` are host calls. The transport is the input function `Host.transport`; a non-2xx status or a network error is its `Err(message)`. The attachment is read as the bytes stored under the property name. A failure while reading the buffer, separate from the attachment being absent, is not modelled.
- The CSV body is opaque bytes, passed through unchanged.
- Numbers in a response are kept as integers (`Json.JNum(n: int)`), whereas a parsed JavaScript response holds IEEE doubles such as `1.5`. The node only passes the response through and tests it with `Array.isArray`, so no computed behaviour depends on this.
- Error texts: the model keeps the kind of failure (`MissingBinary` with the property name, or `RequestFailed` with the transport's message) rather than the host's message strings. The error record's `error: error.message` is the `Failure` value.
- `NodeOperationError` is modelled as `Aborted(itemIndex, failure)`: the failing item's index and its failure. The node description object it also carries is not modelled.
- An abort returns no records. The throw at nodes/SupabaseUpsert/SupabaseUpsert.node.ts:208 skips the `return [returnData]` at line 212, so records pushed for earlier items are lost, and `Aborted` carries no output. The model follows the code here, not the idea that partial results stand.
- Errors raised while evaluating a parameter expression (`getNodeParameter`) are not modelled: parameters are plain values per item index.
- `continueOnFail()` is called on each failure in the code. The model reads one flag per run, which assumes the host answers the same way every time.
- `conflictResolution` is kept as an arbitrary string, as the code passes whatever the parameter holds. The node offers only two values.
- Text.Trim: it works on Unicode scalar values, whereas JavaScript strings are UTF-16 code units. Every whitespace character is in the Basic Multilingual Plane, so the two agree except on unpaired surrogates, which are not modelled.
- The return value `[returnData]` is modelled as the single output list in `Completed(output)`. Records carry the `success` flag as the `Upserted`/`Failed` constructor (`RecordJson.Success`).
