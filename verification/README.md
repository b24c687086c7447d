# ZCertify admin bulk issuance, modelled in Dafny

ZCertify is a browser front end for issuing and verifying digital badges
against a remote issuing service. Its one piece of original logic is on the
admin page (`src/components/Admin.jsx`). An administrator signs in by matching
two build-time settings. They then drop a CSV file of recipients, and the page
issues one badge per row, in order. The batch stops at the first row that
fails. If every row succeeds, the page downloads the rows as a CSV file with a
"Badge URL" column added.

This project models that page as pure functions:

- `AsciiText` (`ascii_text.dfy`): `trim`, `toLowerCase` and prefix tests, restricted to ASCII.
- `FileType` (`file_type.dfy`): the MIME gate `^text/(csv|plain)$`.
- `Columns` (`columns.dfy`): the required-column check. A header matches a
  required name when both are equal after trimming and lower-casing.
- `BadgeClass` (`badge_class.dfy`): the rewrite of a leading `http:` to `https:`.
- `Issuance` (`issuance.dfy`): one row's step, and the batch as a fold over the rows.
  The remote service is an oracle, a function from a row's index to `Ok(badgeId)` or `Err(message)`.
  The batch records the request body sent for each call.
- `Uploader` (`uploader.dfy`): the whole drop handler. The parser's output is an
  input: its errors, its header row and its records. The result is
  `Rejected(reason)`, `Stalled` (no file was accepted: no call is made and
  loading stays on), `Aborted(rowName, message, calls)` or
  `Done(fields, rows, summary, calls)`.
- `Session` (`session.dfy`): login, sign-out and the effect of a drop on the
  page state. The page offers each action only in the view that shows it, and
  the sign-in button is disabled while loading.

Behaviour kept as the code has it:

- **Lenient validation, exact lookups.** Validation ignores case and surrounding
  whitespace, but the row lookups use the exact keys "Badge Class", "Name" and
  "Email Address". Headers such as `badge class` therefore pass validation.
  Each request field whose header is not spelled exactly is then sent
  undefined (`Issuance.CallsFollowRows`). When the "Badge Class" header is not
  spelled exactly, the first row fails only after its call, when
  `undefined.replace` throws (`Uploader.ExactKeyMissingFailsAfterCall`). All
  three fields are undefined only when no header is spelled exactly
  (`Uploader.ValidatedFileCanStillFail`).
- **The issuance error wins.** A row's issuance call comes before its Badge
  Class lookup, so a service error takes precedence over a missing key.
- **The row-naming error is replaced.** On an abort, the loop first sets
  "Error processing row for <Name>: <message>". It then rethrows, and the outer
  handler sets "Error processing CSV: <message>". The page keeps the last
  message set (`Uploader.DisplayedError`). A missing "Name" key appears as the
  text `undefined`.
- **A failed drop keeps the old summary.** The summary is replaced only on
  success, so the summary from an earlier drop stays on screen beside the new error.
- **A drop with no accepted file hangs.** The type gate lets a missing file
  through, and the parser is then handed `undefined` and throws before its
  completion callback runs. The error stays cleared, no issuance call is made,
  and `loading` stays on until the next drop. A sign-out in that state leaves
  the sign-in button disabled.
- **An unset setting blocks every login.** If either admin setting is undefined
  in the build, no entered string equals it.

## Model

| member | source | states |
|---|---|---|
| `FileType.Admits` | src/components/Admin.jsx:90-95 | a file passes the gate exactly when it is absent or its type is exactly `text/csv` or `text/plain` |
| `FileType.OtherSpellingsRejected` | src/components/Admin.jsx:91 | the match is case-sensitive, anchored and takes no parameters: `text/CSV`, `text/csv;charset=utf-8`, the Excel type and the empty type are refused |
| `AsciiText.TrimKeepsMiddle` | src/components/Admin.jsx:120 | `trim` keeps the middle of the string that starts after its leading whitespace, and only whitespace lies on either side of it |
| `AsciiText.TrimEmptyIffAllSpace` | src/components/Admin.jsx:120 | `trim` gives the empty string exactly when the string is all whitespace |
| `AsciiText.TrimPadded` | src/components/Admin.jsx:120 | trimming any whitespace padding around a trimmed, non-empty string gives exactly that string back |
| `Columns.SomeHeaderMatchesIff` | src/components/Admin.jsx:118-121 | `headers.some(...)` holds exactly when some header in the list matches the column |
| `Columns.EveryColumnPresentIff` | src/components/Admin.jsx:117-122 | `cols.every(...)` holds exactly when every column is matched by some header |
| `Columns.HasRequiredColumnsIff` | src/components/Admin.jsx:115-122 | validation succeeds exactly when each of "Badge Class", "Name" and "Email Address" is matched by some header |
| `Columns.ValidationIgnoresOrderAndExtras` | src/components/Admin.jsx:115-122 | reordering the headers or adding columns never turns a valid header row invalid |
| `Columns.PaddedCaseVariantMatches` | src/components/Admin.jsx:120 | a header that is the column name in another case, padded with whitespace, matches it |
| `Columns.ExactHeadersPass` | src/components/Admin.jsx:116-122 | the exact required names pass, in any order and with extra columns |
| `Columns.CaseVariantHeadersPass` | src/components/Admin.jsx:116-122 | any case variants of "Badge Class", "Name" and "Email Address", each padded on either side with any ASCII whitespace, pass |
| `Columns.LenientHeadersPass` | src/components/Admin.jsx:116-122 | one instance: `badge class`, `NAME` and `email ADDRESS`, with whitespace before the first, after the second and on both sides of the third, pass |
| `Columns.MissingNameRejected` | src/components/Admin.jsx:117-130 | a header row with no header that trims and folds to `name` is rejected |
| `BadgeClass.EnsureHttps` | src/components/Admin.jsx:74 | a leading `http:` becomes `https:` and the rest of the URL is kept; any other string is unchanged; no result starts with `http:` |
| `BadgeClass.EnsureHttpsIdempotent` | src/components/Admin.jsx:74 | rewriting twice equals rewriting once |
| `BadgeClass.EnsureHttpsKeepsRest` | src/components/Admin.jsx:74 | `http:` + rest becomes `https:` + rest, and `https:` + rest is kept |
| `BadgeClass.EnsureHttpsLeavesOthers` | src/components/Admin.jsx:74 | an upper-case scheme, an `http:` that is not at the start, and the empty string are all kept |
| `Issuance.Lookup` | src/components/Admin.jsx:48-50 | a row lookup is defined exactly when the exact key is present, and then yields that cell |
| `Issuance.ProcessedRowContents` | src/components/Admin.jsx:75-79 | the spread keeps every column, rewrites only the Badge Class cell and adds only `badgeUrl` = base URL + issued id |
| `Issuance.StepRow` | src/components/Admin.jsx:71-83 | a row goes through exactly when the call succeeds and the row has a "Badge Class" key; a service error is reported as is, and a missing key after a successful call fails with the engine's TypeError |
| `Issuance.ProcessFrom` | src/components/Admin.jsx:68-86 | a completed run made one call and produced one row per input row; a failed run made exactly k - start + 1 calls, where k is the failing row |
| `Issuance.CallsFollowRows` | src/components/Admin.jsx:47-51 | the requests sent are, in order, the bodies built from the rows' exact email, name and Badge Class cells |
| `Issuance.CompletesIffAllSucceed` | src/components/Admin.jsx:70-85 | the batch completes exactly when every row succeeds |
| `Issuance.CompletedRowsInOrder` | src/components/Admin.jsx:70-85 | output row i of a completed batch is input row i processed with the id issued for it |
| `Issuance.FailsAtFirstFailure` | src/components/Admin.jsx:70-83 | a failed batch stops at the first failing row, every earlier row having succeeded, and carries that row's message |
| `Issuance.NothingAfterFailureMatters` | src/components/Admin.jsx:70-83 | after a failure at row k, neither later rows nor the service's answers for them change anything: they are never issued |
| `Issuance.RunDependsOnAnswersForRowsOnly` | src/components/Admin.jsx:70-85 | the batch depends on the service only through its answers for the rows' own indices |
| `Uploader.OutputRows` | src/components/Admin.jsx:138-141 | each downloaded record has exactly the processed row's columns plus "Badge URL", which holds the row's `badgeUrl`; every other column keeps its value |
| `Uploader.ProcessRecords` | src/components/Admin.jsx:133-159 | after the checks, the calls cover a prefix of the rows in order; an abort names the last row called; on success the fields are the headers plus "Badge URL", with one row per input row and totalRecords = badgesCreated = row count |
| `Uploader.HandleUpload` | src/components/Admin.jsx:87-133 | a drop stalls exactly when no file was accepted; it is rejected exactly when the type gate fails, or a file was accepted and parse errors, empty data or the column check stop it; otherwise the batch runs |
| `Uploader.RejectionReasons` | src/components/Admin.jsx:90-130 | the checks run in the handler's order, each with its own message (the first parse error is quoted); a drop with no file stalls; a rejected or stalled drop makes no issuance call |
| `Uploader.OutcomeFollowsFirstFailure` | src/components/Admin.jsx:68-86 | a drop completes exactly when every row succeeds; an abort comes at the first failing row, with that row's message |
| `Uploader.DoneRowContents` | src/components/Admin.jsx:74-141 | downloaded row i keeps every input column, rewrites "Badge Class" to https, and sets `badgeUrl` and "Badge URL" to the base URL + id |
| `Uploader.DoneRecords` | src/components/Admin.jsx:136-142 | each downloaded record has one cell more than the header row: under each input header other than "Badge Class", `badgeUrl` and "Badge URL", the input cell; under "Badge Class", the rewritten URL; then the badge URL (an input column named `badgeUrl` or "Badge URL" holds the badge URL instead) |
| `Uploader.ExactKeyMissingFailsAfterCall` | src/components/Admin.jsx:48-133 | a drop that passes every check but whose first row lacks the exact "Badge Class" key makes one call for that row and, when the service accepts it, aborts with the TypeError |
| `Uploader.ValidatedFileCanStillFail` | src/components/Admin.jsx:48-122 | for the headers `badge class`, `NAME` and `email ADDRESS`, with one ASCII-whitespace pad before the first, after the second and on both sides of the third, and a service that accepts the first call: validation passes, one call is made with every field undefined, then the batch aborts with the TypeError, naming the row `undefined` |
| `Uploader.DisplayedError` | src/components/Admin.jsx:80-163 | a successful or stalled drop leaves no error; a rejected one shows its reason; an aborted one first sets the row-naming message and finally shows "Error processing CSV: " + message |
| `Session.Login` | src/components/Admin.jsx:16-32 | login signs in when both username and password equal the configured pair; otherwise it sets "Invalid credentials" and leaves the flag alone; loading ends either way |
| `Session.SignOut` | src/components/Admin.jsx:302-306 | sign-out always signs out and changes nothing else on the page |
| `Session.ApplyUpload` | src/components/Admin.jsx:87-163 | after a drop the error is the last one set and the summary changes only on success; loading is off except after a stalled drop, which leaves it on |
| `Session.SignedInIff` | src/components/Admin.jsx:22-306 | the page is signed in exactly when some matching login, submitted while the sign-in button was enabled, happened with no sign-out after it |
| `Session.UnconfiguredAdminNeverSignsIn` | src/components/Admin.jsx:22-25 | with either admin setting undefined, no sequence of actions signs in |

## Left out

- The remote issuing call (`fetch`, status check, JSON decoding; `Admin.jsx:37-65`) is the oracle. Its request body is recorded, but headers, the API key and the endpoint URL are not.
- The CSV parser and `unparse` are a library: parse results are inputs, and quoting or escaping in the written file is not modelled.
- The file download (Blob, object URL, link click), `localStorage.removeItem("adminToken")` on sign-out, and all rendering are browser I/O.
- React state scheduling: the handlers are sequential functions, and the transient `loading = true` state while a batch is in flight is not represented. The drop zone stays active during a batch, so a second drop starts a second loop alongside the first, and whichever finishes last sets the error and the summary; overlapping drops are not modelled.
- The dropzone's own `accept` filter and single-file limit (`Admin.jsx:169-175`) run in the library before the handler. The model takes the type of the first accepted file, or its absence, as input. The parser library is not part of this model: that it throws when handed `undefined` (it reads a property of its input before any callback) is an assumption, and the `Stalled` outcome rests on it.
- The form's `required` attributes, which stop an empty field from submitting, are browser validation and are not modelled.
- `AsciiText.Trim`, `AsciiText.ToLower`: Unicode whitespace (including U+00A0 and the byte-order mark) and non-ASCII case mapping are left out; only ASCII is folded and trimmed.
- `Issuance.StepRow`: the TypeError text is V8's wording; other engines word it differently.
- `src/components/Verify.jsx` and `src/components/Badge.jsx` are fetch-and-render views over the same service; they are not part of this model. `src/App.jsx` is a routing table (it routes no path to the admin page) and is not part of this model.
