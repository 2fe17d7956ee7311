# URL shortener: entry lifecycle and expiry

A Dafny model of the core of a single-file Flask URL shortener and file drop
(`shortener.py`). The shortener keeps a table `urls` of entries
`code -> (target, created_at, hits)`. Every entry lives `DELETE_AFTER_SECONDS`
(600 seconds). A target is either a URL or, for an uploaded file,
`/uploads/<stamp>_<name>`.

The model covers five operations on that table:

- the upsert `save_mapping`, which resets `hits` and restamps `created_at`;
- the lookup of `redirect_code`, which answers not found, expired, a file
  download or a redirect, and counts a hit only when it serves;
- the remaining-TTL helper `seconds_left`;
- one sweep of the `cleanup` daemon: select expired rows, remove their upload
  files best-effort, delete the rows;
- the branch logic of `upload_file`, with its code choice through
  `generate_code`.

Layout, one module per file:

- `text.dfy` (`Text`): the Python primitives the core leans on: `str.strip`
  (with Python's whitespace set), `startswith`, `replace(old, "", 1)`,
  `str(int)` and two-argument `posixpath.join`.
- `codes.dfy` (`Codes`): the 62-symbol alphabet and `generate_code`.
- `mappings.dfy` (`Mappings`): constants, the `Entry` record, the clock, the
  two expiry tests, `seconds_left` and the upsert.
- `lookups.dfy` (`Lookups`): the redirect's answer and its effect on hit counters.
- `reaper.dfy` (`Reaper`): one sweep as functions of the table it starts from.
- `uploads.dfy` (`Uploads`): the request classification of `upload_file`.
- `store.dfy` (`Store`): the class `Shortener`. Its fields are the table and
  the set of files in the upload folder. Its methods change them in place
  and are proved against the functions above.
- `scenarios.dfy` (`Scenarios`): two lifecycles driven through the class, one
  for a URL entry and one for a file entry.

Time is a `real` clock value `t`, as Python's float `time.time()`. `Trunc`
models `int(t)`, which truncates toward zero. `save_mapping`, `seconds_left` and
the sweep use the truncated value. The redirect compares the float itself.

Because of this split, the model proves how the two expiry tests relate:

- An entry the sweep selects at `t` is one the redirect refuses at `t`
  (`ReapableMeansExpired`, `SweepKeepsAnswers`).
- Exactly one TTL after creation, the countdown already shows 0 while the
  redirect still serves.
- Half a second later, the redirect refuses an entry that the sweep does not
  select yet (`BoundaryWindow`).

The sweep decides by the target's prefix alone whether a row owns an uploaded
file. A URL that the user submits starting with `/uploads/` is therefore
stored as a URL entry. When it expires, the sweep still asks to remove a file
for it. For `/uploads/../../urls.db` that file is `static/uploads/../../urls.db`.
That path lies outside the upload folder: it names `urls.db`, which is
`DB_FILE` (shortener.py:25). Once such an entry expires, the sweep therefore
tries to delete the shortener's own database file
(`UrlWithUploadPrefixIsArtifact`, `UrlUnderUploadPrefixIsRemoved`). The
model keeps this behaviour as written.

## Model

| member | source | states |
|---|---|---|
| Text.Strip | shortener.py:339-340 | the stripped field is empty exactly when the field is all whitespace, otherwise it starts and ends with a non-space |
| Text.StripIsSlice | shortener.py:339-340 | the stripped field is the slice of the field between an all-whitespace prefix and an all-whitespace suffix |
| Text.RemoveFirst | shortener.py:89 | deleting the first occurrence of the prefix from a string that starts with it leaves the rest after the prefix; otherwise the length drops by the pattern's length or nothing changes |
| Text.Join | shortener.py:89 | an absolute second component replaces the folder; otherwise the path is the folder, one `/` unless the folder is empty or already ends in one, then the component |
| Text.NatToString | shortener.py:345 | the decimal digits denote the number, with no leading zero: a string starting with 0 is "0" itself |
| Text.IntToString | shortener.py:345 | the time stamp is a minus sign exactly for a negative number, followed by the decimal digits of its magnitude without a leading zero ("0" for zero); it is non-empty and does not start with a slash |
| Text.IntToStringInjective | shortener.py:345 | different clock values give different stamps |
| Codes.AlphabetSymbols | shortener.py:58 | the alphabet (letters then digits) has 62 symbols, lower case, then upper case, then digits |
| Codes.GenerateCode | shortener.py:57-58 | a generated code has one symbol per draw and every symbol is an ASCII letter or digit |
| Codes.GenerateCodeInjective | shortener.py:57-58 | different draws give different codes, so every code arises from exactly one sequence of draws |
| Codes.GenerateCodeReaches | shortener.py:57-58 | every alphanumeric string is a code the generator can produce |
| Mappings.ExpiredAt | shortener.py:84 | the sweep's whole-second test agrees with the redirect's test on a clock reading whole seconds |
| Mappings.ExpiredBy | shortener.py:364 | once the redirect's float test refuses an entry, at least a full TTL has elapsed on the truncated clock |
| Mappings.Trunc | shortener.py:81 | the truncated clock is the whole seconds toward zero: within one second below a non-negative clock, within one second above a negative one |
| Mappings.SecondsLeft | shortener.py:74-75 | the remaining TTL is never negative, at most the TTL for an entry not created in the future, 0 exactly once a full TTL has elapsed, and otherwise the TTL minus the elapsed whole seconds |
| Mappings.SecondsLeftMeansLive | shortener.py:74-75 | while the countdown is positive the redirect does not refuse the entry as expired |
| Mappings.ExpiredMeansNoSecondsLeft | shortener.py:74-75 | once the redirect refuses an entry as expired, the countdown is 0 |
| Mappings.ReapableMeansExpired | shortener.py:83-86 | a row the sweep selects at clock value t is one the redirect refuses at t |
| Mappings.BoundaryWindow | shortener.py:364 | one TTL after creation the countdown is 0 and the entry is still served; half a second later it is refused but not yet selected by the sweep |
| Mappings.Upsert | shortener.py:60-65 | after the upsert the code holds (target, now, 0) whether or not it existed, the key set gains only the code, and every other entry is unchanged |
| Mappings.UpsertLastWriteWins | shortener.py:63 | a second upsert of the same code replaces the first completely, hits reset to 0 |
| Lookups.Lookup | shortener.py:358-370 | not found exactly when the code is absent; expired exactly when present and more than a TTL old; a download of the name after the upload prefix exactly when live with an upload target; otherwise a redirect to the stored target |
| Lookups.AfterLookup | shortener.py:366-367 | a lookup keeps every key, target and creation time, changes no other code, and adds one hit to the code exactly when it served it |
| Lookups.RefusalChangesNothing | shortener.py:360-365 | a not-found or expired answer leaves the table unchanged |
| Lookups.HitsMonotone | shortener.py:367 | no hit counter decreases on any lookup |
| Lookups.HitsCountLookups | shortener.py:366-367 | N lookups of a live code raise its hit counter by exactly N and change nothing else |
| Lookups.LookupAfterUpsert | shortener.py:360-370 | after a save, a lookup of the code within the TTL serves the saved target, and other codes answer as before |
| Lookups.TtlBoundary | shortener.py:364 | an entry is served one TTL minus one second and one TTL after creation, and refused one TTL plus one second after |
| Reaper.IsArtifact | shortener.py:88 | a target is treated as an upload exactly when it is `/uploads/` followed by some name |
| Reaper.ArtifactPath | shortener.py:89 | for an upload target the removed path is the name after the prefix joined onto the upload folder |
| Reaper.UploadArtifactPath | shortener.py:88-89 | an upload target is recognised as an artifact and the sweep removes the very path the upload was saved under |
| Reaper.ExpiredCodes | shortener.py:83-86 | the sweep selects exactly the rows more than a TTL old in whole seconds |
| Reaper.ArtifactsOf | shortener.py:87-89 | the removals for a set of deleted rows include the path of every upload target among them, and are empty for no rows |
| Reaper.Artifacts | shortener.py:83-89 | one sweep asks to remove the path of every expired upload row, and nothing when no row has expired |
| Reaper.ArtifactsOnlyUploads | shortener.py:87-89 | every path the sweep asks to remove is the path of an expired row whose target starts with the upload prefix |
| Reaper.ExpiredUrlRemovesNothing | shortener.py:87-89 | when no expired row has an upload target, as for expired URL entries, the sweep asks to remove no file |
| Reaper.Reap | shortener.py:83-95 | after a sweep no expired row remains, every live row remains, and no remaining row changed |
| Reaper.FilesAfter | shortener.py:88-94 | a sweep only removes files, and it removes exactly the present files of selected upload targets whose removal does not raise |
| Reaper.SweepIdempotent | shortener.py:83-95 | a second sweep at the same time deletes no row and removes no file |
| Reaper.LaterSweepSubsumes | shortener.py:83-86 | a sweep at a later time after one at an earlier time leaves what the later sweep alone leaves |
| Reaper.SweepKeepsAnswers | shortener.py:83-95 | a sweep at clock value t changes no redirect answer at t except turning expired into not found |
| Reaper.ExpiredUploadIsRemoved | shortener.py:88-94 | the sweep asks to remove the saved file of an expired upload entry, and the file is gone afterwards unless its removal raises |
| Uploads.HasFile | shortener.py:342-344 | a missing file part or an empty file name is no file; a named file part is one |
| Uploads.ChosenCode | shortener.py:340 | a non-blank custom code is used stripped; a blank one is replaced by a generated alphanumeric code |
| Uploads.Classify | shortener.py:337-354 | both file and URL, or neither, are rejected; a file alone is saved under a stamped name; a URL alone is stored stripped; accepted requests use the chosen code |
| Uploads.BlankCodeIsGenerated | shortener.py:340 | with a blank custom code an accepted request gets a code of six letters or digits |
| Uploads.FileTargetIsArtifact | shortener.py:345-348 | an accepted file is stored under an upload target whose swept path is the path it was saved to |
| Uploads.StampedNameInjective | shortener.py:345 | the stamp in front of a saved file name determines the clock value |
| Uploads.DistinctStampsDistinctFiles | shortener.py:345-347 | the same file uploaded at two different whole-second clock values is saved under two different names |
| Uploads.UrlWithUploadPrefixIsArtifact | shortener.py:350-351 | a URL that starts with the upload prefix and ends in a non-space is stored unchanged as a URL entry, and the sweep treats its target as an upload |
| Uploads.UrlUnderUploadPrefixIsRemoved | shortener.py:88-89 | for the URL /uploads/../../urls.db the sweep's removal path is static/uploads/../../urls.db |
| Scenarios.FileSwept | shortener.py:83-95 | an upload saved at second 1 and swept at second 602 leaves neither its row nor its file |
| Store.Shortener.constructor | shortener.py:42-53 | the store opens over an existing table and upload folder |
| Store.Shortener.SaveMapping | shortener.py:60-65 | the table becomes the upsert of the old table at the truncated clock |
| Store.Shortener.GetRow | shortener.py:67-72 | the row is returned exactly when the code is present, whatever its age |
| Store.Shortener.Redirect | shortener.py:358-370 | the answer is the lookup on the old table, and the new table is the old one with the hit counted exactly when served |
| Store.Shortener.RemoveArtifact | shortener.py:88-94 | for one selected target, its upload file is removed if present and removal does not raise; nothing else changes |
| Store.Shortener.Sweep | shortener.py:79-95 | the new table is the reaped old table, and the new file set is the old one less the selected upload paths whose removal does not raise |
| Store.Shortener.Upload | shortener.py:335-356 | each decision's response and effect: rejections change nothing; a file adds its saved path and upserts its upload target; a URL upserts the stripped URL |

## Left out

- Reaper.ArtifactsOf: its contract states only that the removals include every selected upload path; that they contain nothing else is the lemma `Reaper.ArtifactsOnlyUploads`, kept out of the contract so that every caller does not carry an existential.
- Reaper.Artifacts: likewise, that only expired upload rows produce removals is stated by `Reaper.ArtifactsOnlyUploads` and `Reaper.ExpiredUrlRemovesNothing`.
- Text.Strip: its own contract gives only the shape of the result. Which characters it keeps, a slice between blank ends, is stated by `Text.StripIsSlice`, so that every caller of `Strip` does not carry an existential.
- HTTP plumbing is not modelled: routing, `render_template_string`, `send_from_directory`, `send_file`, `redirect` and `jsonify`. The redirect returns an abstract `Outcome`, and the upload returns the code or the error message rather than a rendered page.
- `make_short` and the absolute short URL are not modelled. The model's `ShortLink` carries the code only.
- The HTML template, its JavaScript and the admin page's HTML are presentation and are not modelled.
- The admin search is not modelled. Its `LIKE` filter and its ordering by `created_at` are SQLite semantics.
- The `/api/metadata` endpoint is not modelled separately. It only combines `get_row` and `seconds_left`, which are modelled.
- Host handling is not modelled: `force_ip_host`, socket-based hostname and IP resolution, and `QuietHandler` logging are environment concerns.
- QR generation is not modelled; it calls a foreign library.
- Threading is not modelled: the daemon thread, its endless loop, `time.sleep(interval)` and the separate SQLite connections. One sweep is one method call, and each store operation is atomic. The race between a sweep and a concurrent redirect is therefore not represented.
- The clock is an exact `real` rather than an IEEE double. `upload_file` reads the clock twice, once for the file name stamp and once in `save_mapping`; the model uses one reading for both.
- Randomness is the draws a caller supplies, one index below 62 per symbol. Uniformity is reflected only by `GenerateCodeInjective`. `generate_code`'s `length` parameter is the number of draws; the handler always uses 6.
- `secure_filename` is a function parameter whose behaviour is not modelled.
- The filesystem is a set of file paths. `file.save` adds its path, `os.path.isfile` is membership, and `os.remove` succeeds except on paths given as failing. Directories, permissions and path normalisation are not modelled.
- `os.path.join` follows POSIX `posixpath.join` only.
- Integers are unbounded: the 64-bit width of SQLite `INTEGER` (hits, timestamps) is not modelled.
- A row whose `created_at` is NULL cannot arise through these operations and is not modelled.
