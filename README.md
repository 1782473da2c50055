# Background remover: upload, naming, fallback and retention model

This project is a Dafny model of the request-handling core of a small Flask
service that removes the background of an uploaded picture. The service
accepts an upload whose name has an allowed picture extension, asks a remote
service to cut out the background and falls back to a local routine when that
fails, stores the upload as `original_<name>` and the cut-out as
`result_<name>` under a freshly generated name
`image_<YYYYMMDD_HHMMSS>_<8 hex digits>.<ext>`, sweeps every regular file
older than an hour out of the upload folder, and serves `result_<name>` for
download as `no-bg_<name>`.

Modules, one per component of `app.py`:

- `Uploads` (uploads.dfy): the extension set, `str.lower`, `str.rsplit('.', 1)`
  and the validator `allowed_file`.
- `Naming` (naming.dfy): the `%Y%m%d_%H%M%S` stamp with its parser, the
  eight-character prefix of a UUID's text, `generate_unique_filename`, the
  stored and download names and `posixpath.join`.
- `Imaging` and `Removal` (removal.dfy): pictures as opaque handles, the
  encoding picked from an extension, and the remote-then-local choice of
  `remove_background_api`.
- `Storage` (storage.dfy): folder entries, the sweep as a specification
  (`SweepOver`, `Sweep`) with its lemmas, and the class `UploadFolder` whose
  map of entries is changed in place by `Save` and by the loop of
  `CleanupOldFiles`.
- `Handler` (handler.dfy): the `POST /remove-bg` pipeline as a method over
  the folder, its validation exits, and `GET /download/<filename>`.
- `Wrappers` (wrappers.dfy): `Option` and `Result`.

Inputs that stand in for the outside world: the clock (a `DateTime` for the
generated name and `real` seconds for the sweep's clock and for the files'
`ctime`, the POSIX inode status-change time that every write sets), the text
of `uuid.uuid4()`, the remote call's outcome, the result of each call of the
local removal routine, whether each picture save raises, and the set of names
whose deletion raises during the sweep.

Behaviours of `app.py` that are easy to misread:

- The stamp comes from `datetime.now()`, the local wall clock, not UTC.
- The validation exits call `redirect(request.url)` (app.py:81, 88, 93),
  which redirects to `/remove-bg` itself. That route accepts only POST
  (app.py:73), so the browser's follow-up GET is refused with 405. Only the
  exception path redirects to the form page `/` (app.py:129). The model calls
  the two targets `RedirectToRequestUrl` and `RedirectToIndex`.
- A failing deletion ends the whole sweep. The one `try` surrounds the whole
  loop (app.py:134-143), so the first failing `os.remove` stops the sweep and
  the remaining names are not looked at (`CleanupOldFiles`, `SweepResumes`).
  A second sweep lists the folder afresh, so it never tries to delete what the
  first one removed.
- On a non-200 answer the local routine is called inside the `try`
  (app.py:56). If it raises, the `except` clause calls it a second time
  (app.py:60), and that second call may succeed (`LocalRetriedAfterNon200`,
  `RetryCanSucceed`).

## Model

| member | source | states |
|---|---|---|
| `Uploads.Lower` | app.py:28 | The ASCII lowering keeps the length. |
| `Uploads.LowerRemovesUpperCase` | app.py:28 | After lower-casing no upper-case ASCII letter is left, a character changes iff it was one, and such a letter becomes its lower-case partner (code point plus 32). |
| `Uploads.LowerKeepsDots` | app.py:28 | Lower-casing keeps every '.' where it was and creates none. |
| `Uploads.LowerIdempotent` | app.py:28 | Lower-casing twice is lower-casing once. |
| `Uploads.LastIndexOf` | app.py:28 | The index found holds the separator and no separator follows it; there is none exactly when the character does not occur. |
| `Uploads.LastIndexUnique` | app.py:28 | A position holding the separator with none after it is the one the search finds. |
| `Uploads.RSplitOnce` | app.py:28 | `rsplit(sep, 1)` gives one part when `sep` is absent and otherwise two parts, joined by `sep`, the second free of `sep`. |
| `Uploads.SplitAtLastDot` | app.py:28 | For `stem + "." + ext` with a dot-free `ext`, the split hands back exactly `[stem, ext]`, whatever dots the stem has. |
| `Uploads.Extension` | app.py:28 | The lowered text after the last '.' is shorter than the name and contains no '.'. |
| `Uploads.AllowedFile` | app.py:27-28 | An accepted name contains '.' and has 3 or 4 characters after its last '.'. |
| `Uploads.AllowedExtensionClean` | app.py:24 | Every allowed extension is already lower case and contains neither '.' nor '/'. |
| `Uploads.AllowedFileCharacterization` | app.py:24-28 | `allowed_file` holds iff some '.' in the name has no '.' after it and the lowered text after it is png, jpg, jpeg, webp or bmp (both directions). |
| `Uploads.AllowedFileIgnoresCase` | app.py:28 | Lower-casing the whole name never changes the verdict, so `x.PNG` is judged like `x.png`. |
| `Uploads.AcceptedExamples` | app.py:24-28 | `x.PNG` and `.png` are accepted. |
| `Uploads.RefusedExamples` | app.py:24-28 | `x.png.txt`, `noext` and `x.` are refused. |
| `Naming.Pow10` | app.py:34 | Powers of ten are positive. |
| `Naming.DigitChar` | app.py:34 | A digit value renders as a digit character. |
| `Naming.DigitValue` | app.py:34 | A digit character reads as a value below ten that renders back to it. |
| `Naming.Decimal` | app.py:34 | Zero-padded rendering of a number below 10^width has exactly `width` characters, all digits. |
| `Naming.DecimalRoundTrip` | app.py:34 | Reading the padded digits back gives the number rendered. |
| `Naming.FormatTimestamp` | app.py:34 | The stamp is 15 characters: eight digits, '_', six digits. |
| `Naming.TimestampRoundTrip` | app.py:34 | Parsing a rendered stamp recovers every field of the clock reading. |
| `Naming.TimestampInjective` | app.py:34 | Two clock readings render to the same stamp iff they are equal. |
| `Naming.ShortId` | app.py:33 | `str(uuid4())[:8]` is exactly eight lower-case hex digits. |
| `Naming.FormatName` | app.py:35 | The f-string puts `image_`, the 15-character stamp, '_', the 8-character id, '.' and the extension at fixed offsets. |
| `Naming.GenerateUniqueFilename` | app.py:31-35 | Needs a '.' in the original name; the result is 31 characters plus the lowered extension, with the stamp at 6..21, the id at 22..30 and the extension after offset 31. |
| `Naming.StampAndIdClean` | app.py:33-34 | Neither the stamp nor the id contains '.' or '/'. |
| `Naming.FormatNameSplits` | app.py:35 | In a generated name the last '.' is the one before the extension, and nothing before it is a '/'. |
| `Naming.FormatNameAllowed` | app.py:35 | A name built around an allowed extension from a dot- and slash-free stamp and id starts with `image_`, ends with '.' plus that extension, has it as its extension and is accepted by `allowed_file`. |
| `Naming.GeneratedNameIsAllowed` | app.py:31-35 | For an accepted upload the generated name starts with `image_`, ends with '.' plus the upload's lowered extension, has that same extension, and is itself accepted by `allowed_file`. |
| `Naming.GeneratedNameInjective` | app.py:33-35 | Two generated names are equal iff clock reading, id and extension are all equal, so distinct (stamp, id) pairs give distinct names. |
| `Naming.GeneratedNameHasNoSlash` | app.py:31-35 | A generated name contains no '/', whatever path the client's file name had. |
| `Naming.OriginalName` | app.py:108 | Stripping `original_` from the stored original gives back the core name; it never starts with `result_`. |
| `Naming.ResultName` | app.py:111 | Stripping `result_` from the stored result gives back the core name; it never starts with `original_`. |
| `Naming.DownloadName` | app.py:151 | Stripping `no-bg_` from the attachment name gives back the requested name. |
| `Naming.StripPrefix` | app.py:108-111 | Succeeds iff the string starts with the prefix, and then prefix plus remainder is the string. |
| `Naming.Join` | app.py:108-112 | `os.path.join` ends with the name; an absolute name replaces the folder; otherwise the folder comes first, with a '/' added only when it does not already end in one. |
| `Naming.StoredNamesDistinct` | app.py:108-111 | An original never has a result's name, and each of the two namings is one-to-one. |
| `Naming.ResultForOriginalPairs` | app.py:108-111 | Substituting the prefix of a stored original gives its paired result name; a result name has no pair. |
| `Naming.JoinStoredNames` | app.py:108-112 | Joining the upload folder with a stored name is plain concatenation. |
| `Imaging.FormatForExtension` | app.py:109 | The original is written as PNG iff its extension is png, JPEG iff jpg or jpeg, WEBP iff webp, BMP iff bmp. |
| `Removal.RemoveBackgroundApi` | app.py:38-60 | The local routine runs at most twice, and not at all only when the remote picture is returned. |
| `Removal.FallbackChoice` | app.py:53-60 | A 200 answer with a decodable body returns the remote picture; otherwise the first local call's result, or the second's when it was retried; the local routine runs iff the remote attempt failed. |
| `Removal.RemovalFailsOnlyLocally` | app.py:53-60 | No picture comes back iff the remote attempt failed, the first local call raised, and, after a non-200 answer, the retry raised too. |
| `Removal.LocalRetriedAfterNon200` | app.py:55-60 | The local routine runs twice iff a non-200 status was followed by a raising first local call. |
| `Removal.RetryCanSucceed` | app.py:55-60 | After a non-200 answer and a raising first local call, a succeeding retry's picture is returned. |
| `Storage.SweepOver` | app.py:136-140 | A sweep over some names keeps every entry it did not visit and changes no entry it keeps. |
| `Storage.Sweep` | app.py:136-140 | After a complete sweep no regular file older than 3600 s is left. |
| `Storage.PartialSweepSound` | app.py:134-143 | However far a sweep got, it deleted only expired regular files it reached, left every other entry unchanged, and kept every non-regular entry. |
| `Storage.CompleteSweepFresh` | app.py:136-140 | After a complete sweep every remaining regular file is at most 3600 s old, an entry is gone iff it was an expired regular file, and survivors are unchanged. |
| `Storage.SweepIdempotent` | app.py:134-143 | A second complete sweep at the same instant deletes nothing. |
| `Storage.SweepResumes` | app.py:134-143 | A complete sweep after an interrupted one leaves the same folder as one uninterrupted sweep. |
| `Storage.SweepMonotonicInTime` | app.py:139 | A later sweep keeps a subset of what an earlier sweep keeps. |
| `Storage.SweepOverStep` | app.py:138-140 | Looking at one more name deletes it exactly when it is an expired regular file and changes nothing else. |
| `Storage.SweepScenario` | app.py:139 | A file 3601 s old is removed; files 3599 s and exactly 3600 s old and a directory stay. |
| `Storage.UploadFolder.constructor` | app.py:16-22 | The folder starts with the entries it already holds. |
| `Storage.UploadFolder.Save` | app.py:109-113 | A save creates or overwrites one entry as a regular file with the picture and the write time as its ctime, and changes nothing else. |
| `Storage.UploadFolder.CleanupOldFiles` | app.py:132-143 | The new folder is the sweep specification over the names the loop got through; those are a subset of the listing; an expired file whose removal raised is still present; when no expired file's removal raises, every name was visited and the result is the complete sweep. |
| `Handler.Validate` | app.py:78-93 | Passes iff the `image` field is present and its name is accepted by `allowed_file` (an empty name is refused by it too); the "choose an image" message is reported iff the field is missing or the name is empty, "unsupported format" iff the name is non-empty and refused; a passing name contains '.'. |
| `Handler.StoreArtifacts` | app.py:107-113 | After the two saves the original and the PNG result are stored under their names with their write times, and every other entry is as before. |
| `Handler.Download` | app.py:146-154 | Serves iff `result_<filename>` is a regular file in the folder, with its content, from the folder path of `result_<filename>`, as `no-bg_<filename>`; otherwise answers status 500. |
| `Handler.DownloadAfterProcessing` | app.py:107-113 | After the two saves and any sweep within an hour of the result's write, downloading the core name returns the result picture as PNG, from the stored result path, as `no-bg_<name>`. |
| `Handler.DownloadMissing` | app.py:148-154 | The example name `doesnotexist.png`, never stored, answers status 500; the first ensures of `Handler.Download` covers every name that has no stored result. |
| `Handler.RemoveBackground` | app.py:73-129 | Every validation exit redirects to the request's own URL with the folder unchanged; decode, removal or original-save failures redirect to the start page with the folder unchanged; a failing result save leaves only the original behind; on success the page shows both stored paths and the folder is the stored folder swept over a subset of its names, which keeps every expired file whose removal raised and is the complete sweep when no removal raises; the shown name is itself accepted and, when the sweep ran within an hour, downloads the stored PNG from the shown result path. |

## Left out

- Routing, templates, flash rendering, CORS, `/`, `/health`, `/about`, the secret key and the 16 MiB body cap (app.py:12-19, 63-70, 157-165): web framework plumbing. The Flask route converter keeps '/' out of `<filename>`; `Handler.Download` does not rely on it.
- The HTTP request to the remote service (app.py:41-51): only its outcome is an input (`Removal.RemoteOutcome`).
- Image decoding, encoding and the segmentation model (app.py:54-56, 98, 109, 113): pictures are opaque handles; decode and save failures are inputs. The imaging library decodes lazily, so a corrupt body could in reality fail during a later save rather than inside `remove_background_api`; the model lets it fail at decode.
- `print` logging, the text of the flash messages (including the exception text shown on failure) and the body of the 500 answer: output only. The format message at app.py:92 lists PNG, JPG, JPEG and WEBP but not BMP, which is accepted.
- Concurrent requests sharing the folder: each request runs alone on the folder.
- Uploads.Lower: maps ASCII letters only and keeps the length. Python's `str.lower` also maps other letters and can lengthen a string (`'İ'.lower()` is `'i'` followed by U+0307). This cannot change the verdict. The only non-ASCII character that lowers to a single ASCII character is U+212A KELVIN SIGN, which lowers to 'k', and 'k' is in none of the allowed extensions. A lengthened lowering keeps a non-ASCII character, which no allowed extension holds either. So the validator's verdict and the generated names agree.
- Naming.ValidDateTime: years are limited to 1000-9999, where `%Y` prints four digits; earlier years print differently on different platforms and a clock never reads them.
- Status-change times and clock readings are exact `real` numbers; floating-point rounding is not modelled.
- Storage.UploadFolder.CleanupOldFiles: exceptions are modelled only from `os.remove` on an expired file. The model never lets `os.listdir` raise. Such a failure would leave the folder unchanged, and the last ensures would not admit that when an expired, deletable file is present. The saves have just written to the folder, so it exists when the sweep lists it. `os.path.getctime` cannot fail in a folder nobody else changes.
- Handler.Download: the saves, the sweep and the download all use one folder map. In the program `send_file` resolves the relative `static/uploads/` path against the application's directory, while `os.makedirs`, the picture saves and `os.listdir` (app.py:22, 109, 113, 136) resolve it against the working directory. The model assumes the server runs from the application's directory; if it runs from elsewhere, a download at app.py:151 does not find the stored result and answers 500, so `Handler.DownloadAfterProcessing` then does not hold.
- Handler.RemoveBackground: both saves happen at given instants; a failing save is assumed to leave no file behind.
