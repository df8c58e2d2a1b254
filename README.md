# Upload finalization in the webdav server, modelled in Dafny

This project models how the webdav file server turns an upload into a file or a
directory in its final storage tree. It also proves properties of that model.

A tus upload arrives in a staging directory as a data blob `<id>` plus a JSON sidecar
`<id>.json`. Once it is complete, several steps place it:

- the server decodes the client's `relativePath`;
- it computes `finalStorageDir/targetPath/<directory part>/<sanitised leaf>`;
- a zero-byte upload becomes a directory;
- a name that is already taken gets a timestamp suffix;
- the blob is moved by rename, then by copy, then by `cp`;
- the sidecar is deleted.

A per-id registry keeps one upload from being finalized twice at the same time. On
restart, a scanner sorts the sidecars left in staging. Two earlier drafts of the same
engine follow different rules, and so does the multipart route `POST /api/upload`. The
browser client keeps byte and file counters while its uploads run.

The filesystem is a value `map<Path, Entry>`. `Path` is a canonical absolute list of
segments and `Entry` is `File(size)` or `Directory`. Files of the source map to
modules like this:

| source | module (file) |
|---|---|
| backend/tus-server.js: paths, directory intent, collisions, move chain, cleanup | `TusServer` (tus_server.dfy) |
| backend/tus-server.js: registry, dispatch, event routing, restart scan | `TusEngine` (tus_engine.dfy) |
| backend/tus-server.js: `parseMetadataString` | `TusMetadata` (tus_metadata.dfy) |
| backend/tus-utils.js: `sanitizeFilename` | `Sanitize` (sanitize.dfy) |
| backend/temp-test/original-func.js (also lines 115-227 of original-tus-server.js) | `DraftFinalize` (original_func.dfy) |
| backend/temp-test/original-tus-server.js: registry, PATCH hook, replay | `DraftServer` (original_tus_server.dfy) |
| tmp/tus-server.js: the completion handler | `TmpServer` (tmp_tus_server.dfy) |
| util/modified_upload_handler.js | `UploadHandler` (upload_handler.dfy) |
| frontend/upload.js: accounting | `UploadClient` (upload_client.dfy) |

Support modules:

- `Paths` models Node's `path.posix`:
  - `join` is resolution onto a canonical segment list;
  - `basename`, `dirname` and `extname` are the string algorithms;
  - a relative `normalize` result is `NPath`.
- `UriCodec` models `encodeURIComponent` and `decodeURIComponent`. Both work on UTF-8, as in section 2.1 of RFC 3986.
- `Storage` models `mkdir -p`, `unlink`, `rename` and `copyFile` over the map.
- `Text` models splitting, joining and `String(n)` for naturals.
- `Wrappers` provides `Option`.

Choices the model makes for the server:

- `sanitizeFilename` in backend/tus-server.js is a parameter, `Config.sanitize`. Its default there is the identity. `Sanitize.SanitizeFilename` is the tus-utils.js function.
- The engine does not confine paths to the storage root. A `..` in `targetPath` or `relativePath` reaches `path.join` unchanged. `Paths.ResolveCanEscape` and `TmpServer.TmpCanEscape` show this. Containment is proved only under an explicit no-`..` precondition (`Paths.ResolveStaysBelow`, `TmpServer.TmpContained`).
- Only the leaf name is sanitised. Directory segments pass through unchanged.

## Model

| member | source | states |
|---|---|---|
| TusEngine.Engine.HandleCompletedUpload | backend/tus-server.js:87-112 | An upload is accepted exactly when it has an id that is not already in `processingFiles`. An accepted upload inserts its id into the registry and is scheduled. A rejected one changes nothing. The filesystem is untouched. |
| TusEngine.Engine.Finish | backend/tus-server.js:117-133 | Running a scheduled upload gives the outcome and the filesystem of `Finalize`. Its id leaves the registry whatever the outcome, and the upload leaves the schedule. |
| TusEngine.Engine.ProcessTusFile | backend/tus-server.js:144-368 | The step-by-step `processTusFile` ends in the same outcome and filesystem as `Finalize`. |
| TusEngine.Engine.HandleDirectoryCreation | backend/tus-server.js:439-494 | The step-by-step `handleDirectoryCreation` ends as `CreateDirectory` says. |
| TusEngine.Engine.MakeDirectory | backend/tus-server.js:183-209 | The directory branch of `processTusFile` ends as `PlaceDirectory` says. |
| TusEngine.Engine.MoveThenClean | backend/tus-server.js:245-345 | The move chain followed by sidecar deletion ends as `MoveAndClean` says. |
| TusEngine.Engine.DeleteSidecar | backend/tus-server.js:341-345 | The sidecar is deleted when present, and the step ends as `RemoveSidecar` says. |
| TusEngine.Engine.Route | backend/tus-server.js:407-414 | A completion event with size > 0 goes to the registry and leaves the filesystem alone. Any other event with a file creates the directory. No file means no change. |
| TusEngine.Engine.DeliverUploadComplete | backend/tus-server.js:407-426 | Both listeners receive the event. A file is still scheduled at most once. A directory whose first creation succeeds is left as one creation leaves it. |
| TusEngine.Engine.ProcessExistingFiles | backend/tus-server.js:500-559 | The scan loop returns `Plan(names)`. It adds exactly the completed ids to the registry. It applies the directory actions in order. |
| TusEngine.Engine.Dispatch | backend/tus-server.js:528-547 | A directory action runs `handleDirectoryCreation` and leaves the registry alone. A completed upload with an id adds that id to the registry and leaves the filesystem alone. Any other action changes nothing. |
| TusEngine.PlanSound | backend/tus-server.js:506-550 | Every classification is justified by its sidecar. Directory means size 0. Complete means offset equals size or the offset field is missing; a JSON `null` offset is not missing. Otherwise the sidecar is incomplete, orphaned (no blob) or unreadable. There is one action per sidecar name. |
| TusEngine.OffsetDecides | backend/tus-server.js:528-547 | For a sidecar with a blob and a nonzero size, the upload counts as complete exactly when the offset field is missing or equals the size. It is then handed on with the sidecar's metadata and size. Otherwise it is skipped. In particular a JSON `null` offset is skipped unless the size is `null` too. |
| TusEngine.OrphanNeverDispatched | backend/tus-server.js:519-550 | A sidecar without a blob is never dispatched as a file or a directory. |
| TusEngine.IdOf | backend/tus-server.js:515 | The id is the sidecar name without its `.json` suffix. |
| TusEngine.CompletedIdsSnoc | backend/tus-server.js:537-544 | One more scan action adds its id to the completed set exactly when it is a completed upload with an id. |
| TusServer.FinalizeEarlyFailures | backend/tus-server.js:153-177 | A missing filename, an undecodable `relativePath` or a missing blob fails with the filesystem unchanged. An absent `relativePath` decodes to the filename. |
| TusServer.FinalizeZeroBytes | backend/tus-server.js:179-210 | In the corrected program, a zero-size blob is a regular file, and finalizing it is the corrected directory step `PlaceDirectory` for `finalStorageDir/targetPath/rel`. This is the same as `handleDirectoryCreation` for that upload. |
| TusServer.FinalizeNonEmpty | backend/tus-server.js:179-213 | A non-empty blob skips the directory branch and takes the file path that starts at line 212. |
| TusServer.PlaceDirectorySpec | backend/tus-server.js:183-209 | The corrected directory step, with `mkdir -p` in place of the existence test. On success the directory exists, the blob and the sidecar are gone, and no file is changed or created. A file at the directory's path or on the way to it fails with nothing changed. It succeeds when nothing stands in the way. |
| TusServer.PlaceDirectoryAgain | backend/tus-server.js:183-209 | Once the directory has been placed, placing it again succeeds and leaves the filesystem as it is. |
| TusServer.CreateDirectoryTwice | backend/tus-server.js:469-487 | Creating the same directory a second time succeeds and changes nothing. |
| TusServer.SlashedSpec | backend/tus-server.js:220-222 | Normalising `\` to `/` keeps the length and leaves no `\`. A path without `\` is unchanged. |
| TusServer.CandidateJoinsRelativePath | backend/tus-server.js:216-228 | When sanitising leaves the leaf alone, the candidate is `finalStorageDir/targetPath/` joined with the `\`-normalised relative path. |
| TusServer.CandidateInFinalDir | backend/tus-server.js:227-228 | The candidate is the final directory plus the sanitised leaf. |
| TusServer.StampSpec | backend/tus-server.js:252 | The timestamp has the ISO string's length and contains no `:` and no `.`. |
| TusServer.CollisionRenames | backend/tus-server.js:252-258 | The collision name lies in the same directory and is `<base>_<stamp><ext>`. It differs from the taken name and keeps the extension. |
| TusServer.CollisionExtension | backend/tus-server.js:253-257 | The extension of `<base>_<stamp><ext>` is `<ext>`. |
| TusServer.DestinationFree | backend/tus-server.js:247-261 | The destination is in the candidate's directory and keeps its extension. It is the candidate itself exactly when nothing has the candidate's name. It is free whenever the timestamped name is free. |
| TusServer.MoveBlobSpec | backend/tus-server.js:263-336 | The move succeeds exactly when the blob is a file, the target can be placed, and one tier works: rename, a copy of equal size, or a `cp` of equal size. On success the content is at the target and the blob is gone. On failure the blob is kept. Nothing else changes. |
| TusServer.MoveRenameFirst | backend/tus-server.js:264-268 | When the rename works, no other tier runs. |
| TusServer.MoveAndCleanSpec | backend/tus-server.js:263-345 | If the tiers fail, the result is false and the blob and the sidecar are kept. On success the blob and the sidecar are gone and the content is at the target. A failed sidecar deletion leaves the content at the target and the sidecar in place. No other existing entry changes. |
| TusServer.PlaceFileSpec | backend/tus-server.js:233-345 | The branch fails with nothing changed exactly when the directory is missing and a file stands on the way to it. A free candidate is the destination. The timestamped name is not checked again, so on success the content replaces any file already there. On success the blob and the sidecar are gone. A failure leaves the content in staging, or at the destination with the sidecar still present. No other existing entry changes. |
| TusServer.StoredAtFree | backend/tus-server.js:247-261 | When nothing stands at the intended path below the directory, a successful file branch leaves the blob's content exactly there. |
| TusServer.EnsureDirSpec | backend/tus-server.js:188-189 | The intended directory step, here and at lines 235-236, leaves a directory at the path, and fails exactly when a file lies on the path. |
| TusServer.PrepareDirAcceptsFile | backend/tus-server.js:188-189 | As written, the existence check (here and at line 235) lets a regular file stand in for the directory. |
| TusServer.LeafAsWrittenAgrees | backend/tus-server.js:216 | Without a `\`, the leaf as written and the corrected leaf agree. |
| TusServer.BackslashLeafAsWritten | backend/tus-server.js:216-225 | For `d\f`, the directory part is `d` and the corrected leaf is `f`. The leaf as written is the whole `d\f`. |
| TusServer.BackslashLeafDiffers | backend/tus-server.js:216 | With the tus-utils sanitiser, the leaf as written for `d\f` is `d_f`, not `f`. |
| TusServer.ClearPlaceholderSpec | backend/tus-server.js:194-204 | When neither the blob nor the sidecar is a directory, clearing the placeholder succeeds and removes exactly those two entries. |
| TusServer.PlaceDirectoryAsWrittenAgrees | backend/tus-server.js:187-192 | Unless a file stands at the directory's path, the existence test followed by `mkdir -p` does what `mkdir -p` alone does. |
| TusServer.FinalizeAsWrittenAgrees | backend/tus-server.js:144-368 | `processTusFile` as written and the corrected model give the same result and filesystem, unless the decoded path holds a `\` or a zero-byte upload finds a file at its directory path. A non-empty upload whose path already holds a file (the collision case) is covered. |
| TusServer.CreateDirectoryAsWrittenAgrees | backend/tus-server.js:439-494 | `handleDirectoryCreation` as written and the corrected model agree unless a file stands at the directory path. |
| TusServer.FileAtDirectoryAccepted | backend/tus-server.js:187-204 | With a file at the directory path, the step as written reports success and removes the blob and the sidecar, and no directory exists. The corrected step fails with nothing changed. |
| TusServer.FinalizeAcceptsFileAtDirectory | backend/tus-server.js:183-204 | A zero-byte upload whose directory path holds a file: `processTusFile` as written returns true, deletes the blob and the sidecar, and creates no directory. The corrected program fails with nothing changed. |
| TusServer.CreateDirectoryAcceptsFile | backend/tus-server.js:467-489 | `handleDirectoryCreation` as written returns true for a directory path that holds a file, and no directory exists. The corrected program fails with nothing changed. |
| TusServer.BackslashCandidates | backend/tus-server.js:216-228 | For `d\f`, both readings use the directory `targetPath/d`. The leaf as written is `d\f` sanitised, and the corrected leaf is `f` sanitised. |
| TusServer.FinalizeBackslashStoredFlat | backend/tus-server.js:216-228 | For `d\f` with a free target, `processTusFile` as written stores the blob's content at `targetPath/d/<d\f sanitised>`. The corrected program stores it at `targetPath/d/<f sanitised>`. |
| TusServer.FinalizeWellFormed | backend/tus-server.js:144-368 | Finalizing keeps every entry's parent a directory. |
| TusServer.CreateDirectoryWellFormed | backend/tus-server.js:439-494 | Creating a directory keeps the filesystem well formed. |
| TusMetadata.ParseMetadataString | backend/tus-server.js:671-687 | The loop over the comma-separated pairs builds the map `Parse` defines. |
| TusMetadata.ParseSerialize | backend/tus-server.js:671-687 | Parsing a header serialised from distinct, separator-free entries gives back exactly those keys, each with its value. |
| TusMetadata.LaterPairWins | backend/tus-server.js:675-680 | A later well-formed pair overwrites the key. |
| TusMetadata.MalformedPairIgnored | backend/tus-server.js:676-677 | A pair that does not split into exactly two parts is ignored. |
| TusMetadata.PairSplits | backend/tus-server.js:676 | `key value` splits into its key and its value. |
| Sanitize.SanitizeSpec | backend/tus-utils.js:4-7 | The length is kept. Each forbidden character becomes `_` at its position and every other character is kept, so no forbidden character remains. |
| Sanitize.SanitizedHasNoSeparator | backend/tus-utils.js:6 | The output contains neither `/` nor `\`. |
| Sanitize.SanitizeIdempotent | backend/tus-utils.js:6 | Sanitising twice is sanitising once. |
| Sanitize.SanitizeKeepsSafe | backend/tus-utils.js:6 | A name without forbidden characters is unchanged. |
| Paths.ResolveStaysBelow | backend/tus-server.js:185 | `path.join` onto a root with no `..` segment stays below the root. |
| Paths.ResolveCanEscape | backend/tus-server.js:185 | A `..` segment leaves any non-root directory: joining `../etc` onto it gives its sibling `etc`, which lies outside it unless the directory is itself named `etc`. For `/srv/share` this is `/srv/etc`. |
| Paths.DirnameBasenameRejoin | backend/tus-server.js:223-228 | Joining `dirname(s)` and then `basename(s)` resolves to the same path as `s`. |
| Paths.BasenameDirnameJoin | backend/tus-server.js:223-224 | `d/f` has basename `f` and dirname `d`. |
| Paths.StemExt | backend/tus-server.js:253-254 | The base name and the extension concatenate back to the name. |
| UriCodec.DecodeEncode | backend/tus-server.js:165-166 | `decodeURIComponent(encodeURIComponent(s))` is `s`. |
| UriCodec.DecodeFailures | backend/tus-server.js:164-170 | A truncated or malformed escape is a decoding failure. |
| Storage.MkdirPFails | backend/tus-server.js:189 | Recursive `mkdir` fails exactly when a regular file lies on the path. |
| Storage.MkdirP | backend/tus-server.js:189 | On success the path is a directory, every existing entry is kept, and only directories on the path are added. |
| Storage.RenameSpec | backend/tus-server.js:265 | A successful rename leaves the source's content at the target and nothing at the source (unless the two are the same path, when nothing changes). Every other entry keeps its content, no other entry appears, and every entry's parent stays a directory. |
| DraftFinalize.DraftProcessTusFile | backend/temp-test/original-func.js:1-113 | The draft's step-by-step body ends as `DraftFinalizeStep` says. |
| DraftFinalize.DraftEarlyFailures | backend/temp-test/original-func.js:9-50 | A missing filename, an undecodable path or a missing blob fails with nothing changed. |
| DraftFinalize.DraftMoveSpec | backend/temp-test/original-func.js:64-108 | The single move succeeds exactly when the rename goes through and the sidecar, if present, can be deleted. On success the blob and the sidecar are gone and the content is at the target. A failed rename changes nothing, and no fallback runs. |
| DraftFinalize.DraftReachesMove | backend/temp-test/original-func.js:41-85 | Past the checks, the draft makes the directory when nothing is there and then makes its one move, with the blob unchanged. |
| DraftFinalize.DraftZeroByteIsFile | backend/temp-test/original-func.js:41-85 | A zero-byte blob is moved as a file. The draft has no directory intent. |
| DraftFinalize.DraftMatchesCurrent | backend/temp-test/original-func.js:31-35 | Without `\`, the draft picks the same directory and file path as the current engine. |
| DraftFinalize.DraftBackslashStaysFlat | backend/temp-test/original-func.js:31-35 | With `\`, the whole decoded path is one sanitised name inside `targetPath`. |
| DraftServer.DraftEngine.HandleCompletedUpload | backend/temp-test/original-tus-server.js:85-112 | It accepts exactly an id that is present and not in flight. A duplicate changes nothing. |
| DraftServer.DraftEngine.Finish | backend/temp-test/original-tus-server.js:92-111 | The draft runs `DraftFinalizeStep`, and the id leaves the registry whatever the outcome. |
| DraftServer.PatchFinishedSpec | backend/temp-test/original-tus-server.js:308-336 | A dispatch happens exactly when the request is a PATCH under the tus path with status 204, the sidecar is readable, the blob exists and `upload-length` is the blob size in decimal. |
| DraftServer.LengthMatches | backend/temp-test/original-tus-server.js:327-328 | Comparing `size.toString()` with the header as text holds exactly when the header is a canonical decimal numeral whose value is the size. |
| DraftServer.PatchLeadingZeroRejected | backend/temp-test/original-tus-server.js:327-328 | The header `010` never matches a size, because the size's decimal string is compared as text. |
| DraftServer.DraftEngine.OnPatchFinish | backend/temp-test/original-tus-server.js:313-336 | The hook adds the id exactly when `PatchFinished` detects completion, and it leaves the filesystem alone. |
| DraftServer.DraftEngine.Replay | backend/temp-test/original-tus-server.js:351-374 | The replay loop dispatches exactly the sidecars with a blob and a readable record. |
| DraftServer.ReplayIdsSnoc | backend/temp-test/original-tus-server.js:357-369 | One more name adds its id exactly when it is replayed. |
| DraftServer.ReplayIgnoresOffset | backend/temp-test/original-tus-server.js:357-369 | An upload at offset 3 of 10 is replayed as complete, while the current scanner skips it. |
| TmpServer.TmpUploadComplete | tmp/tus-server.js:42-146 | The handler ends as `TmpComplete` says. |
| TmpServer.TmpRejectsMissingMetadata | tmp/tus-server.js:49-59 | Unless all three fields are truthy, the blob is deleted and nothing is placed. |
| TmpServer.TmpPreservesExisting | tmp/tus-server.js:100-145 | No existing entry other than the blob is changed: a destination that exists is never overwritten. |
| TmpServer.TmpMoveSpec | tmp/tus-server.js:84-145 | A move lands at the computed destination, which was free, with the blob's content. A collision or a failed rename keeps the blob in staging. |
| TmpServer.TmpContained | tmp/tus-server.js:84-93 | With no `..` in `targetPath` and `relativePath`, the destination lies under `finalStorageDir`. |
| TmpServer.TmpCanEscape | tmp/tus-server.js:84-93 | With `targetPath = ".."`, the file `x` lands beside `finalStorageDir` in its parent, which is outside `finalStorageDir` unless that directory is itself named `x`. |
| TmpServer.MoveIntoPlaceSpec | tmp/tus-server.js:118-145 | A move happens only onto a destination that did not exist, and then carries the blob's content there and removes the blob. Otherwise nothing changes. No entry other than the blob is touched. |
| TmpServer.DeleteBlob | tmp/tus-server.js:52-57 | The blob is deleted, and a failed deletion is ignored. |
| UploadHandler.HandleUpload | util/modified_upload_handler.js:9-181 | No files answers 400 and changes nothing. Otherwise the loop has the state of the fold `ProcessAll`, with one result per file. A result has a path exactly when it succeeded. The status is 201 exactly when every file succeeded, otherwise 207, and successes plus failures equal the number of files. |
| UploadHandler.ProcessFile | util/modified_upload_handler.js:19-165 | A result has a path exactly when it succeeded. A failed file leaves no temp file behind. The byte limits are checked before the directory step. |
| UploadHandler.ProcessFileSpec | util/modified_upload_handler.js:49-145 | A stored file lands at `ROOT/dirname/sanitised leaf`, which was free, with its content, and the temp file is gone. No other existing entry changes. |
| UploadHandler.ConflictsFail | util/modified_upload_handler.js:80-139 | A file on the destination directory's path, or an existing destination, fails the file. |
| UploadHandler.LimitsFail | util/modified_upload_handler.js:71-76 | A path or a name over its UTF-8 byte limit fails the file before any directory is made. The only change is the deletion of the temp file. |
| UploadHandler.AtMostOneStored | util/modified_upload_handler.js:21-57 | All files of a request share one `relativePath`, so at most one file succeeds, and then it is at the destination. |
| UploadHandler.ProcessAllResults | util/modified_upload_handler.js:18-165 | There is one result per file, and a path exactly on success. |
| UploadHandler.CountsAddUp | util/modified_upload_handler.js:176-177 | Successes plus failures equal the number of results. |
| UploadHandler.NoFailures | util/modified_upload_handler.js:172-176 | No failures means every file succeeded, and conversely. |
| UploadClient.UploadSession.StartTusUpload | frontend/upload.js:186-297 | After the reset, the totals are the sum of sizes and the number of files. Every upload is registered at 0 bytes, and each gets its metadata object. |
| UploadClient.UploadSession.BuildMetadata | frontend/upload.js:208-216 | The metadata object is the one `MetadataFor` defines: the filename, the URI-encoded `relativePath \|\| file.name`, the target, and `filetype` only when the file has a type. |
| UploadClient.UploadSession.OnProgress | frontend/upload.js:238-243 | A registered upload adds its delta and stores its report. An unregistered one changes nothing. |
| UploadClient.UploadSession.OnSuccess | frontend/upload.js:250-262 | Unless cancelled, a registered upload credits its missing bytes when positive, is counted, and is removed. |
| UploadClient.UploadSession.OnError | frontend/upload.js:271-279 | Unless cancelled, the entry is removed and the number of files drops by one. |
| UploadClient.UploadSession.CancelUpload | frontend/upload.js:343-357 | The first call cancels and empties the dictionary. Later calls change nothing. |
| UploadClient.UploadSession.HideUploadModal | frontend/upload.js:70-81 | Hiding cancels unless the count is positive and equals the number of files. |
| UploadClient.ServerRecoversPath | frontend/upload.js:208-216 | The server decodes exactly `relativePath \|\| file.name` from the metadata. `filetype` is sent exactly when the file has a type. |
| UploadClient.RegisteredSpec | frontend/upload.js:205-291 | The dictionary has one key per distinct upload id, each at 0 bytes. |
| UploadClient.SumSizesAppend | frontend/upload.js:191 | The byte total of two lists is the sum of their totals. |
| UploadClient.ProgressTelescopes | frontend/upload.js:238-243 | Across successive reports, the total grows by the last report less the earlier one. Only the total and the upload's entry change. |
| UploadClient.CompletedFileCountsItsSize | frontend/upload.js:238-262 | A registered upload that reports and then succeeds adds its size, or its last report if that was larger. It is counted once. |
| UploadClient.SuccessOnce | frontend/upload.js:252-260 | A second success for the same upload changes nothing. |
| UploadClient.CancelIdempotent | frontend/upload.js:343-356 | Cancelling twice is cancelling once. After a cancel, progress, success and error change nothing. |
| UploadClient.RunConsistent | frontend/upload.js:186-357 | Every state reached from the initial values through starts, progress, success, error, cancel and hide has no uploads left once cancelled. |
| UploadClient.CancelledSessionIgnoresCallbacks | frontend/upload.js:238-357 | In every reachable session, once it is cancelled, progress, success, error and cancel change nothing, and hiding the modal keeps it cancelled. |
| UploadClient.SettleSpec | frontend/upload.js:250-279 | Settling uploads with distinct ids counts each success once, takes each failure off the number of files, and removes every settled entry. |
| UploadClient.SettledSession | frontend/upload.js:250-279 | Once every upload has settled, the count equals the number of files and equals the successes. Hiding the modal (lines 78-80) then cancels exactly when none succeeded. |
| UploadClient.FileSummaryShape | frontend/upload.js:373-379 | One file is named alone. Otherwise the first two files are named and the counts follow. |

## Left out

- Logging, `Date.now()` timings and `updateDiskUsage` are left out. The tus variants catch disk-usage failures. The multipart route calls `updateDiskUsage()` without `await` or `catch` (util/modified_upload_handler.js:169). The response is built either way; a rejected promise there is unhandled, and its effect on the process is not modelled.
- Asynchrony is left out: Promise chains, `setTimeout` delays and concurrent callbacks. Dispatch and its `finally` are the two explicit steps `HandleCompletedUpload` and `Finish`.
- The timestamp `toISOString()` is the parameter `iso`.
- The outcomes of `fs.rename`, `copyFile` and `cp -a` that the map cannot show are the parameters of `MoveIo`. The same goes for `renameOk` in the drafts and the multipart route.
- TusServer.MoveBlob: `cp -a` of a directory and the shell's quoting are not modelled; `cp` is a copy with a reported size. Once a copy has the right size, removing the source (`fs.unlink` at backend/tus-server.js:287, `rm` at line 322) is assumed to succeed. In the source a failed unlink falls through to the `cp -a` tier, and a failed `rm` reports failure.
- JSON parsing of sidecars is the parameter `read`, which returns a record or nothing. A numeric field is missing, `null` or an integer. Non-integer numbers and values of other JSON types are not modelled.
- Base64 decoding in `parseMetadataString` is the parameter `decode`. `Buffer.from(v, 'base64')` never throws, so the `catch` there cannot be reached.
- Node's `path.normalize` keeps a trailing slash; the model does not. Absolute paths inside `relativePath` resolve as relative ones, which matches `path.join`.
- Strings are sequences of Unicode scalar values. The `URIError` that JavaScript raises for a lone surrogate cannot arise.
- The sanitiser, `ROOT_DIRECTORY` and `MAX_PATH_BYTES` / `MAX_FILENAME_BYTES` of the server that installs the multipart route are parameters.
- The multipart route's `stat` and `access` errors other than "not found" are not modelled. A permission error would fail the file. The EEXIST recovery after `mkdir` cannot arise on the map.
- TusEngine.Engine.Valid: the registry is a `set` of ids; the start time and status stored in the `processingFiles` Map are logging data and are left out.
- UploadClient: the tus client itself, retries, fingerprints, the DOM writes, `formatFileSize`, speed and time estimates, `handleAllUploadsComplete` and its toasts, and the `fetch` to the log endpoint are left out.
- UploadClient.UploadSession.StartTusUpload: the missing-DOM early return of `showUploadModal` is left out; the model always resets.
- util/tus-test/, tmp/server_fix.js, `initTusServer` beyond event routing, and the Express and tus server wiring are not part of this model.
- The storage root is not enforced by the code. `Paths.ResolveStaysBelow` and `TmpServer.TmpContained` state containment only for input without `..`. The current engine also sanitises only the leaf, never the directory segments.

- UploadHandler.HandleUpload: the body fields `targetPath` and `relativePath` are single strings. A repeated form field, which the body parser turns into an array, makes `path.join` throw at util/modified_upload_handler.js:49, outside the `try`. Since every file reads the same field, the throw comes at the first file with an original name, before any move. The request then gets no response, and that file's temp file and all later ones stay in place. That outcome is not modelled.
- TusMetadata.ApplyPair: a pair whose key is `__proto__` is added to the map. In the source the assignment on a plain object calls the prototype setter, which ignores a string, so no such key appears.

- TusServer.Finalize: models the corrected program of the two findings below. The directory branch uses `mkdir -p`, and the leaf comes from the `\`-normalised path. The program as written is `TusServer.FinalizeAsWritten`. `TusServer.FinalizeAsWrittenAgrees` shows where the two agree, and `TusServer.FinalizeAcceptsFileAtDirectory` and `TusServer.FinalizeBackslashStoredFlat` show where they differ.
- TusServer.CreateDirectory: models the corrected `handleDirectoryCreation`, which fails on a file at the directory path. The program as written is `TusServer.CreateDirectoryAsWritten`, related by `TusServer.CreateDirectoryAsWrittenAgrees` and `TusServer.CreateDirectoryAcceptsFile`.
- TusServer.FinalizeZeroBytes: is stated of the corrected directory step. As written, a file at the directory path is accepted with result true and no directory (`TusServer.FinalizeAcceptsFileAtDirectory`).
- TusServer.PlaceDirectorySpec: is stated of the corrected directory step. As written, a file at the directory path itself passes for the directory (`TusServer.FileAtDirectoryAccepted`).
- TusEngine.Engine.ProcessTusFile: runs the corrected program `TusServer.Finalize`, not `TusServer.FinalizeAsWritten`. The two differ only as `TusServer.FinalizeAsWrittenAgrees` leaves open.
- TusEngine.Engine.MakeDirectory: makes the directory with `mkdir -p` where the source first tests `existsSync` (backend/tus-server.js:187). A file at the path fails here and is accepted there.
- TusEngine.Engine.HandleDirectoryCreation: runs the corrected `TusServer.CreateDirectory`. The same difference holds as for `TusEngine.Engine.MakeDirectory` (backend/tus-server.js:469).
- TusEngine.Engine.Route: `TusEngine.Engine.DeliverUploadComplete`, `TusEngine.Engine.Dispatch` and `TusEngine.Engine.ProcessExistingFiles` inherit the corrected directory step through `TusServer.CreateDirectory`.

## Findings

| source | as written | input that shows it | evidently intended | confidence | as-written member | corrected member |
|---|---|---|---|---|---|---|
| backend/tus-server.js:216 | The leaf is `basename` of the decoded path before `\` is turned into `/`, while the directory part uses the normalised path (lines 220-224). | `relativePath` `d\f`: the directory is `d`, and with the tus-utils sanitiser the file is named `d_f` instead of `f`. | The leaf is the basename of the normalised path, so that `d\f` lands at `d/f`. | not executed | TusServer.FinalizeBackslashStoredFlat | TusServer.CandidateJoinsRelativePath |
| backend/tus-server.js:188-189 | `existsSync` is the only check before `mkdir` here, at line 235 and at line 469, so a regular file at the directory's path counts as "directory already exists". | A file at `/srv/a` and a directory intent for `a`: the result is true and no directory exists. For a file upload, the move under `a` fails later. | Create the directory unless a directory is there, and fail on a file. | not executed | TusServer.FinalizeAcceptsFileAtDirectory | TusServer.PlaceDirectorySpec |
