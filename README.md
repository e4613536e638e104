# Pixelfed folder uploader — a Dafny model of its retry queue and upload logic

The uploader watches a folder for new image files and publishes each one to a Pixelfed
instance in two remote steps: upload the media, then create a post that refers to it.
Its core is a durable retry queue. The queue is an ordered list of pending uploads. A
fixed backoff table decides when a failed upload may be tried again. The whole list is
written through to a JSON file after every change.

This project models:

- `Queue` (`upload_queue.dfy`): the `UploadQueue` class. Its `items` field is the
  in-memory list. Its `disk` field is what the queue file holds: missing, unparsable or
  a list of records. Loading, `add`, `get_next` with its backoff table, `mark_success`,
  `mark_failure`, `size` and `get_stats` are all modelled. Records are compared by value,
  as Python's `list.index` and `list.remove` compare dicts, and the first equal record is
  the one acted on.
- `Uploader` (`main.dfy`): the extension allow-list, the `on_created` handler (filter,
  de-duplicate, queue once), `scan_existing_files` over a directory listing, and one step
  of `process_upload_queue`.
- `Client` (`pixelfed_client.dfy`): trailing-slash stripping of the instance address, the
  extension-to-MIME lookup, caption assembly, and the short-circuit sequencing of
  `upload_and_post`. The responses of the remote calls are inputs.
- `Text` (`text.dfy`): the Python library behaviour these rely on: `str.lower`, `str.rfind`,
  `Path.name`, `Path.suffix`, `str.rstrip('/')` and `str.join`.

Inputs replace the environment. The clock is an integer `now`, in seconds. How each
write of the queue file ends is a `WriteOutcome`: the list was written, the file could not
be opened (it is untouched), or the write failed after `open(..., 'w')` had emptied the
file (it no longer parses). The directory listing is a sequence of
`Entry` values. The connectivity probe is a boolean. Each server response is a
`Response` value (a JSON object or nothing, and an error message).

Three points of the program's behaviour shape the model:

- `mark_success` and `mark_failure` act on the first record that is structurally equal to
  the one passed in, not on that object itself, because `list.remove` and `list.index`
  compare dicts by value. `SelectedIsFirstEqual` shows this is harmless for the item
  `get_next` hands out: equal records are equally eligible, so the first equal record is
  the selected one.
- Nothing checks, when the file is loaded, that a record has `retry_count == 0` exactly
  when `last_attempt` is None. The model states this as `Queue.Consistent` and proves that
  every operation preserves it. It is not assumed for loaded records.
- `_save_queue` is not atomic: the file is emptied by `open(..., 'w')` before the list is
  dumped, and an error during the dump is only logged. `InterruptedAddLosesQueue` shows
  the consequence: after an interrupted write, a restart finds no records at all.

## Model

| member | source | states |
|---|---|---|
| `Queue.Load` | pixelfed_uploader/upload_queue.py:27-38 | a well-formed document loads as its records in order; a missing or unparsable file loads as the empty queue |
| `Queue.UploadQueue.constructor` | pixelfed_uploader/upload_queue.py:16-25 | a new queue holds what its file loads as and does not write the file |
| `Queue.AfterWrite` | pixelfed_uploader/upload_queue.py:40-47 | what the next load reads after a write: the written list; the old contents when the file could not be opened; the empty queue when the write failed after the file was emptied |
| `Queue.UploadQueue.Save` | pixelfed_uploader/upload_queue.py:40-47 | a completed write stores the whole list; a failure to create the directory or open the file leaves the file as it was; a failure during the dump or the close leaves a file that does not parse; nothing is raised |
| `Queue.Reopen` | pixelfed_uploader/upload_queue.py:23-38 | a queue opened on the file holds what the file loads as; after a successful write, the same records in the same order |
| `Queue.InterruptedAddLosesQueue` | pixelfed_uploader/upload_queue.py:40-47 | when the write of an `add` fails after the file was emptied, a restart finds an empty queue however many records were pending |
| `Queue.NewItem` | pixelfed_uploader/upload_queue.py:57-64 | a new record keeps its path, caption and enqueue time, has no error, is consistent, and is eligible at any time |
| `Queue.Failed` | pixelfed_uploader/upload_queue.py:132-134 | a failed record keeps its path, caption and enqueue time, has one more failure stamped `now` with the message, stays consistent, and is not eligible at `now` |
| `Queue.UploadQueue.Add` | pixelfed_uploader/upload_queue.py:49-66 | the list grows by one; the new last record has the given path and caption, retry count 0, no last attempt and no error; earlier records are unchanged; the file then holds what `AfterWrite` says for the outcome of the write; consistency is preserved |
| `Queue.Backoff` | pixelfed_uploader/upload_queue.py:86-99 | the delay is 0 exactly for retry count 0, at least 10 for any failed item, 300 from five failures on, and never above 300 |
| `Queue.BackoffMonotone` | pixelfed_uploader/upload_queue.py:87-99 | the backoff table never decreases |
| `Queue.Eligible` | pixelfed_uploader/upload_queue.py:83-104 | a never-attempted record is always eligible; a failed one is not within 10 seconds of its last attempt, is always eligible 300 seconds after it, and is never eligible before it |
| `Queue.FirstEligible` | pixelfed_uploader/upload_queue.py:81-106 | the position found is eligible and every earlier record is not; no position is found exactly when no record is eligible |
| `Queue.Selected` | pixelfed_uploader/upload_queue.py:76-106 | there is no item exactly when no record is eligible; otherwise the item is an eligible record all of whose predecessors are ineligible |
| `Queue.UploadQueue.GetNext` | pixelfed_uploader/upload_queue.py:69-106 | reads only; None exactly when no record is eligible (so always on an empty queue); otherwise an eligible record whose predecessors are all ineligible |
| `Queue.FailedIsBackedOff` | pixelfed_uploader/upload_queue.py:99-104 | right after a failure at `now` the record is not eligible at that same `now` |
| `Queue.FailedEligibleAgain` | pixelfed_uploader/upload_queue.py:101-104 | a failed record is eligible again exactly when the backoff for its new retry count has elapsed |
| `Queue.BackoffCeiling` | pixelfed_uploader/upload_queue.py:98-104 | however often a record has failed, it is eligible once 300 seconds have passed since its last attempt |
| `Queue.FirstEligibleAppend` | pixelfed_uploader/upload_queue.py:65 | appending a new record never changes an earlier winner; if nothing was eligible, the new record wins |
| `Queue.RetryScenario` | pixelfed_uploader/upload_queue.py:81-104 | with records a and b, a is chosen; after a fails at t, b is chosen at t and a again at t + 10 |
| `Queue.FirstIndex` | pixelfed_uploader/upload_queue.py:131 | the position found holds a record equal to the given one and no earlier record is equal; none is found exactly when no record is equal |
| `Queue.SelectedIsFirstEqual` | pixelfed_uploader/upload_queue.py:104-116 | the first record equal to the selected item is the selected position itself |
| `Queue.RemoveFirst` | pixelfed_uploader/upload_queue.py:116 | when an equal record is present, exactly the first one is removed: the length drops by one, the others keep their order, and the multiset loses one copy; otherwise nothing changes |
| `Queue.FailFirst` | pixelfed_uploader/upload_queue.py:130-134 | the length is kept; exactly the first equal record gets one more failure, stamped `now` with the message; with no equal record nothing changes |
| `Queue.FailFirstKeepsOthers` | pixelfed_uploader/upload_queue.py:131-134 | recording a failure keeps every record's path, caption and enqueue time, and leaves every other record unchanged |
| `Queue.FailFirstConsistent` | pixelfed_uploader/upload_queue.py:132-133 | recording a failure keeps every record consistent (retry count 0 exactly when never attempted) |
| `Queue.UploadQueue.MarkSuccess` | pixelfed_uploader/upload_queue.py:108-120 | the new list is the old one without its first equal record, and the file holds what `AfterWrite` says for the write; if there is no equal record, it is a no-op that neither writes nor raises |
| `Queue.UploadQueue.MarkFailure` | pixelfed_uploader/upload_queue.py:122-140 | the first equal record gets retry count + 1, last attempt `now` and the error; everything else is unchanged; the file holds what `AfterWrite` says for the write; with no equal record it is a no-op |
| `Queue.CountNeverAttempted` | pixelfed_uploader/upload_queue.py:166 | the number of never-attempted records is at most the total |
| `Queue.CountRetrying` | pixelfed_uploader/upload_queue.py:167 | the number of attempted records is at most the total |
| `Queue.CountsPartition` | pixelfed_uploader/upload_queue.py:166-167 | never attempted plus retrying is the total |
| `Queue.CountsAppend` | pixelfed_uploader/upload_queue.py:166-167 | both counts add up over concatenation |
| `Queue.MaxRetryCount` | pixelfed_uploader/upload_queue.py:168 | the maximum retry count bounds every record's count and is attained, or is 0 for an empty queue |
| `Queue.StatsOf` | pixelfed_uploader/upload_queue.py:158-175 | total is the length; never attempted plus retrying is the total; the maximum bounds and is attained; all counters are zero for an empty queue |
| `Queue.UploadQueue.GetStats` | pixelfed_uploader/upload_queue.py:151-175 | the counters of the current list: total is the length, never attempted is the count of never-attempted records, the two counts partition the total, and the maximum bounds and is attained |
| `Queue.UploadQueue.Size` | pixelfed_uploader/upload_queue.py:142-149 | the size equals the total in the statistics |
| `Queue.StatsAfterAdd` | pixelfed_uploader/upload_queue.py:57-66 | after `add`, the total and the never-attempted count each grow by one; retrying and the maximum are unchanged |
| `Queue.StatsAfterRemove` | pixelfed_uploader/upload_queue.py:115-117 | after a removal the total drops by exactly one and the maximum does not grow |
| `Queue.StatsAfterFailure` | pixelfed_uploader/upload_queue.py:130-135 | after a failure the total is unchanged, the maximum is at least the new retry count, and the never-attempted count drops by one exactly when the record had not been attempted |
| `Uploader.IsImagePath` | pixelfed_uploader/main.py:51 | the filter of `on_created` and `scan_existing_files` (also main.py line 79), the lower-cased suffix being in the allow-list; what it accepts is characterised by `IsImagePathIff` |
| `Uploader.ExtensionShape` | pixelfed_uploader/main.py:29 | every allowed extension is a dot followed by at least one character that is not a dot |
| `Uploader.SuffixHasExtension` | pixelfed_uploader/main.py:51 | a non-empty suffix, lower-cased, ends the lower-cased file name and is shorter than it |
| `Uploader.ImagePathHasExtension` | pixelfed_uploader/main.py:51 | an accepted path's file name ends, ignoring case, with its allowed extension and is longer than it |
| `Uploader.HasExtensionIsImagePath` | pixelfed_uploader/main.py:51 | a file name that is longer than an allowed extension and ends with it, ignoring case, has that extension as its lower-cased suffix |
| `Uploader.IsImagePathIff` | pixelfed_uploader/main.py:51 | a path is accepted exactly when its file name ends, ignoring case, with an allowed extension and is longer than it |
| `Uploader.IsImagePathIgnoresCase` | pixelfed_uploader/main.py:51 | the extension filter gives the same answer for two paths that differ only in case |
| `Uploader.UpperCaseAccepted` | pixelfed_uploader/main.py:51-52 | `IMAGE.JPG` is accepted |
| `Uploader.HasExtensionLastChar` | pixelfed_uploader/main.py:29 | a path whose name ends, ignoring case, with an allowed extension ends in `g`, `f` or `p`, ignoring case |
| `Uploader.LastCharTRejected` | pixelfed_uploader/main.py:51 | a path ending in `t` or `T` is never accepted, since every allowed extension ends in `g`, `f` or `p` |
| `Uploader.TextFileRejected` | pixelfed_uploader/main.py:51-52 | any path ending in `.txt` is rejected |
| `Uploader.BareExtensionRejected` | pixelfed_uploader/main.py:51-52 | a file named only `.jpg`, in any directory, has no suffix and is rejected |
| `Uploader.AcceptedIffImageMime` | pixelfed_uploader/main.py:29 | the watcher accepts a path exactly when the client would send it with an image MIME type |
| `Uploader.Accepts` | pixelfed_uploader/main.py:45-56 | the decision of `on_created`: not a directory, an allowed extension, and not yet processed |
| `Uploader.AcceptsOnce` | pixelfed_uploader/main.py:55-64 | once a path is recorded as processed, a further event for it is ignored |
| `Uploader.CollectFiles` | pixelfed_uploader/main.py:77-80 | every collected path is accepted by the filter |
| `Uploader.CollectFilesStep` | pixelfed_uploader/main.py:77-80 | listing one more entry adds its path exactly when it is a regular file the filter accepts, and otherwise adds nothing |
| `Uploader.CollectFilesIff` | pixelfed_uploader/main.py:77-80 | a path is collected exactly when some listed entry with that path is a regular file the filter accepts |
| `Uploader.ExistingImages` | pixelfed_uploader/main.py:77-80 | the set `scan_existing_files` returns: the listed regular files with an allowed extension; every member passes the filter (via `CollectFiles`), and `ExistingImagesIff` characterises membership |
| `Uploader.ExistingImagesIff` | pixelfed_uploader/main.py:78-80 | a path is collected exactly when some entry with that path is a regular file whose lower-cased suffix is allowed |
| `Uploader.StartupFilesNeverQueued` | pixelfed_uploader/main.py:161-165 | an image file present at start-up is recorded as processed, so no event for it is queued |
| `Uploader.ScanExistingFiles` | pixelfed_uploader/main.py:67-82 | the result is exactly the paths of the regular file entries with an allowed extension |
| `Uploader.FailureMessage` | pixelfed_uploader/main.py:119 | the recorded error is never empty: the client's message if it gave a non-empty one, otherwise "Unknown error" |
| `Uploader.ImageUploadHandler.constructor` | pixelfed_uploader/main.py:31-41 | the handler keeps the queue and the processed-files set it is given |
| `Uploader.ImageUploadHandler.OnCreated` | pixelfed_uploader/main.py:43-64 | a directory, a non-image path or a processed path changes neither the queue nor the set; otherwise `add` appends the path once with an empty caption and the path is recorded |
| `Uploader.ProcessUploadQueue` | pixelfed_uploader/main.py:85-126 | with an empty queue, no connection or no eligible record, nothing changes; otherwise the first eligible record is attempted and, on success, exactly that position is removed, or, on failure, exactly that position gets one more failure with the client's error or "Unknown error" |
| `Client.MimeType` | pixelfed_uploader/pixelfed_client.py:197-208 | the generic binary type is returned exactly when the lower-cased suffix is not in the table; otherwise the table's type for that suffix |
| `Client.MimeTypeIgnoresCase` | pixelfed_uploader/pixelfed_client.py:200 | the MIME type does not depend on the case of the path |
| `Client.MimeTypeExamples` | pixelfed_uploader/pixelfed_client.py:200-208 | `test.JPG` maps to `image/jpeg`; `test.unknown` maps to `application/octet-stream` |
| `Client.NonEmpty` | pixelfed_uploader/pixelfed_client.py:181-187 | the kept caption parts are never empty and are no more than the given ones |
| `Client.NonEmptyOfThree` | pixelfed_uploader/pixelfed_client.py:181-187 | the three conditional appends keep exactly the non-empty texts, in order |
| `Client.PostCaption` | pixelfed_uploader/pixelfed_client.py:181-189 | the caption of a post: the non-empty texts among caption, default caption and licence, in that order, joined by single spaces; its properties are the three `PostCaption…` lemmas |
| `Client.PostCaptionEmpty` | pixelfed_uploader/pixelfed_client.py:181-189 | the post caption is empty exactly when caption, default caption and licence are all empty |
| `Client.PostCaptionAll` | pixelfed_uploader/pixelfed_client.py:181-189 | with all three texts present the caption is the three joined by single spaces |
| `Client.PostCaptionSingle` | pixelfed_uploader/pixelfed_client.py:181-189 | with only one text present the caption is that text |
| `Client.Truthy` | pixelfed_uploader/pixelfed_client.py:171 | Python truthiness of a returned object: present and not empty |
| `Client.MediaId` | pixelfed_uploader/pixelfed_client.py:174-175 | `media.get('id')` when it is truthy: present and not the empty string |
| `Client.PixelfedClient.constructor` | pixelfed_uploader/pixelfed_client.py:17-30 | the stored instance address is the given one with all trailing slashes stripped, so it does not end in a slash |
| `Client.PixelfedClient.UploadAndPost` | pixelfed_uploader/pixelfed_client.py:159-195 | a post is requested exactly when the upload returned an object with an id, and it carries that id and the assembled caption; success holds exactly when that post came back, and then there is no error; an empty upload returns the upload's error; a missing id returns a "No media ID" message; a failed post returns the post's error |
| `Text.Lower` | pixelfed_uploader/main.py:51 | lower-casing keeps the length and lowers each character on its own |
| `Text.LastIndex` | pixelfed_uploader/main.py:51 | `str.rfind`: the position found holds the character and nothing after it does; -1 exactly when the character is absent |
| `Text.Name` | pixelfed_uploader/main.py:51 | `Path.name`: a tail of the path that contains no '/'; `NameIsLastComponent` adds that it starts right after the last '/' |
| `Text.NameIsLastComponent` | pixelfed_uploader/main.py:51 | the name is the whole path, or the character just before it is a '/', so together with `Name`'s contract it is exactly the part after the last '/' |
| `Text.Suffix` | pixelfed_uploader/main.py:51 | a suffix is empty or a dot followed by at least one non-dot character, and it ends the file name without being all of it |
| `Text.SuffixLower` | pixelfed_uploader/main.py:51 | taking the suffix and lower-casing can be done in either order |
| `Text.SuffixIgnoresCase` | pixelfed_uploader/main.py:51 | two paths equal up to case have suffixes equal up to case |
| `Text.RStripSlash` | pixelfed_uploader/pixelfed_client.py:27 | the result is a prefix of the input, does not end in a slash, and only slashes were removed |
| `Text.RStripSlashIdempotent` | pixelfed_uploader/pixelfed_client.py:27 | stripping a second time changes nothing |
| `Text.Join` | pixelfed_uploader/pixelfed_client.py:189 | `" ".join`: no parts give the empty string, one part gives itself, and the result starts with the first part |
| `Text.JoinNonEmpty` | pixelfed_uploader/pixelfed_client.py:189 | joining non-empty parts gives the empty string exactly when there are no parts |

## Left out

- HTTP transport: `check_connection`, `upload_media` and `create_post` are network I/O, including their timeouts and exception classification. Their outcomes are inputs: a boolean for the probe and a `Response` for each call. `upload_media`'s check that the file exists and its choice of MIME type for the request are part of that transport.
- JSON encoding and the file system: `json.dump`/`json.load`, `mkdir` and the exceptions they raise. The file is modelled by what it holds, and how a write ends is the `WriteOutcome` input. A write that fails after the file was emptied is modelled as leaving a file that does not parse; which bytes it leaves is not modelled.
- Malformed records: a loaded document is taken to be a list of well-typed records. Missing keys, which would make `get_next` raise, and negative or non-integer retry counts are not modelled.
- Time conversion: `datetime.isoformat`/`fromisoformat` and the float `time.time()`. Times are whole seconds. The clock at selection (`now`) and at the failure stamp (`later`) are separate inputs of the poll step.
- Non-string JSON values: server objects are maps from strings to strings. A media `id` that is a number in the server's JSON is not covered.
- Unicode case mapping: only the ASCII letters A–Z are lowered, where Python's `str.lower` maps all of Unicode.
- Path normalisation by `pathlib.Path` (collapsing `//`, dropping `.` components and trailing slashes): paths are taken to be in normal form already.
- Process plumbing: the watchdog `Observer`, the one-second settle sleep in `on_created`, the two-second poll sleep, the `KeyboardInterrupt` shutdown, `load_dotenv`/`os.getenv` configuration and `sys.exit(1)` in `main()`.
- Concurrency: the watcher thread calls `add` while the poll loop changes the queue, without a lock. The model treats every call as atomic.
- Logging throughout, including the queue statistics logged by `process_upload_queue`.
- `item.get('caption', '')` in `process_upload_queue`: every modelled record has a caption, so the default never applies.
