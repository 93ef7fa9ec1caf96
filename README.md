# Image resizer and mailbox converter, modelled in Dafny

This project models the logic of two maintenance scripts. Each model is stated in Dafny and its properties are proved.

**SharePoint image resizer** (`Others/sharepoint-image-resizer.py`). It walks a SharePoint document library and picks up the images. For each image it:

1. downloads the original;
2. writes a local backup under `BACKUP_ROOT/<site>[/<library>]/<relative dir>/`;
3. shrinks images whose longer edge exceeds `MAX_EDGE_PX`;
4. deletes the original (delete mode) or renames it to `<base>_original<ext>`;
5. uploads the shrunk copy as `<base>_2k<ext>`, with one PUT up to 3,900,000 bytes and an upload session of 5 MiB ranges above that.

The model covers:

- the selection rules and the planned names, including `os.path.splitext` in its posix form;
- the format table and the resize decision;
- the chunked-upload loop and its byte ranges;
- `relative_dir_from_parent_path`, `sanitize_fs` (the regular expression as a scan) and `compute_backup_base`;
- `save_local_backup` over a file system map;
- the folder walk with its explicit stack;
- the body of the main loop with all of its counters.

The world's answers come in as parameters: Graph listings, download results, Pillow's decoded sizes and encodings, HTTP statuses, and write failures.

**Dovecot-to-mbox converter** (`Others/convert-dovecot-to-mbox.py`). The model covers:

- Python's string order and `choose_best_name`;
- the grouping of user entries by the directory they resolve to;
- the list of unique mailboxes;
- the output file name;
- `format_duration`;
- the progress percentage and the lines the copy loop reports;
- `convert_maildir` (skip when the file exists, otherwise copy every message);
- the single-worker loop of `main`.

Modules, in dependency order:

- `Wrappers` and `Bytes`: Option and Result, and bytes.
- `Text`: the `str` methods used.
- `Decimal`: `str(n)` and `{:02d}`, with read-back.
- `PosixPath`: `splitext` and `join`.
- `DriveItems`, `Resize`, `Upload`, `Backup`, `Walk` and `Pipeline`: the resizer.
- `Mailboxes`, `Progress` and `Export`: the converter.

The source's in-place state is imperative Dafny:

- the walk's stack loop (`Walk.WalkItems`);
- the chunk loop (`Upload.UploadChunked`);
- the backup writes (`Backup.BackupStore`);
- the resizer's main loop (`Pipeline.Run` and `Pipeline.ProcessItem`);
- the grouping dictionary (`Mailboxes.GroupMailboxes`);
- the mbox copy loop (`Export.ExportDir`).

Each of them is proved equal to a specification function, and the lemmas are stated about those functions.

## Model

| member | source | states |
|---|---|---|
| Text.Lower | Others/sharepoint-image-resizer.py:251-252 | lower-casing keeps the length and is the character-wise ASCII `lower` |
| Text.Find | Others/sharepoint-image-resizer.py:293 | the first occurrence of the pattern, or -1 exactly when there is none |
| Text.StripSpec | Others/sharepoint-image-resizer.py:305 | the result neither starts nor ends with a droppable character, and it sits in the input at a position with only droppable characters before and after it |
| Text.ReplaceChar | Others/convert-dovecot-to-mbox.py:145 | same length; each occurrence of the character is replaced and the rest kept |
| Decimal.Digits | Others/sharepoint-image-resizer.py:279 | `str(n)`: non-empty digits with no leading zero, one digit exactly below 10 |
| Decimal.DigitsValue | Others/sharepoint-image-resizer.py:279 | reading back `str(n)` gives `n` |
| Decimal.DigitsInjective | Others/sharepoint-image-resizer.py:279 | distinct numbers are rendered differently |
| Decimal.Pad2 | Others/convert-dovecot-to-mbox.py:39 | `{:02d}`: digits that read back as `n`, two of them below 10, `str(n)` otherwise |
| PosixPath.SplitExt | Others/sharepoint-image-resizer.py:236 | base + extension is the name, and the extension is empty or a `.` with no `.` or `/` after it |
| PosixPath.SplitExtFindsExtension | Others/sharepoint-image-resizer.py:236 | an extension is found exactly when a `.` follows a non-dot character of the last component (leading dots never count) |
| PosixPath.SplitExtInsert | Others/sharepoint-image-resizer.py:237-239 | inserting a plain tag before the extension keeps the extension and extends the base |
| PosixPath.Join | Others/sharepoint-image-resizer.py:318 | an absolute part replaces the path; otherwise one `/` is inserted unless the path is empty or already ends in `/`; its laws over several parts are `Backup.JoinAllKeepsPrefix` and `Backup.JoinAllEndsInLast` |
| DriveItems.Select | Others/sharepoint-image-resizer.py:374-378 | candidate exactly when not a folder, an image by MIME type or listed extension, and the base carries neither tag; already-suffixed exactly for tagged images |
| DriveItems.PlanNames | Others/sharepoint-image-resizer.py:237-239 | the two planned names differ from each other and from the original, and keep base and extension |
| DriveItems.PlanNamesSplit | Others/sharepoint-image-resizer.py:237-239 | `splitext` of each planned name is the original base with its tag and the original extension |
| DriveItems.PlannedNamesNotCandidates | Others/sharepoint-image-resizer.py:376-378 | a file carrying a planned name is never taken up again |
| Resize.ResizeImage | Others/sharepoint-image-resizer.py:255-267 | a decode error exactly when the bytes do not decode; an encode error exactly when a decoded image above the bound cannot be shrunk and saved; resized exactly when the longer edge exceeds the bound and the save succeeds, giving the saved bytes; unchanged bytes otherwise; the format comes from the table |
| Resize.FormatForIgnoresCase | Others/sharepoint-image-resizer.py:262 | the table lookup ignores letter case |
| Resize.FormatTableMatchesImageExtensions | Others/sharepoint-image-resizer.py:261-262 | the table has exactly the keys of `IMG_EXT`; unlisted extensions give JPEG; each other format for exactly its extensions |
| Upload.ChooseUpload | Others/sharepoint-image-resizer.py:448-451 | the single PUT exactly for payloads up to 3,900,000 bytes |
| Upload.ContentRange | Others/sharepoint-image-resizer.py:279-280 | the header starts with `bytes <off>-` and ends with `-<end-1>/<total>` |
| Upload.PlanContiguous | Others/sharepoint-image-resizer.py:276-282 | the ranges start at 0, follow each other without gap or overlap, and end at the total |
| Upload.PlanWellFormed | Others/sharepoint-image-resizer.py:277-279 | each range is non-empty, cut at `min(off+chunk, total)`, and its piece and Content-Length match it |
| Upload.PlanJoined | Others/sharepoint-image-resizer.py:276-282 | the pieces concatenate to the whole payload |
| Upload.PlanCount | Others/sharepoint-image-resizer.py:276-282 | there are `ceil(total / chunk)` PUTs |
| Upload.UploadChunked | Others/sharepoint-image-resizer.py:273-283 | sends a prefix of the plan; succeeds exactly when every planned PUT is accepted and then sent everything; otherwise stops right at the first refused status |
| Upload.StoppedEarly | Others/sharepoint-image-resizer.py:281 | a refused PUT means the plan was not accepted throughout |
| Upload.SixMegabytesInTwoPuts | Others/sharepoint-image-resizer.py:273-282 | 6 MiB with the default chunk goes up as `[0, 5 MiB)` and `[5 MiB, 6 MiB)` |
| Backup.DrivePathTail | Others/sharepoint-image-resizer.py:293-294 | a suffix of the path after the first `:/` (if any) with leading slashes dropped, and nothing else dropped |
| Backup.BelowStartFolder | Others/sharepoint-image-resizer.py:295-298 | the result is a suffix of the path |
| Backup.BelowStartFolderCases | Others/sharepoint-image-resizer.py:295-298 | the start folder itself gives ""; a path below it yields what follows `folder/`, with the prefix matched case-insensitively and the rest in its own case; other paths are kept |
| Backup.RelativeDir | Others/sharepoint-image-resizer.py:286-299 | "" for an empty path; the folder-relative tail when the tree is preserved and a start folder is set; otherwise the tail; always a suffix of the input |
| Backup.RelativeDirExample | Others/sharepoint-image-resizer.py:288-290 | the docstring's example gives `2024/Events` |
| Backup.StartFolderCaseExample | Others/sharepoint-image-resizer.py:296-298 | start folder `/photos/` and parent `Photos/Trip` give `Trip` |
| Backup.Collapse | Others/sharepoint-image-resizer.py:304 | the scan leaves no forbidden character and never lengthens the text |
| Backup.CollapseReplacesRun | Others/sharepoint-image-resizer.py:304 | each maximal run of forbidden characters between ordinary text becomes exactly one `_` |
| Backup.CollapseKeeps | Others/sharepoint-image-resizer.py:304 | text without forbidden characters is unchanged |
| Backup.SanitizeFs | Others/sharepoint-image-resizer.py:301-305 | "" for "", no forbidden characters, no leading or trailing `.`, never longer |
| Backup.SanitizeNotDotDirectory | Others/sharepoint-image-resizer.py:305 | the result is never `.` or `..` |
| Backup.SanitizeKeepsSafeName | Others/sharepoint-image-resizer.py:301-305 | a name that is already safe is kept |
| Backup.SanitizeIdempotent | Others/sharepoint-image-resizer.py:301-305 | sanitizing twice changes nothing more, provided the first result has no white space at either end |
| Backup.SanitizeNotIdempotent | Others/sharepoint-image-resizer.py:305 | without that condition it fails: `". a"` sanitizes to `" a"`, and that to `"a"`, because white space is stripped before dots |
| Backup.BaseParts | Others/sharepoint-image-resizer.py:313-317 | the site and library parts appear exactly as the two switches say, and are sanitized |
| Backup.JoinAllKeepsPrefix | Others/sharepoint-image-resizer.py:318 | joining parts free of `/` keeps the first path as a prefix |
| Backup.JoinAllEndsInLast | Others/sharepoint-image-resizer.py:318 | joining parts free of `/` ends in the last part |
| Backup.ComputeBackupBase | Others/sharepoint-image-resizer.py:307-318 | starts with the root; is the root when neither part is used; is `join(root, site)`, `join(root, library)` or `join(join(root, site), library)`, with each part sanitized, as the two switches say |
| Backup.BaseJoined | Others/sharepoint-image-resizer.py:307-318 | the base is the root joined with each enabled sanitized part, in the order site then library |
| Backup.DefaultBackupBase | Others/sharepoint-image-resizer.py:307-318 | with root `f:/`, site on and library off, the base is `f:/` followed by the sanitized site name |
| Backup.BackupPath | Others/sharepoint-image-resizer.py:326-329 | for relative parts the file lies under the backup base, and it always ends with the file name |
| Backup.Save | Others/sharepoint-image-resizer.py:329-335 | an existing file without overwrite is left alone; a failing open is an error with nothing written; otherwise the bytes are written |
| Backup.SaveTwiceWritesOnce | Others/sharepoint-image-resizer.py:331-335 | without overwrite, a second save of the same path reports `False` and changes nothing |
| Backup.SaveTouchesOnlyPath | Others/sharepoint-image-resizer.py:333-335 | no other path is created, removed or changed |
| Backup.SaveOutcome | Others/sharepoint-image-resizer.py:331-335 | `True` means exactly the new bytes are at the path; otherwise the disk is unchanged |
| Backup.BackupStore.SaveLocalBackup | Others/sharepoint-image-resizer.py:320-335 | returns the full path and whether it wrote; the disk afterwards is that of `Save` |
| Walk.FolderIds | Others/sharepoint-image-resizer.py:205 | at most one id per child, and every id pushed is that of a folder child |
| Walk.FolderIdsInOrder | Others/sharepoint-image-resizer.py:205 | the ids pushed are those of all the folder children, each once, in listing order |
| Walk.WalkItems | Others/sharepoint-image-resizer.py:201-207 | the stack loop yields exactly what the walk specification yields, and fails exactly when it does |
| Walk.WalkNonRecursive | Others/sharepoint-image-resizer.py:201-207 | without recursion: exactly the start folder's children, or nothing and failure when the start cannot be listed |
| Walk.WalkCoversAll | Others/sharepoint-image-resizer.py:201-207 | on an acyclic, listable tree, every item below the stacked folders is yielded once per occurrence |
| Walk.WalkYieldsDescendants | Others/sharepoint-image-resizer.py:201-207 | the recursive walk from the start yields each descendant exactly once per occurrence, and succeeds |
| Pipeline.BackupStep | Others/sharepoint-image-resizer.py:393-406 | no backup when disabled; only a preview in a dry run without `DEBUG_DRYRUN_SAVE`; otherwise the save to the backup path is made, and its outcome gives the event: failed, saved or already there |
| Pipeline.DryNoteFor | Others/sharepoint-image-resizer.py:421-435 | the dry run reports the `_2k` name, plus the `_original` name in rename mode, as `plan_names` gives them |
| Pipeline.Actions | Others/sharepoint-image-resizer.py:440-473 | done exactly when both the first call and the upload succeed; at most two remote calls |
| Pipeline.ItemEffect | Others/sharepoint-image-resizer.py:373-475 | ignored exactly for folders and non-images; suffixed exactly for already-tagged images; target-exists exactly for candidates in rename mode with `SKIP_IF_EXISTS` whose `_2k` file exists; download-failed exactly for the other candidates whose download fails; these four fates change nothing and report nothing |
| Pipeline.Tally | Others/sharepoint-image-resizer.py:378-475 | `total` counts the candidates; `created` counts the items done; `processed` counts done and dry-run items; each item adds to `processed + skipped + errors` what it adds to `total`, plus one when suffixed and one when its backup failed |
| Pipeline.ProcessItem | Others/sharepoint-image-resizer.py:373-475 | the imperative loop body through the backup store gives exactly the item's specified effect |
| Pipeline.BackupItem | Others/sharepoint-image-resizer.py:393-406 | the backup step through the store leaves the disk and reports the event exactly as the backup specification does |
| Pipeline.ShrinkEffect | Others/sharepoint-image-resizer.py:408-475 | after the backup step: the resize fails exactly when the bytes do not decode or an image above the bound cannot be shrunk and saved; a dry run reports exactly the images decoded larger than the bound and shrunk, with the `plan_names` note; a real run makes exactly the remote calls of those images; any other item makes no call and is not done |
| Pipeline.Run | Others/sharepoint-image-resizer.py:372-475 | walk then loop: files, remote calls, notes and counters equal the run specification over what the walk yields |
| Pipeline.OnlyCandidatesTouched | Others/sharepoint-image-resizer.py:374-378 | items that are not candidates change nothing and are not counted in `total` |
| Pipeline.ActionsShape | Others/sharepoint-image-resizer.py:440-466 | delete or rename to `_original` first; an upload only after that, to the same parent as `_2k`, as a single PUT exactly up to 3,900,000 bytes |
| Pipeline.DryRunIsHarmless | Others/sharepoint-image-resizer.py:395-437 | a dry run makes no remote call, and without `DEBUG_DRYRUN_SAVE` it writes nothing locally |
| Pipeline.ChangesOnlyWhenShrunk | Others/sharepoint-image-resizer.py:383-475 | remote calls happen only for candidates outside a dry run that passed the existence check, downloaded, decoded larger than the bound and were shrunk and saved, and after a successful first call |
| Pipeline.UploadTargetIsResizedName | Others/sharepoint-image-resizer.py:447-466 | the uploaded file is the `_2k` name with the original extension and is never a later candidate |
| Pipeline.DeleteThenFailedUpload | Others/sharepoint-image-resizer.py:441-451 | in delete mode a failed upload after a successful delete leaves only the delete |
| Pipeline.DryReportMatchesRealRun | Others/sharepoint-image-resizer.py:421-458 | the name a dry run reports is the upload target of the real run |
| Pipeline.DryNoteAsWrittenNamesBackupDir | Others/sharepoint-image-resizer.py:397-423 | as written, the dry run for `photo.JPG` reports `f:/<site>_2k.JPG`, not `photo_2k.JPG` |
| Pipeline.DryNoteAsWrittenIsWrong | Others/sharepoint-image-resizer.py:397-423 | as written, whenever the file's base differs from the backup base, the note names `<backup base>_2k<ext>` in delete mode and never matches the corrected note |
| Pipeline.SitenameSafe | Others/sharepoint-image-resizer.py:78 | the shipped site name is already safe, so the example applies to it |
| Pipeline.Candidates | Others/sharepoint-image-resizer.py:380 | at most one count per item |
| Pipeline.ItemUploads | Others/sharepoint-image-resizer.py:448-452 | an item adds one upload exactly when it ends done |
| Pipeline.ActionsUploads | Others/sharepoint-image-resizer.py:440-473 | the remote calls of an item contain one upload exactly when it ends done |
| Pipeline.RunCounters | Others/sharepoint-image-resizer.py:368-475 | `total` is the number of candidates; `created` is the number of uploads made; `created <= processed <= total` |
| Pipeline.Results | Others/sharepoint-image-resizer.py:373-475 | one result per item the loop visits |
| Pipeline.Tagged | Others/sharepoint-image-resizer.py:378 | at most one count per item |
| Pipeline.TallyAccounts | Others/sharepoint-image-resizer.py:378-475 | tallying one more result keeps every counter equal to the count of its kind among the results |
| Pipeline.RunAccounting | Others/sharepoint-image-resizer.py:367-492 | each summary counter counts its results: `processed` the done and dry-run ones, `skipped` the suffixed, target-exists and small ones, `errors` the failed steps plus the failed backups, `backup_saved` the saved copies, `backup_skipped` the copies already there; the byte totals add up the items' sizes |
| Pipeline.CountPartition | Others/sharepoint-image-resizer.py:378-475 | finished, passed-over and failed results together are the counted ones plus the suffixed ones |
| Pipeline.SuffixedTagged | Others/sharepoint-image-resizer.py:378 | the suffixed results are exactly the already-tagged items |
| Pipeline.RunBalance | Others/sharepoint-image-resizer.py:367-488 | `processed + skipped + errors == total + tagged + failed backups`: each counted item ends in exactly one of processed, skipped or a failed step |
| Mailboxes.StrLeTotal | Others/convert-dovecot-to-mbox.py:34 | Python's string order is total |
| Mailboxes.StrLeAntisym | Others/convert-dovecot-to-mbox.py:34 | and antisymmetric |
| Mailboxes.StrLeTrans | Others/convert-dovecot-to-mbox.py:34 | and transitive |
| Mailboxes.LeastExists | Others/convert-dovecot-to-mbox.py:34-35 | every non-empty set has a first element in sorted order |
| Mailboxes.Least | Others/convert-dovecot-to-mbox.py:34-35 | `sorted(names)[0]` is a member that no member precedes |
| Mailboxes.Dotted | Others/convert-dovecot-to-mbox.py:32 | exactly the names containing `.` |
| Mailboxes.ChooseBestName | Others/convert-dovecot-to-mbox.py:31-35 | a member; with dotted names, a dotted one that is least among them; otherwise the least name |
| Mailboxes.ChooseBestNameIsBest | Others/convert-dovecot-to-mbox.py:31-35 | the chosen name is exactly the one name meeting the independent description |
| Mailboxes.ChooseBestNameAdd | Others/convert-dovecot-to-mbox.py:116 | adding a name to a group keeps its best name or makes the new name the best |
| Mailboxes.GroupMailboxes | Others/convert-dovecot-to-mbox.py:107-116 | one group exactly per real path with `cur`; its names are exactly the user names resolving there; its count is the first one's; insertion order is first-seen and duplicate-free |
| Mailboxes.AddEntry | Others/convert-dovecot-to-mbox.py:108-116 | one pass over a users-directory entry keeps the grouping invariant: skipped without `cur`, a new group placed last for a new path, the name added to its group |
| Mailboxes.CollectInfo | Others/convert-dovecot-to-mbox.py:118-121 | one line per group in dictionary order, named by `choose_best_name` |
| Mailboxes.UniqueMailboxes | Others/convert-dovecot-to-mbox.py:106-121 | one line exactly per distinct real path with `cur`; paths do not repeat; each is named by `choose_best_name` of its names |
| Mailboxes.NameInOwnGroupOnly | Others/convert-dovecot-to-mbox.py:108-116 | a user with `cur` is in the group of its own real path and in no other |
| Mailboxes.MboxFileName | Others/convert-dovecot-to-mbox.py:145 | no spaces; ends in `.mbox`; five characters longer; each space becomes `_`; other characters kept |
| Mailboxes.OutputFile | Others/convert-dovecot-to-mbox.py:153 | ends with the mbox file name, and lies under `dest` unless the name itself starts with `/` |
| Mailboxes.MboxFileNameMergesSpaces | Others/convert-dovecot-to-mbox.py:145 | a space and an underscore give the same file name |
| Mailboxes.OutputFileMergesSpaces | Others/convert-dovecot-to-mbox.py:153 | and the same output path |
| Mailboxes.MboxFileNameInjective | Others/convert-dovecot-to-mbox.py:145 | names without underscores map to distinct files |
| Progress.FormatDuration | Others/convert-dovecot-to-mbox.py:37-39 | `mm:ss` whose fields read back as minutes·60 + seconds = input, with seconds below 60; the minutes field has two digits below 10 minutes and as many as `str(minutes)` otherwise |
| Progress.FormatDurationLong | Others/convert-dovecot-to-mbox.py:38-39 | minutes are not capped: from 100 minutes on the field has more than two digits |
| Progress.Percent | Others/convert-dovecot-to-mbox.py:68-71 | 100 for an empty Maildir; otherwise the floor of count·100/total |
| Progress.PercentBounds | Others/convert-dovecot-to-mbox.py:68-71 | at most 100 while count ≤ total, and 100 at count = total |
| Progress.PercentMonotone | Others/convert-dovecot-to-mbox.py:68-71 | non-decreasing in the count |
| Progress.LinesUpTo | Others/convert-dovecot-to-mbox.py:73-80 | at most one line per message copied |
| Progress.LinesCounts | Others/convert-dovecot-to-mbox.py:73-80 | each line shows its count's percentage, and the counts rise strictly |
| Progress.LinesPercent | Others/convert-dovecot-to-mbox.py:68-80 | reported percentages never go down and stay within 100 |
| Progress.LinesComplete | Others/convert-dovecot-to-mbox.py:73-80 | one line per message with one worker; the last line reads 100% when the count is right |
| Progress.OneLineEach | Others/convert-dovecot-to-mbox.py:78-80 | the single-worker live update writes a line for every message |
| Export.Jobs | Others/convert-dovecot-to-mbox.py:144-146 | one job per line, for its output file and its Maildir's messages |
| Export.ExportDir.ConvertMaildir | Others/convert-dovecot-to-mbox.py:41-80 | an existing output file is left alone; otherwise the file holds exactly the Maildir's messages, and the progress lines are `LinesUpTo` |
| Export.ExportDir.ConvertAll | Others/convert-dovecot-to-mbox.py:143-146 | the directory ends as the fold of the jobs, and each flag tells whether that job's file was new |
| Export.ExportedKeepsExisting | Others/convert-dovecot-to-mbox.py:45-48 | existing files are never overwritten; the only files added are the jobs' output files |
| Export.ExportedContent | Others/convert-dovecot-to-mbox.py:144-146 | a mailbox whose file is new and not shared with an earlier one gets exactly its own messages |
| Export.SharedFileSkipped | Others/convert-dovecot-to-mbox.py:45-48 | a later mailbox whose file an earlier one created changes nothing |

## Left out

- Microsoft identity sign-in and token refresh, and every Graph and HTTP request. `list_children` pagination, `exists_in_parent`, downloads, renames, deletes, the upload session and the single PUT are network I/O. Their answers are parameters (`Listing`, `Env`, the status function of `UploadChunked`).
- Pillow: decoding, EXIF rotation, `thumbnail` sizes, mode conversion and encoding are foreign code. The decoded size, the thumbnail size and the encoded bytes come in as parameters. The encoded bytes are an `Option`: None stands for `thumbnail`, `convert` or `save` raising, for instance on a mode that JPEG cannot store. Which inputs make Pillow raise is not modelled.
- `human_size`, `calc_saving` and the saving percentages of the summary use floating point. Only the byte totals are counted.
- Logging, ANSI colours, argparse, `sys.exit`, and the clocks (`time.time`). In the converter only `int(seconds)` enters `FormatDuration`, as a `nat`.
- The resizer's `renamed` counter is never updated, so it is left out.
- The order of the user directories (`sorted(os.listdir(...))`) is the order of the `entries` given to `UniqueMailboxes`. Sorting is not modelled.
- Pipeline.ItemEffect: a failing `exists_in_parent` is not modelled. It re-raises at :226 and :229, and its call at :384 is outside every `try`, so the exception ends `main` without a summary. The model assumes the check always answers: `Env.resizedExists` is a plain boolean.
- Pipeline.ShrinkEffect / Pipeline.Run: the loop uses the corrected dry-run note `DryNoteFor`. The source's own note is `DryNoteAsWritten`; see Findings.
- `KeyboardInterrupt`, which ends the resizer's loop early, is not modelled. A run is the loop over every item the walk yields.
- Walk.WalkItems: the source's generator interleaves listing and processing. The model lists first and then processes; that difference is not captured. A page the loop fetches later can show a `_2k` or `_original` file that processing has just added. Such a file is never a candidate (`DriveItems.PlannedNamesNotCandidates`), but the source would count it as `skipped`.
- Walk.WalkItems: a folder that cannot be listed raises an exception in the source, which ends `main` without a summary. The model stops the walk with `ok == false`, and `Pipeline.Run` returns the counters of the items before that point.
- Walk.WalkItems: the ghost `rank` requirement (acyclicity) only serves termination. On a cyclic listing the source loops forever, and the model does not cover that case.
- Walk.WalkCoversAll: acyclicity is expressed by a rank map (each listed sub-folder ranks below its parent), and `Complete` asks every ranked folder to be listable. These are sufficient conditions, not necessary ones.
- Upload.UploadChunked: the source assumes `chunk > 0`, which the loop needs in order to end. The model requires it.
- Upload.UploadChunked: creating the upload session is left out and assumed to succeed. A refused PUT raises in the source; the model returns `ok == false`, and `Pipeline` folds both into the item's `uploadOk`.
- Text.Lower: only ASCII letters are folded. Python's `lower` also folds other Unicode letters.
- PosixPath.SplitExt and PosixPath.Join follow `posixpath`. Windows drive and backslash rules (`ntpath`) are not modelled, even where the backup root is `f:/`.
- `os.makedirs` for backup and export directories is not modelled, and neither is `os.path.realpath`. The realpath result is a field of `UserEntry`.
- `count_messages`' directory listing is left out. Its result is a field of `UserEntry` and the `countOf` parameter of `ConvertAll`.
- The Maildir and mbox libraries are left out, including message parsing and file locking. A message is its text, and an mbox file is the sequence of its messages.
- The multiprocessing pool of the converter is not modelled. Only the single-worker loop is; `ConvertMaildir`'s progress lines do cover the several-worker format.
- Mailboxes.CollectInfo: the `sorted(mailbox_info)` order of the dry-run listing and of the conversion loop is not modelled. `ConvertAll` converts the lines in the order it is given, and which of two mailboxes that share a file wins depends on that order.
- The converter's dry-run listing is printing only; its content is `UniqueMailboxes`.

## Findings

| source | as written | input that shows it | evidently intended | confidence | as-written member | corrected member |
|---|---|---|---|---|---|---|
| Others/sharepoint-image-resizer.py:397 | in a dry run with `BACKUP_ENABLED` and without `DEBUG_DRYRUN_SAVE`, `base = compute_backup_base()` overwrites the file's base, so the `[DRY]` lines at 423 and 430 name `<backup dir>_2k<ext>` | `photo.JPG` with `BACKUP_ROOT` `f:/`, `SITE_NAME` `sitename`, `--dry-run`, `DEBUG_DRYRUN_SAVE = False`: reports `f:/sitename_2k.JPG` | the dry run reports `photo_2k.JPG`, the name a real run uploads | high; not executed | Pipeline.DryNoteAsWrittenNamesBackupDir | Pipeline.DryReportMatchesRealRun |
