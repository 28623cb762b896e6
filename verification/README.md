# Verified model of the MongoDB to S3 backup tool

The tool streams a MongoDB dump through a ZIP bundle, optionally through gpg, into one S3
object; later it finds an object again, checks it completely, and only then imports it. Its
promise is that an object appears in the bucket only if every stage succeeded, and that
whatever appears can be found and restored bit for bit. This project states that promise in
Dafny, piece by piece, and proves it for every input, schedule and history.

`dafny verify dfyconfig.toml` checks everything.

## Map

| file | what it models |
|---|---|
| `Publish.dfy`, `PublishProgress.dfy` | the producer, gpg, the two pipes, the uploader and the joining goroutines as a transition system: safety and progress in every interleaving |
| `Members.dfy`, `Bundle.dfy`, `Validation.dfy`, `BundleRoundTrip.dfy` | member names, the bundle writer with running hashes, the validator, and the two against each other |
| `Capture.dfy`, `Extraction.dfy`, `ConfigurationRoundTrip.dfy` | capturing a directory that others may change, extracting it, and the way there and back |
| `Calendar.dfy`, `Keys.dfy` | seconds, dates and their printed form; object names, scopes and the latest backup |
| `Selection.dfy`, `Retention.dfy`, `BackupRun.dfy`, `History.dfy` | which databases a run backs up, what it may delete, the run itself, and all histories of runs |
| `EndToEnd.dfy` | a backup and the restore of it, over one store |
| `Restore.dfy` | which object a restore means, what precedes an import, and in what order imports happen |
| `Redaction.dfy`, `LogFilter.dfy` | what is cut out of tool logs, line by line and in any chunking |
| `Lock.dfy`, `Listing.dfy` | the inherited lock with crashes; page-by-page listing |
| `Text.dfy`, `Splitting.dfy` | byte strings, Split and Join |

Outside parties are used through what they promise, as parameters: gpg exits successfully only
after reading its input to the end and emitting `cipher(input)`; the SDK completes an upload
only on EOF; a kill is effective; JSON keeps everything but invalid UTF-8 in free texts; a ZIP
archive opens only once its directory is written.

What a contract rests on is stated a second time in other terms: the calendar by a closed formula
and a table of months, texts by the codes of their characters, names and command lines in
letters, UTF-8 and white space by code points, redaction and extraction by what a reader of
the log or of the file system finds.

Where a property was false of the code in
general, an input that breaks it is given and its exact condition is proved:

- A bundle that was written successfully is accepted if and only if its version metadata is
  present, it was not started at the zero time, and the clock did not step back
  (`BundleRoundTrip.WrittenIsAccepted`); the writer checks none of this, so a bundle can be
  written that is never accepted (`ConfigurationRoundTrip.RejectedBundle`).
- A visible object does not imply a nil result, with or without encryption
  (`Publish.PublishedWithEitherResult`, `Publish.PublishedUnanswered`). For a visible object the
  result is nil if and only if the SDK had reported success and the context was not cancelled
  when Upload returned (`Publish.PublishedNilExactly`; `Publish.NilExactly` for every run).
- A successful capture delivers exactly the regular files of the second walk if and only if the
  first walk did not see a path as a file and later as a directory (`Capture.CaptureConfig`,
  `Capture.SupersededFile`); a directory that changes while it is being read may show a name twice.
- README.md:94 and README.md:241 of the repository advise a separate S3_PREFIX for each source.
  Different values alone do not keep two sources apart: their scopes share keys if and only if
  they are the same, or one backs up the full replica set under the `per-database/` directory
  in which the other keeps a database named `full` (`Keys.ScopesMeetExactly`; for fixed names
  `Keys.FixedKeysMeetExactly`).
- A secret without brackets and with a newline at most at its end shows in some log of a given
  list of secrets if and only if it is part of `[oversized tool log line omitted]` and its
  newline, which is written unredacted, or of `REDACTED`, or - where some line keeps a URI when
  the secrets have been replaced - of `REDACTED URI` (`LogFilter.LogShowsExactly`). The last
  holds where one scheme and one byte more contain no secret, and only where one scheme
  contains none (`LogFilter.UriOutlivesIf`, `LogFilter.UriOutlivesOnlyIf`). Any secret without
  brackets is hidden by every list it is on if and only if, with a newline at most at its end,
  it is part of neither the placeholder nor `REDACTED URI`; or, with a newline before its end,
  it holds a URI or a line too long to be written (`LogFilter.HiddenExactly`). Such a newline
  can reach the list as a decoded `%0A` of a URI.
- A comma-separated list denotes exactly the names without a comma in them and without white
  space at either end (`Selection.ListRoundTrip`), so a valid database name such as `a,b` cannot
  be put on a list.
- Once retention has succeeded, a run's own new backup is still there if and only if the store
  dates it at or after the cutoff (`History.OwnBackupKeptExactly`); a run whose backup is dated
  earlier deletes it (`History.OwnBackupDeleted`).

## Model

| member | source | states |
|---|---|---|
| `Publish.PublishSafety` | internal/backup/app.go:245-306 | In every interleaving and under any failures, an object that becomes visible is the complete one (the encryption of the whole bundle, footer included), and the producer, gpg and its copier had all succeeded |
| `Publish.NoTruncatedStreamEnds` | internal/storage/upload.go:15-45 | The uploader can read EOF only behind the last byte of the complete object; no failed, cancelled or cut stream ends in EOF |
| `Publish.NilMeansPublished` | internal/backup/app.go:264-269 | backupDatabase returns nil exactly when Upload did, and then the complete object is published |
| `Publish.NilExactly` | internal/storage/upload.go:30-44 | A finished run has a nil result if and only if at some step Upload returned with the SDK's success and neither a cancellation nor a failed part |
| `Publish.PublishedNilExactly` | internal/storage/upload.go:38-44 | For a finished run with a visible object: nil if and only if the SDK had reported success and the context was not cancelled when Upload returned |
| `Publish.ReachableInv` | internal/backup/app.go:273-306 | The invariant behind these, kept by every step of every party |
| `Publish.PublishedWithEitherResult` | internal/storage/upload.go:38-43 | Concrete runs, plain and encrypted: with a cancellation between completion and return the object is visible although an error is returned; without it the result is nil |
| `Publish.PublishedUnanswered` | internal/storage/upload.go:32-43 | A run in which the answer to the completion is lost: the object is visible although an error is returned |
| `Publish.CancelledBeforeUpload` | internal/storage/upload.go:19-25 | If the context is cancelled when Upload begins, Upload fails and no object ever appears, whatever follows |
| `Publish.FailedPart` | internal/storage/upload.go:52-59 | A run in which a failed part reaches a producer blocked on the pipe, and which ends in an error without an object |
| `Publish.FailedGpg` | internal/backup/app.go:298-305 | A run in which the early end of gpg reaches a producer blocked on the pipe into it |
| `Publish.CancelledBackup` | internal/backup/app.go:250-253 | A run in which a cancellation reaches gpg's copier while the SDK is sending |
| `Publish.FailedStart` | internal/backup/app.go:285-305 | A run in which gpg cannot be started |
| `Publish.FailedOpen` | internal/backup/app.go:281-284 | A run in which the pipe into gpg cannot be opened |
| `PublishProgress.StallsOnlyOnTheDump` | internal/backup/app.go:249-269 | In every reachable state a step is due that some party is bound to take, unless the backup is over or everybody waits for the dump; after a failure there is no such wait |
| `PublishProgress.RunsAreBounded` | internal/backup/app.go:277-305 | A measure decreases with every step, so no schedule is longer than a bound in the size of the bundle and of gpg's output |
| `PublishProgress.NoHangAfterFailure` | internal/storage/upload.go:52-59 | Once gpg has exited, a part has failed, the producer has failed or the context is cancelled, a run stops only with the producer, gpg, the copier, the uploader and the joining goroutine all ended, wherever the producer was blocked |
| `Redaction.RedactionSound` | internal/backup/secrets.go:31-40 | An emitted line has no match of the URI pattern and none of the secrets that have no bracket and are not part of the text of a marker; later replacements never bring an earlier secret back |
| `Redaction.UrisGone` | internal/backup/secrets.go:38 | No match of the URI pattern survives its own replacement |
| `Redaction.UriReplaced` | internal/backup/secrets.go:12-38 | Without secrets: a URI behind text without a scheme goes as a whole, from its scheme to the next white space or quotation mark - given by their codes - and the rest is treated as if it stood alone |
| `Redaction.BareScheme` | internal/backup/secrets.go:12-38 | A scheme with nothing behind it stays |
| `Redaction.WithoutScheme` | internal/backup/secrets.go:12-38 | Text without a scheme stays |
| `Redaction.SecretReplaced` | internal/backup/secrets.go:33-37 | A secret goes as a whole where it first occurs, and on from behind it |
| `Redaction.InTurn` | internal/backup/secrets.go:31-40 | The secrets are replaced one after the other, empty ones left out, absent ones without effect, and URIs after all of them |
| `Redaction.HidingExact` | internal/backup/secrets.go:33-38 | For any list of secrets, a redacted line can show one without brackets if and only if it is part of the first marker's text, or of the second's and some line keeps a URI after the secrets |
| `LogFilter.SecretWriter.Take` | internal/backup/secrets.go:51-70 | One piece moves the buffer, the dropping flag and the output exactly as the per-line function of the whole stream |
| `LogFilter.SecretWriter.Write` | internal/backup/secrets.go:41-72 | After any Write the output and the buffer are those of the concatenated stream |
| `LogFilter.SecretWriter.Flush` | internal/backup/secrets.go:73-81 | Ends the stream: an unfinished short line is rendered, an unfinished long one vanishes |
| `LogFilter.SecretWriter.BufferBounded` | internal/backup/secrets.go:54-58 | The buffer never exceeds 65536 bytes and never holds a newline |
| `LogFilter.FilterLog` | internal/backup/secrets.go:41-81 | For every split of every stream into writes, the log is the one function of the stream that LogByLine and UriLogged characterise; it has no match of the URI pattern and none of the concealed secrets |
| `LogFilter.LogByLine` | internal/backup/secrets.go:54-69 | A line of up to 65536 bytes with its newline is redacted by itself, a longer one becomes `[oversized tool log line omitted]`; an unfinished line of up to 65536 bytes is redacted at the end, a longer one vanishes |
| `LogFilter.UriLogged` | internal/backup/secrets.go:12-69 | Without secrets: a URI written by a tool reaches the log as `[REDACTED URI]`, with the text around it |
| `LogFilter.LogSound` | internal/backup/secrets.go:31-81 | No log has a match of the URI pattern, or any secret without brackets, with a newline at most at its end, and part of neither the markers nor the placeholder - on a line or across lines |
| `LogFilter.LogShowsExactly` | internal/backup/secrets.go:31-81 | For any list of secrets, which of those without brackets and with a newline at most at the end some log shows: parts of the placeholder, of the first marker, or of the second where a URI outlives the secrets |
| `LogFilter.UriOutlivesIf` | internal/backup/secrets.go:31-40 | A URI outlives the replacement of the secrets where one of the two schemes and one byte more contain no secret |
| `LogFilter.UriOutlivesOnlyIf` | internal/backup/secrets.go:31-40 | It does so only where one of the two schemes contains no secret |
| `LogFilter.HiddenExactly` | internal/backup/secrets.go:31-81 | A secret without brackets, of whatever length, is hidden by every list it is on, in every log, if and only if: with a newline at most at its end, it is part of neither the placeholder nor `REDACTED URI`; with a newline before its end, it has a match of the URI pattern or a line that is never written |
| `LogFilter.ConcealedExactly` | internal/backup/secrets.go:31-81 | The first half of that: a secret without brackets and with a newline at most at its end is hidden by every list it is on if and only if it is part of neither the placeholder nor `REDACTED URI` |
| `LogFilter.OversizedShown` | internal/backup/secrets.go:61-64 | A part of the placeholder shows in the log of a line that is one byte too long, whatever the secrets |
| `LogFilter.BrokenShown` | internal/backup/secrets.go:45-66 | A secret with a newline before its end, without a URI and without an oversized line, comes through unredacted where it is written |
| `LogFilter.RenderPerLine` | internal/backup/secrets.go:61-69 | That function renders each line on its own: up to 65536 bytes with newline, a placeholder beyond |
| `LogFilter.LinesUnique` | internal/backup/secrets.go:46-50 | A stream has one decomposition into lines |
| `Calendar.CivilOfExactly` | internal/backup/config.go:266-270 | The civil time of a second is the one date that exists in the Gregorian calendar - month by month, with its leap years - and stands at this second by one closed formula |
| `Calendar.OrderExact` | internal/backup/config.go:266-270 | Dates compare as the seconds they stand for |
| `Calendar.DaysClosedForm` | internal/backup/config.go:16 | Summing the lengths of the years agrees with the Gregorian leap rule in closed form |
| `Calendar.MonthsClosedForm` | internal/backup/config.go:16 | Summing the lengths of the months agrees with the closed form, month by month |
| `Calendar.LastOfMay` | internal/backup/config.go:270 | The second 63884343600 is 2024-05-31T03:00:00, and printed so |
| `Calendar.PrintingIsMonotone` | internal/backup/config.go:270 | Printed timestamps of the years 0000 to 9999 compare bytewise as the seconds do |
| `Calendar.PrintParse` | internal/backup/restore.go:32-37 | A printed date matches the pattern and parses back |
| `Calendar.ParsePrint` | internal/backup/restore.go:32-37 | What matches and parses prints back to itself |
| `Calendar.ParseExact` | internal/backup/restore.go:32-37 | Accepted timestamps are exactly the printed real seconds of the years 0000 to 9999 |
| `Keys.EncodeComponent` | internal/backup/config.go:232-246 | The loop computes percent-encoding |
| `Keys.EncodingFaithful` | internal/backup/config.go:232-246 | Percent-decoding undoes it, so it is injective, and no slash is left |
| `Keys.EncodedExactly` | internal/backup/config.go:232-246 | Letters, digits and - . _ ~, by their codes, stay; every other byte becomes a percent sign and its two hex digits |
| `Keys.TrimSlashesExact` | internal/backup/config.go:253-257 | All slashes at the end of the prefix go, and nothing else |
| `Keys.BackupKeyRecognised` | internal/backup/config.go:266-275 | A backup's own scope recognises its key exactly when it is a timestamped one of the years 0000 to 9999 |
| `Keys.RecognisedExactly` | internal/backup/config.go:272-275 | A scope recognises exactly its prefix followed by 19 characters of the shape of a timestamp and .zip or .zip.gpg |
| `Keys.EncryptedKey` | internal/backup/config.go:247-271 | A concrete key: prefix with slashes around it, encoded name, timestamp, encryption |
| `Keys.PlainKeys` | internal/backup/config.go:247-271 | Concrete keys of the full replica set, and of a database without a prefix |
| `Keys.ScopesMeetExactly` | internal/backup/config.go:253-275 | Two configurations recognise a common key if and only if their scopes are equal or cross in the one way described |
| `Keys.FixedKeysMeetExactly` | internal/backup/config.go:247-265 | Two configurations write the same fixed key if and only if their scopes meet and they agree on encryption |
| `Keys.DifferentPrefixesMeet` | internal/backup/config.go:253-261 | The crossing on a concrete pair of prefixes: the two configurations write the very same keys |
| `Keys.ScopesDisjoint` | internal/backup/config.go:253-275 | Under one prefix no key is a timestamp backup of two scopes |
| `Keys.KeyOfOneScope` | internal/backup/config.go:266-275 | A key is taken for a timestamped backup only by scopes that meet the one it was made for; under one configuration by its own database alone |
| `Keys.FixedIsNoBackup` | internal/backup/config.go:263-275 | No configuration takes a fixed name for a timestamped backup |
| `Keys.SelectLatest` | internal/backup/restore.go:154-161 | The greatest key of the configured file type, whatever the order of the listing |
| `Keys.KeysInOrder` | internal/backup/config.go:266-271 | Keys of one scope and file type compare like their seconds |
| `Members.SafeMemberExact` | internal/backup/bundle.go:130-133 | The tests accept exactly valid UTF-8 without backslash, colon or null byte, given by their codes, whose every component is an ordinary name: no empty one, no ".", no ".." |
| `Members.Utf8Exactly` | internal/backup/bundle.go:132 | Valid text is exactly what consists of the octets of Unicode scalar values |
| `Members.CleanFixes` | internal/backup/bundle.go:132 | path.Clean leaves a relative path alone exactly when it is ".", or consists of names behind any number of ".." |
| `Members.TargetInside` | internal/backup/bundle.go:266-279 | The target of a safe member lies strictly inside the staging directory, at its own components |
| `Bundle.CountingHashWriter.Write` | internal/backup/bundle.go:46-51 | Count and hash follow what the member took, also on a short write |
| `Bundle.BundleWriter.Add` | internal/backup/bundle.go:58-83 | A member is added with its exact record, or the archive stays unclosed |
| `Bundle.WriteMembers` | internal/backup/bundle.go:84-101 | The members are written in order if and only if every stage succeeds |
| `Bundle.WriteBundle` | internal/backup/bundle.go:55-128 | Returns nil if and only if everything succeeds - among it that the replica set did not change - and then the archive is exactly the members and their manifest; otherwise nothing can be opened |
| `Validation.IndexMembers` | internal/backup/bundle.go:142-151 | Accepts exactly good and distinct names, and indexes every member |
| `Validation.CheckMembers` | internal/backup/bundle.go:183-211 | In whatever order the map is walked: true if and only if every member is on record, with the number of configuration files |
| `Validation.CheckMember` | internal/backup/bundle.go:188-210 | Record, declared size, actual size and digest all agree |
| `Validation.InventoryExact` | internal/backup/bundle.go:180-211 | The one-directional loop and the count together force equality of the two inventories |
| `Validation.ValidateBundle` | internal/backup/bundle.go:140-216 | Accepts a manifest if and only if it is the archive's, fits the configuration, and describes exactly the other members |
| `Validation.AcceptedHeader` | internal/backup/bundle.go:170-175 | What is known of an accepted bundle: its format, mode, database, oplog, versions and times |
| `Validation.AcceptedInventory` | internal/backup/bundle.go:176-215 | Which members it has: the required ones by name, exactly those on record, each once, configuration files exactly where announced |
| `Validation.AcceptedMember` | internal/backup/bundle.go:142-211 | Every member: safe and allowed name, regular, read to the end, with the size and digest on record; the manifest up to 4194304 bytes |
| `Validation.OneTarget` | internal/backup/bundle.go:170-172 | A bundle is accepted for one mode and database only, with one manifest |
| `Validation.SameBytes` | internal/backup/bundle.go:200-211 | Two archives accepted with one manifest have the same members with the same bytes, or two contents share a digest |
| `BundleRoundTrip.WrittenIsAccepted` | internal/backup/bundle.go:55-128 | A written bundle is accepted under its own mode and database if and only if metadata is present and the clock did not step back |
| `BundleRoundTrip.ManifestDescribes` | internal/backup/bundle.go:57-113 | The manifest of an accepted written bundle names the job's mode, database, times, versions and configuration, and describes every member by its own bytes and nothing else |
| `BundleRoundTrip.MembersReadBack` | internal/backup/bundle.go:230-237 | Every member found again is byte for byte what its stage produced |
| `Extraction.FileSystem.CopyMembers` | internal/backup/bundle.go:266-280 | The staging tree is that of the selected members, or copying fails |
| `Extraction.ExtractConfiguration` | internal/backup/bundle.go:252-285 | On success every member taken - manifest, replica set configuration, config/ - lies in the file system below the destination at its components with its bytes, everything else that is new there is a directory above one of them, and no other path has changed; otherwise nothing at all has changed; the temporary directory is gone |
| `Extraction.StagedExact` | internal/backup/bundle.go:266-280 | The staged tree has exactly the selected members at their components, with their bytes |
| `Extraction.StagedExists` | internal/backup/bundle.go:266-280 | Staging succeeds if and only if members are readable and none is in the way of another |
| `Capture.ConfigReader.Read` | internal/backup/capture.go:208-219 | Counts what was read and remembers an error |
| `Capture.CaptureFile` | internal/backup/capture.go:139-175 | Succeeds exactly when the file was unchanged at every look - the same identity, kind, permissions, size and time each time - and read completely, and yields the bytes read |
| `Capture.SteadyExactly` | internal/backup/capture.go:139-180 | Those looks, field by field |
| `Capture.Scan` | internal/backup/capture.go:49-75 | The first walk succeeds exactly when every sighting can be listed - no failed call, link, odd name or odd file - and then holds the last sighting of every path and all regular sightings in order; names may repeat |
| `Capture.Deliver` | internal/backup/capture.go:79-91 | Succeeds exactly when every listed file was steady and no name came twice, and then delivers the bytes read of each in order, with their digests |
| `Capture.Recheck` | internal/backup/capture.go:92-129 | The second walk succeeds exactly when inventory, metadata and contents agree |
| `Capture.CaptureConfig` | internal/backup/capture.go:19-137 | Succeeds if and only if the root was steady, the first pass could list everything and read every file, and the second pass finds the very same paths with the bytes that were read; then the root was one directory at every look, each path is in every respect as it was last seen, and the members are the directory's files if and only if no file was later seen as a directory |
| `Capture.CaptureAgrees` | internal/backup/capture.go:43-136 | Whatever else changed during the first pass, the members are exactly the regular files of the second walk, each once, with the same digest, and byte for byte where no two contents share a digest |
| `Capture.FaithfulIsExact` | internal/backup/capture.go:107-119 | Equal digests are equal bytes where no two contents share a digest |
| `Capture.SupersededFile` | internal/backup/capture.go:63-70 | A walk from the root on which both passes succeed although the delivered file is a directory in the end |
| `ConfigurationRoundTrip.ConfigurationComesBack` | internal/backup/bundle.go:252-285 | The archive of a captured directory extracts to exactly its paths and bytes, replica-set.json and manifest.json with theirs, and no other file |
| `ConfigurationRoundTrip.CaptureAndExtract` | internal/backup/bundle.go:93-128 | Capture, bundle, validate and extract in one: exactly when it succeeds; that then every file of the directory lies in the file system below the destination at its path below config with its bytes, replica-set.json and manifest.json with theirs, and no other new file; and that otherwise the file system is as it was |
| `ConfigurationRoundTrip.RejectedBundle` | internal/backup/bundle.go:109-128 | A bundle written without an error that is never accepted, because the clock stepped back |
| `ConfigurationRoundTrip.ConditionsCanBeMet` | internal/backup/bundle.go:55-128 | A concrete backup meets the conditions of the theorems on written bundles and configurations together |
| `Selection.TrimSpaceExact` | internal/backup/config.go:210-216 | Trimming cuts white space off both ends until none is left there, and changes exactly the strings that had some |
| `Selection.SpaceExactly` | internal/backup/config.go:213 | White space is the octets of the code points with Unicode's property White_Space |
| `Selection.ParseDatabaseList` | internal/backup/config.go:210-216 | The in-place loop trims every part of the list |
| `Selection.ListRoundTrip` | internal/backup/config.go:210-216 | A list is read back as written if and only if no name has a comma or outer white space |
| `Selection.CommaName` | internal/backup/config.go:210-231 | A concrete name that is valid but cannot be listed |
| `Selection.ValidateDatabases` | internal/backup/config.go:218-231 | Accepts exactly non-empty lists of names of 1 to 63 bytes of valid UTF-8 without the forbidden characters, given by their codes, none of them admin, local or config |
| `Selection.Databases` | internal/backup/app.go:172-226 | Succeeds if and only if all requested names are valid, exist, and are not all excluded; then it is the requested names - all users' databases, the list, or the single one - less the exclusions, in order of first occurrence |
| `Selection.UserDatabasesExactly` | internal/backup/app.go:189-194 | All databases that are not admin, local or config, in their order |
| `Selection.ChosenOnce` | internal/backup/app.go:213-220 | No name is chosen twice |
| `Retention.KeepDaysExact` | internal/backup/config.go:197-207 | The setting is accepted exactly when empty or the decimal form of 1 to 36500 |
| `Retention.CutoffExact` | internal/backup/app.go:127 | The int64 product is exact if and only if the days are at most 106751 |
| `Retention.TimestampBackups` | internal/backup/app.go:308-320 | Exactly the objects the scope recognises, each once, whatever the order of the listing |
| `Retention.RemoveOldBackups` | internal/backup/app.go:321-342 | Deletes only expired backups of the scope, all of them on success, none if one has no date; it succeeds when nothing goes wrong, and every deletion is within the policy |
| `BackupRun.ValidateBackup` | internal/backup/config.go:162-208 | The combinations of selectors, written out, and the retention setting that are accepted |
| `BackupRun.CombinedExactly` | internal/backup/config.go:162-195 | These combinations exactly |
| `BackupRun.BackupDatabase` | internal/backup/app.go:245-270 | What becomes visible is the complete object under the key of this database and second, also when an error follows; nil means it is there |
| `BackupRun.BackupAll` | internal/backup/app.go:140-163 | One database's failure does not keep the others from being backed up; success means every database is backed up and has no expired backup left |
| `BackupRun.BackupOne` | internal/backup/app.go:141-157 | Retention runs only behind success and leaves nothing expired when it succeeds; no other key of the store changes |
| `BackupRun.Backup` | internal/backup/app.go:94-164 | The run reaches its databases if and only if settings, lock, versioning and selection allow it, and uploads nothing otherwise; every upload is complete and under a key of a selected database; a database counts as successful, and expired backups of it go, only with its complete object in the store; nothing dated within the retention period of whole days before the start is deleted, and success leaves no backup of these scopes older than that or of unknown age |
| `BackupRun.PolicyWrittenOut` | internal/backup/app.go:127 | The cutoff is the second of the start less the days of 86400 seconds, for every accepted setting |
| `History.DeletionsJustified` | internal/backup/app.go:127-158 | Every deletion of a run is of a recognised key of a database that succeeded earlier in that run, whose current date is before the cutoff |
| `History.HistoryKeeps` | internal/backup/app.go:94-164 | Over any history of runs of any configurations an object that no successful scope owns stays, and is the same object if no run's database is written under its key |
| `History.FixedNamesSurvive` | internal/backup/config.go:263-275 | No history of runs deletes an object with a fixed name, and only a run that writes the same fixed key changes it |
| `History.OtherScopesSurvive` | internal/backup/app.go:308-342 | A backup survives every history without a success of a scope that meets its own, and survives it unchanged if no run is over such a scope |
| `History.UnrelatedNamesSurvive` | internal/backup/app.go:308-342 | Names that no scope recognises survive every history, unchanged if they are no key of a backup |
| `History.OwnUploadKept` | internal/backup/app.go:127-158 | A run never deletes what it just uploaded if it has no retention period or the store dates the upload at or after the cutoff |
| `History.OwnBackupKeptExactly` | internal/backup/app.go:127-158 | After successful retention that condition is exact |
| `History.OwnBackupDeleted` | internal/backup/app.go:127-158 | For every timestamped configuration, database, second and retention period: a run within the policy that deletes its own new backup, which the store dates before the cutoff |
| `History.ConsistentClock` | internal/backup/app.go:127 | A clock of the store that lags by less than the retention period meets it, for every accepted setting |
| `History.UnexpiredSurvives` | internal/backup/app.go:127-158 | An object is unchanged by every history whose runs do not write under its key and either do not succeed for its scope or have no cutoff behind its date |
| `History.OtherScopesRetain` | internal/backup/app.go:308-342 | A run over no scope that meets the one of a backup is such a run, whatever the date |
| `Restore.TimestampExact` | internal/backup/restore.go:28-38 | In timestamp mode an argument is accepted exactly when it is a printed real second, and it resolves to the key of the backup of that second |
| `Restore.RequestExactly` | internal/backup/restore.go:15-45 | Which selectors and arguments are accepted, and what they ask for: nothing, the printed second of a real date in timestamp mode, or --version-id with a version in fixed mode |
| `Restore.CandidateExactly` | internal/backup/restore.go:150-158 | The candidates for the latest backup are the scope's names with the configured ending alone |
| `Restore.ResolveKey` | internal/backup/restore.go:143-165 | The fixed key, the explicit one, or the greatest candidate |
| `Restore.LatestInTime` | internal/backup/restore.go:149-162 | If the candidates were made by backups, the one picked has the latest second |
| `Restore.WithBundle` | internal/backup/restore.go:138-193 | Nothing is imported before the object the request means was fetched from the store, opened and accepted as a whole; it gives up only when there is no candidate or no acceptable bundle |
| `Restore.Import` | internal/backup/restore.go:76-105 | The imports follow the plan, each reads the same verified bytes from the beginning, and only a failure ends the plan early |
| `Restore.FollowsCommand` | internal/backup/restore.go:76-103 | All arguments of each start, and nothing else: --drop exactly with drop, the CA file if one is set, oplog replay exactly in the last pass of a full bundle, the identities in the first of two passes, the admin or the one database otherwise |
| `Restore.Restore` | internal/backup/restore.go:53-118 | Every start of mongorestore comes behind the acceptance of the whole bundle that the arguments mean; the object or version fetched is the one the request names; and each command line is given in full |
| `Restore.TwoPassesExactly` | internal/backup/restore.go:82-92 | A second import starts if and only if data is dropped, for auth or oplog, the first could be started and succeeded, and the second can be started; then both read the same bytes and the first is that of the identities |
| `Restore.ScopeOfImports` | internal/backup/restore.go:88-99 | The namespaces each import is limited to, exactly |
| `Restore.BackupRestores` | internal/backup/restore.go:66-75 | Whatever a backup published opens, is accepted, and holds byte for byte what the dumps produced |
| `EndToEnd.RunLeaves` | internal/backup/app.go:140-157 | After a run over any databases, each object that was published and is not dated before the cutoff lies under its key, and of the backups its scope recognises nothing else is new or changed |
| `EndToEnd.StillLies` | internal/backup/app.go:127-158 | It still lies there, with its bytes, after every history that retains it |
| `EndToEnd.MeansNewest` | internal/backup/restore.go:143-165 | A restore without arguments means the object of the newest backup, whatever else is in the bucket |
| `EndToEnd.AskedIsMeant` | internal/backup/restore.go:28-38 | A request - no arguments for a fixed name or the newest backup, a version of a fixed name, or the printed second - is accepted, resolved, and can only be resolved to the key of that backup |
| `EndToEnd.RestoreThat` | internal/backup/restore.go:53-118 | Any backup that lies in the store, newest or not, or is kept as a version of its fixed name, is restored by asking for it: without faults every import is fed byte for byte what its dump produced, of the data or of the users |
| `EndToEnd.BackupThenRestore` | internal/backup/restore.go:53-118 | After a run over any databases, whatever its result, a restore of any one of them whose object was published, by whichever request and with or without auth, succeeds without faults and feeds every import byte for byte the dump of that run |
| `EndToEnd.ConditionsCanBeMet` | internal/backup/restore.go:53-118 | A concrete run over two databases and a restore of the second, of its data or its users, meet the conditions of BackupThenRestore together |
| `Listing.List` | internal/storage/s3.go:163-190 | Ends against any server with finitely many tokens; succeeds exactly when the chain of pages does, and then has every entry of every page in its place, dated, and nothing else |
| `Lock.ReachableInv` | internal/backup/process.go:172-184 | One locked file, held exactly while somebody has the description open |
| `Lock.LockExclusive` | internal/backup/process.go:43-50 | Over all runs of acquire, spawn, fork, exit, close and kill, all live tools belong to one run, and the lock is free exactly when nobody holds a descriptor |
| `Lock.KilledHoldNothing` | internal/backup/process.go:43-50 | A killed instance has no descriptor of its own open |
| `Lock.OthersStay` | internal/backup/process.go:172-184 | Parents and tools keep their descriptors through everything but their own end |
| `Lock.AcquiredExactly` | internal/backup/process.go:172-184 | A run gets the lock if and only if no parent or tool of any run holds a descriptor |
| `Lock.NoStaleLock` | internal/backup/process.go:181-183 | From every reachable state crashes and the ends of tools alone set the lock free |
| `Lock.Interfered` | internal/backup/process.go:181-183 | Why the file is never unlinked nor unlocked: either lets the tools of two runs overlap |

## Left out

- SHA-256, JSON text, DEFLATE, the ZIP64 byte layout, gpg, mongodump and mongorestore are parameters with the contracts above.
- The command line of mongodump (dumpArgs): what a dump produces is an input.
- The transfer manager's retries and concurrency: an upload is read in pieces and completes or fails as Upload's own comment says.
- MongoDB driver calls: snapshots and database names are inputs.
- URL parsing and the choice of secrets in newSecretWriter: the list of secrets is an input.
- Times are integers: seconds since the year 0000 for names, nanoseconds elsewhere; years before 0000 are not modelled.
- The textual settings BACKUP_MODE and BACKUP_FILENAME_MODE are datatypes, as LoadConfig refuses any other value.
- Retention.RemoveOldBackups: changes that other hosts make to the bucket between a listing and a deletion of the same run are not modelled; between runs they are (History).
- LogFilter.LogShowsExactly: which secrets with a bracket can be seen beside a marker is not characterised; for secrets with a newline before their end the condition over all lists is (LogFilter.HiddenExactly), the one for a given list of others is not.
- Capture.CaptureAgrees: the directory is still during the second walk, as its statement says; the first pass sees an arbitrary filesystem, with names in any order and any number of times.
- Extraction.ExtractConfiguration: the staging directory is a tree of its own next to the filesystem, so its random name is not modelled.
- Lock.LockExclusive: tools are taken to keep their inherited descriptor until they exit; extract-config takes no lock in the program either.
- BackupRun.Backup: the wording of messages, the tools version and the joining of errors; only whether the result is nil is modelled. The private directory, its files and `mongodump --version` are one input, `tools`.
- pipeline in internal/backup/process.go, which only a test calls.
- Cron scheduling, signals, the command line, environment loading, file modes, Windows reparse points, temporary directories, the HTTP transport.
- Mutexes: each call on a secretWriter is one step.
