# DockVault, modelled and proved in Dafny

DockVault drives `docker` and `rclone` to back up containers and to restore them. Under the plumbing it has a
handful of protocols and file formats whose guarantees are meant to hold over every run. This project models
those and proves the guarantees, with `docker`, `rclone`, the file system and the clock as an environment that
may fail at any call.

| file | what it models |
|---|---|
| `Text.dfy` | the string functions of Go's standard library the rest uses; sorting |
| `EnvFile.dfy` | the `.env` printer and parser |
| `JobStore.dfy` | job directories: `job.json` and `.env` as a map from names to jobs |
| `RunManifest.dfy` | `manifest.json`: `Upsert`, and load-update-save by successive runs |
| `WorkspaceLock.dfy` | the lock file, one action per file operation, any number of processes, crashes, a clock |
| `WorkerPool.dfy` | the semaphore and wait group of a parallel backup run |
| `RemoteFolders.dfy` | folder creation on a remote without atomic "create if missing" |
| `Timestamps.dfy` | calendar arithmetic, RFC 3339 text, and when text order is time order |
| `Retention.dfy` | listing, `FilesToPrune` and `Prune` on a remote directory |
| `Upload.dfy` | `UploadArchive`: manifest, local copies, upload, verification, prune |
| `Host.dfy` | what a docker call does to containers, volumes and files in containers |
| `Restore.dfy` | download, verification and the five restore executors |
| `N8nBackup.dfy` | the backup that stops a container and must start it again |
| `RemoteTree.dfy` | the tree of linked nodes built from flat paths |
| `TreeDrawing.dfy` | its drawing, and reading the drawing back |
| `Naming.dfy` | sanitized names, archive identifiers, remote folders |
| `Detector.dfy` | the scan: volume index, service type, credentials, proposed jobs |
| `Redaction.dfy` | hiding secrets in command lines |

`dafny verify dfyconfig.toml` checks everything.

Failures are inputs: a `Reply` says of each request whether it was carried out, refused, or carried out but
reported as failed; a `Transfer` says what an upload left behind. Hash functions, gzip, tar, JSON and letter case
are function values; that decompression undoes compression, that decoding undoes encoding, and that a hash has no
second preimage are stated as hypotheses exactly where a conclusion needs them. Map iteration order is a given
sequence or left open.

## Where the code differs from what is said about it

- `internal/rclone/client.go:157-158` calls a lexical sort of RFC 3339 strings chronological. It is for
  timestamps of forms that may be mixed, and `Timestamps.ExactForms` says exactly which: the same zone and suitable
  fractions, as the fixed form that local pruning writes. Offsets other than `Z`, or fractions next to a bare `Z`,
  can sort against time.
- `internal/workspace/lock.go:33-36` promises exclusion. `WorkspaceLock.ExactTimeBound` and
  `WorkspaceLock.TwoStealersBreakExclusion` show what it takes: one contender in the steal window at a time, and
  holding time plus window below the stale age.
- `internal/workspace/job.go:52-54` saves the `.env` only if there is something in it, and leaves an older one in
  place. `JobStore.SaveThenLoad` gives the exact condition for a round trip; without it the old secrets come back
  under the new job (`JobStore.OldSecretsReappear`).
- `internal/restore/restorer.go:49-54` says a restore error leaves the target untouched. No docker call is carried out
  exactly when there was nothing fit to restore or the host refused the first call (`Restore.UntouchedExactly`); then
  the target is untouched (`Restore.FailureLeavesTargetAlone`). An n8n restore whose archive does not unpack has
  already wiped the volume (`Restore.FailedExtractLosesVolume`).
- `internal/restore/n8n_restore.go:65-67` wipes the volume so that stale files do not linger. Names that start with
  two dots match neither glob, and the command drops the exit status of `rm`; `Restore.N8nReplacesVolume` gives the
  exact condition under which nothing lingers.
- `internal/backup/local_retention.go:17-24` keeps the newest copies. Times are compared to the second and the sort
  is not stable, so the copy just made is certain to stay exactly under the condition of `Upload.NewCopyKeptExactly`.
- `internal/detector/service_types.go:67-69` lets environment variables outrank port hints. The service type never
  depends on them (`Detector.EnvironmentNeverDecides`), and `Detector.PortOutranksEnvironment` is a case where they
  disagree.
- `internal/cli/backup.go:101-110` creates the destinations first so that no folder is made twice. Job by job, and
  whatever the other jobs race for, that protects exactly the jobs whose walk was not already forked by folders of an
  earlier race (the per-job condition of `RemoteFolders.Drive.Prepare`, by `RemoteFolders.TroubleFreeExactly`).
- `internal/restore/verify.go:25-38` lets a restore go on when no manifest can be downloaded. Such a restore can
  succeed on any bytes, but with a warning; `Restore.SilentRestore` says exactly when a restore succeeds in silence.
- `internal/cli/tree.go:71-73` shows an empty listing as `(empty)`, but a listing of `/` alone, which has the same
  nodes, as the root only (`TreeDrawing.ShownAlike`).

## Model

| member | source | states |
|---|---|---|
| EnvFile.SaveEnv | internal/workspace/env_unix.go:14-26 | one `KEY=VALUE` line per entry, keys in sorted order |
| EnvFile.LoadEnv | internal/workspace/env_unix.go:30-49 | a missing file is the empty map, one that cannot be read an error; otherwise the loop computes the parse of the text |
| EnvFile.LastLineDecides | internal/workspace/env_unix.go:38-48 | of the lines that are no comment and set a key, blanks around them apart, the last decides its value; keys that no line sets are not there |
| Text.TrimPadded | internal/workspace/env_unix.go:39 | trimming takes away what is to be dropped at the edges, all of it and nothing else |
| Text.SpaceExactly | internal/workspace/env_unix.go:39 | which characters count as blanks |
| EnvFile.RoundTrip | internal/workspace/env_unix.go:14-49 | loading what was saved gives the same map if and only if every key and value is printable |
| EnvFile.LoadIsPrintable | internal/workspace/env_unix.go:38-48 | whatever is loaded, from any text, is printable |
| EnvFile.LoadSaveLoad | internal/workspace/env_unix.go:14-49 | printing a loaded map and loading it again changes nothing |
| EnvFile.TrailingBlankIsLost | internal/workspace/env_unix.go:40 | a value with a trailing blank does not survive |
| JobStore.Store.SaveJob | internal/workspace/job.go:57-96 | the new directory state and the result under every write failure; an empty environment leaves an older `.env` in place |
| JobStore.Store.LoadJob | internal/workspace/job.go:105-144 | the job in the two files, the key `DOCKVAULT_WEBHOOK_URL` taken out of the credentials; exactly when it is missing, unreadable or unparsable |
| JobStore.Store.ListJobNames | internal/workspace/job.go:148-167 | the strictly sorted names of the directories that hold a `job.json` one can look at; nothing if the workspace cannot be read |
| JobStore.SaveThenLoad | internal/workspace/job.go:57-144 | after a save that succeeds, loading returns the job if and only if it was storable in that directory |
| JobStore.OldSecretsReappear | internal/workspace/job.go:92-94 | overwriting a job that has secrets by one without any loads the old secrets |
| JobStore.LeftoverIsOldJob | internal/workspace/job.go:92-94 | an old `.env` is harmless exactly if the job loaded from it had no credentials and no webhook |
| JobStore.SaveRefines | internal/workspace/job.go:57-96 | a save is map update if and only if it is safe for the map, and what lists as job names follows |
| JobStore.SaveIsLocal | internal/workspace/job.go:57-96 | a save, failed or not, leaves every other job alone |
| JobStore.LastSaveWins | internal/workspace/job.go:57-144 | over any run, with failed saves anywhere, the last storable save under a name is what loads |
| JobStore.StoreRefinesMap | internal/workspace/job.go:57-167 | over any orderly run the directories are the map obtained by updating, and its key set is listed |
| RunManifest.Manifest.Upsert | internal/workspace/manifest.go:60-68 | the first entry of that name is replaced in place, or one is appended; all others stay where they are |
| RunManifest.UpsertIsUpdate | internal/workspace/manifest.go:60-68 | for every name, look-up afterwards is map update; unique names stay unique |
| RunManifest.Workspace.RecordResults | internal/cli/backup.go:205-219 | load, one `Upsert` per result in order, save; nothing is recorded if the file does not parse |
| RunManifest.RunUpdates | internal/cli/backup.go:205-219 | one run gives each name its last result and leaves the rest |
| RunManifest.NoLostUpdate | internal/cli/backup.go:55-59 | over every sequence of serialised runs each name shows its last recorded result, at most once |
| RunManifest.GarbledForever | internal/workspace/manifest.go:28-41 | after a torn write no later run records anything |
| WorkspaceLock.TimedMutualExclusion | internal/workspace/lock.go:37-80 | with one stealer at a time and bounded holding and stealing, at most one live process holds the lock in every state of every run |
| WorkspaceLock.ExactTimeBound | internal/workspace/lock.go:62-80 | these bounds are safe if and only if their sum is below the stale age, with or without a working liveness probe |
| WorkspaceLock.StaleAgeOfADay | internal/workspace/lock.go:29 | the same for the stale age in the code |
| WorkspaceLock.OverrunBreaksExclusion | internal/workspace/lock.go:71-79 | a run that breaks exclusion when the bounds reach the stale age |
| WorkspaceLock.TwoStealersBreakExclusion | internal/workspace/lock.go:62-80 | two contenders that find the same stale file both end up holding the lock, in no time |
| WorkspaceLock.LoneContender | internal/workspace/lock.go:37-80 | alone, `Lock` succeeds if and only if there is no file, or an old one that names no live process; otherwise the file is unchanged |
| WorkspaceLock.LiveHolderKeepsLock | internal/workspace/lock.go:44-70 | a live holder keeps the lock from any single later contender, however old the file, if the probe works: the file names it |
| WorkspaceLock.RunKeepsInv | internal/workspace/lock.go:37-80 | in every state a holder owns the file and what a stealer looked at is abandoned or too young |
| WorkerPool.StepKeepsInv | internal/cli/backup.go:174-199 | each channel, wait-group and slice operation keeps the accounting of slots, workers and results |
| WorkerPool.BoundedParallelism | internal/cli/backup.go:124-176 | in every state at most `parallel` jobs are under way, and one if that is below one |
| WorkerPool.SlotsAreUsed | internal/cli/backup.go:171-184 | the bound is reached: some schedule has as many jobs under way at once as it allows and there are |
| WorkerPool.Progress | internal/cli/backup.go:174-200 | nothing can move exactly when `runJobs` has returned |
| WorkerPool.EverySchedule | internal/cli/backup.go:169-202 | in every schedule each slot is written once and holds what the executor of its own job's type returned, or that there is none, so the slice does not depend on the schedule |
| WorkerPool.Termination | internal/cli/backup.go:174-200 | a measure falls with every step, which bounds the length of every run |
| RemoteFolders.UniqueRemoteDirs | internal/backup/run.go:147-158 | each non-empty destination of the jobs once, in order of first appearance |
| RemoteFolders.ComponentsSpelled | internal/rclone/client.go:80-105 | the segments of a path are the names it spells, whatever slashes stand around and between them |
| RemoteFolders.Drive.Mkdir | internal/rclone/client.go:100-105 | on success the path is present; a folder is made only where there was none of that parent and name, and none where the way is clear |
| RemoteFolders.Drive.PrecreateAll | internal/cli/backup.go:111-115 | after the sequential loop every directory handed in is present, and no walk has been forked |
| RemoteFolders.Drive.Prepare | internal/cli/backup.go:101-129 | from the jobs, empty destinations included, through the loop to the workers: once it succeeds, each job is free of trouble in every run if and only if its own walk was not forked before, and all runs leave the folders alone and find all uploads if and only if no walk was |
| RemoteFolders.RunKeepsFolders | internal/cli/backup.go:101-129 | with one way to each of its destinations, no interleaving of the workers' separate look-up and create steps makes a folder, whatever duplicates the drive holds elsewhere |
| RemoteFolders.NoDuplicateFolders | internal/rclone/client.go:80-99 | a job with one way to its destination keeps it in every state of every run, whatever the other jobs race for: nobody makes a folder on its walk, and its hash check finds the upload in the one folder it landed in |
| RemoteFolders.TroubleFreeExactly | internal/rclone/client.go:90-99 | over all runs a job never comes to a missing folder and its hash check never misses if and only if there is exactly one way to its own destination |
| RemoteFolders.UndisturbedExactly | internal/rclone/client.go:90-99 | over all runs no folder is made and no hash check misses if and only if every step of every destination's walk has exactly one folder to go to |
| RemoteFolders.RaceWithoutPrecreation | internal/rclone/client.go:86-99 | without it, two workers create the same folder twice and one upload is not found by its path |
| Timestamps.DayNumberCounts | internal/rclone/client.go:277-281 | the day number counts days over months and leap years |
| Timestamps.MonthLengths | internal/rclone/client.go:276-281 | the lengths of the months, leap years included |
| Timestamps.CivilLessIsEarlier | internal/rclone/client.go:157-158 | an earlier date and time of day is an earlier instant, for all years 0000-9999 |
| Timestamps.FormattedOrder | internal/backup/local_retention.go:91-97 | for the form that local pruning writes, text order is the order of whole seconds, both ways |
| Timestamps.OneFormSortsInTime | internal/rclone/client.go:157-159 | within one form, text order is time order for all valid timestamps |
| Timestamps.ExactForms | internal/rclone/client.go:157-159 | two forms always sort in time if and only if they may be mixed |
| Timestamps.ParseStampText | internal/rclone/client.go:280 | parsing the text of any valid timestamp gives that timestamp |
| Timestamps.ParseExactly | internal/rclone/client.go:276-281 | nothing parses but the text of a valid timestamp, with any number of fractional digits past the ninth, which are dropped |
| Timestamps.ZoneShifts | internal/rclone/client.go:276-281 | a clock ahead of UTC shows a later time at the same instant, by its hours and minutes |
| Timestamps.UnixEpoch | internal/rclone/client.go:276 | where the clock of the model stands at the epoch of Unix time |
| Timestamps.FormatUtcText | internal/backup/local_retention.go:86-90 | the local form is the calendar fields of the whole second in UTC and a `Z` |
| Retention.FilesToPrune | internal/rclone/client.go:270-285 | in order, exactly the files at positions past the newest `minFilesToKeep` whose time parses and lies more than `retentionDays` times 24 hours before now |
| Retention.RemoteDir.ListFiles | internal/rclone/client.go:128-161 | every file that is no manifest, once, ordered by time text, newest first; nothing if the request fails |
| Retention.RemoteDir.Upload | internal/rclone/client.go:110-115 | stores under the file's own name whatever the transfer left, which may be nothing even when it reports success |
| Retention.RemoteDir.DeleteDoomed | internal/rclone/client.go:226-241 | for every pattern of replies: what is left, which names count as pruned, and whether it succeeded; nothing but the list and its sidecars goes |
| Retention.DeletedExactly | internal/rclone/client.go:226-241 | exactly which archives and sidecars a prune takes away, for every pattern of replies |
| Retention.RemoteDir.Prune | internal/rclone/client.go:220-242 | after a successful prune the same files by name, and never another; what is left for every pattern of replies; nothing happens if the listing fails |
| Retention.ListingIsNewestFirst | internal/rclone/client.go:157-159 | a listing of mixable timestamps is newest first in time, which `FilesToPrune` expects |
| Retention.DoomedIsSuffix | internal/rclone/client.go:270-285 | the files to delete are exactly the end of the listing past the number kept |
| Retention.NewestSurvive | internal/rclone/client.go:262-269 | whatever fails, the newest `minFilesToKeep` stay, untouched |
| Retention.RecentSurvive | internal/rclone/client.go:276-283 | whatever fails, an archive not older than the cutoff stays, untouched |
| Retention.RetentionFloor | internal/rclone/client.go:220-242 | over every sequence of uploads and prunes with any failures, the archive count never falls below the floor or what there ever was |
| Retention.CompletePrune | internal/rclone/client.go:220-285 | with all deletes done exactly the newest max(min(n, floor), not older than cutoff) remain |
| Retention.PruneTwice | internal/rclone/client.go:220-285 | after a complete prune a second one at the same clock deletes nothing, for any timestamps, unparsable ones included |
| Retention.SidecarIsNoArchive | internal/rclone/client.go:140-148 | a sidecar's name is never that of a listed archive |
| Upload.Archiver.PruneLocalCopies | internal/backup/local_retention.go:69-104 | the listing in UTC whole seconds, then deletion of what lies past the newest, stopping at a failure |
| Upload.Archiver.RetainLocalCopy | internal/backup/local_retention.go:38-65 | what becomes of the local directory on every path, and exactly when it warns |
| Upload.Archiver.VerifyRemoteHash | internal/backup/run.go:132-141 | no error if and only if the hash was had and the file there has it; one error if it cannot be had, another if it differs |
| Upload.Archiver.PruneWithWarning | internal/backup/run.go:53-61 | what is left on the remote, and whether there is a warning |
| Upload.Archiver.UploadArchive | internal/backup/run.go:86-125 | fails exactly if a hard step failed or the hash differs, with the error of the first, and warns exactly if a soft one did; local and remote state on every exit |
| Upload.FailsExactly | internal/backup/run.go:86-140 | each error if and only if its own request is the first to fail, none if and only if all went through and the hash agrees where there is a manifest |
| Upload.SilentUpload | internal/backup/run.go:86-125 | a success without a warning means that every single request, local and remote, went through |
| Upload.LocalCopySurvives | internal/backup/run.go:72-75 | whatever the remote leg does, the local directory holds exactly the newest archives, and the new one with its manifest |
| Upload.NewCopyKeptExactly | internal/backup/local_retention.go:91-99 | the new copy is certain to be kept if and only if fewer than the retained number of others are as new to the second |
| Upload.UploadsOnlyAdd | internal/backup/run.go:103-120 | whenever `UploadArchive` ends in an error, no remote file is gone and no name but its own two has changed |
| Upload.SuccessMeansStored | internal/backup/run.go:114-140 | after a success with a manifest the remote archive has the dump's hash, unless it was dated before the cutoff and is not among the newest; it is the dump if the hash has no second preimage there |
| Upload.ManifestStored | internal/backup/run.go:106-110 | the manifest goes only with its archive: if that is there, so is the manifest as uploaded |
| Host.Docker.Do | internal/docker/client.go:37-64 | every call is issued once, in order, and reports what the host answered |
| Restore.DownloadAndRead | internal/restore/download.go:22-60 | verifies the bytes as uploaded, then decompresses; each failure in its place |
| Restore.DownloadAndVerify | internal/restore/verify.go:70-91 | a missing manifest is a warning, a differing hash an error |
| Restore.RestoreStandard | internal/restore/standard_restore.go:34-62 | the calls issued and the result, for every pattern of failures; after a success the one call is the extraction of the downloaded archive into the volume |
| Restore.RestoreN8n | internal/restore/n8n_restore.go:36-81 | stop, wipe, extract the downloaded archive, after verification only; stops at the first failure |
| Restore.RestoreRedis | internal/restore/redis_restore.go:37-67 | stop, then copy the downloaded archive to `/data/dump.rdb`, after verification only; after a success the container is down and the file there is that archive |
| Restore.RestorePostgres | internal/restore/postgres_restore.go:29-53 | one client call with user and database from the credentials, the expanded archive on its input, the password in the environment only if there is one |
| Restore.RestoreRabbitMQ | internal/restore/rabbitmq_restore.go:43-75 | copy of the expanded archive to the scratch path, import from there, and the clean-up on both ways out after the copy |
| Restore.PreparedExactly | internal/restore/download.go:22-60 | for each kind exactly when there is something fit to restore, what that is, and when it comes with a warning |
| Restore.FirstObstacleReported | internal/restore/postgres_restore.go:29-43 | of several obstacles the one reported is the first in the order of the steps |
| Restore.PlannedCalls | internal/restore/restorer.go:58-72 | the calls that go out are the start of a fixed list for each kind, with the clean-up only after a copy |
| Restore.StopsAsListed | internal/restore/restorer.go:58-72 | no restore starts anything; a successful one stops its container if and only if its type is listed |
| Restore.SilenceMeansVerified | internal/restore/verify.go:40-63 | success without a warning went through a manifest whose hash the archive has |
| Restore.UntouchedExactly | internal/restore/restorer.go:49-54 | a restore carries out no docker call if and only if there was nothing fit to restore or the host refused the first call, and then it has failed |
| Restore.FailureLeavesTargetAlone | internal/restore/restorer.go:49-54 | under that condition on the inputs the host is exactly as it was |
| Restore.ManifestStaysIntact | internal/restore/verify.go:25-38 | from a successful upload, over any later changes of the remote directory that leave the manifest alone, a manifest that is downloaded is the one written for the dump |
| Restore.RestoresTheDump | internal/restore/verify.go:25-91 | manifest intact, any downloaded bytes: success if and only if they are those uploaded and nothing failed; then docker gets exactly the dump, without a warning; other bytes reach no docker call |
| Restore.SilentRestore | internal/restore/verify.go:25-91 | the manifest download may fail, too: success without a warning if and only if the manifest came, the bytes are those uploaded and nothing failed |
| Restore.N8nReplacesVolume | internal/restore/n8n_restore.go:65-79 | the volume is the archived one if and only if everything that survived the wipe was archived too: names the globs pass over, and whatever `rm` failed to remove, of which nobody is told |
| Restore.StandardOverlaysVolume | internal/restore/standard_restore.go:30-33 | files not in the archive stay as they were, where no file stands in a directory's place; the container keeps running |
| Restore.FailedExtractLosesVolume | internal/restore/n8n_restore.go:65-79 | an archive that does not unpack leaves the volume wiped as far as the wipe went |
| Restore.RabbitImportsDefinitions | internal/restore/rabbitmq_restore.go:59-74 | at the import the scratch file holds the dump; afterwards it is gone unless its removal was refused |
| N8nBackup.TarAndUpload | internal/backup/n8n/n8n.go:66-84 | the part between stop and restart, with each failure in its place, and everything `UploadArchive` promises for the archived volume |
| N8nBackup.Backup | internal/backup/n8n/n8n.go:45-85 | the calls on every exit; it succeeds exactly when stop, archive and upload did; otherwise the error is that of the first step that did not, whether or not the restart works; the warning is the upload's or a failed restart; what is uploaded is the volume as it was before |
| N8nBackup.RestartsExactlyOnce | internal/backup/n8n/n8n.go:53-64 | after a successful stop the restart is issued exactly once, as the last call |
| N8nBackup.RunsAgain | internal/backup/n8n/n8n.go:53-64 | a running container runs afterwards except exactly when a stop took effect but failed, or the restart was refused |
| N8nBackup.VolumeComesBack | internal/backup/n8n/n8n.go:72-84 | from what `Backup` promises to a restore: on any later host, after any remote changes that leave the manifest alone, a restore that succeeds without a warning puts back the volume the backup saw, beside what its wipe left |
| RemoteTree.BuildTree | internal/cli/tree.go:88-113 | linked nodes, one per path; in terms of the listed text, duplicates and stray slashes included: which nodes there are, that a node carries its last entry's attributes, that it is a directory if something is listed below it later, and that all others are implied directories |
| RemoteTree.EntrySpelled | internal/cli/tree.go:91-97 | an entry stands for a node if and only if its path spells the node's names, whatever slashes stand around and between them |
| Text.JoinedSpells | internal/cli/tree.go:91 | names with a single slash between them spell themselves |
| RemoteTree.LastListed | internal/cli/tree.go:102-108 | in any order and with any duplicates: the last entry of a path counts, and whatever comes below it later makes it a directory |
| RemoteTree.AddEntry | internal/cli/tree.go:91-110 | one entry walked through the nodes in place; empty parts passed over |
| RemoteTree.PrefixClosure | internal/cli/tree.go:88-113 | the nodes are the root and everything on the way to an entry, whatever the order |
| RemoteTree.BuildAttributes | internal/cli/tree.go:102-108 | listed nodes have their entry's attributes, all others are implied directories |
| RemoteTree.OrderIndependence | internal/cli/tree.go:88-113 | for distinct paths all orders give the same tree if and only if no file has an entry below it |
| TreeDrawing.PrintTree | internal/cli/tree.go:115-139 | the lines of the drawing, names sorted at each level |
| TreeDrawing.DrawnInText | internal/cli/tree.go:115-139 | the names below a node in sorted order, each after its own branch piece, what is below it further in |
| TreeDrawing.RunTree | internal/cli/tree.go:71-76 | the text printed for a listing: the root and the drawing, or the root and `(empty)` |
| TreeDrawing.LinesRead | internal/cli/tree.go:125-134 | reading lines back piece by piece gives the paths in drawing order |
| TreeDrawing.EachNodeOnce | internal/cli/tree.go:122-138 | every node but the root is exactly one line, and reading back gives each once |
| TreeDrawing.DrawingIsUnambiguous | internal/cli/tree.go:115-139 | trees without newlines in names are drawn alike if and only if they have the same nodes |
| TreeDrawing.BuiltIsClosedUp | internal/cli/tree.go:91-110 | in the tree of any listing every node's parent is a node |
| TreeDrawing.ShownAlike | internal/cli/tree.go:71-76 | two listings of one root without newlines in their paths print the same text if and only if they have the same nodes and are both empty or both not |
| Naming.SanitizeCanonical | internal/detector/detector.go:464-472 | for every input the name is valid, with no doubled and no edge underscore |
| Naming.SanitizeFixes | internal/detector/detector.go:464-472 | nothing changes if and only if the name is already of that kind; applying it twice is applying it once |
| Naming.SanitizeKeepsLetters | internal/detector/detector.go:464-472 | letters and digits all survive in order; `unnamed` stands in only where there were none |
| Naming.SanitizedWords | internal/detector/detector.go:464-472 | the name is the maximal words of letters and digits with a single underscore between them |
| Naming.AlnumExactly | internal/detector/detector.go:459 | which characters make up the words |
| Naming.VolumeSuffix | internal/detector/detector.go:446-457 | what is left of the volume's name has no edge underscore and is never the service's name itself |
| Naming.NoiseInOrder | internal/detector/detector.go:446-450 | each of the four noise suffixes goes at most once, in this order |
| Naming.NamedVolume | internal/detector/detector.go:440-457 | service, underscore, a name, with or without a noise suffix: the result is that name |
| Naming.BareVolume | internal/detector/detector.go:440-457 | the service alone, with or without a noise suffix: nothing is left |
| Naming.IdentifierExactly | internal/detector/naming.go:14-27 | exactly the names of 64 hexadecimal digits are cut, to eight digits after `vol-` |
| Naming.RemotePathText | internal/detector/naming.go:49-56 | environment, host, service and job in this order, lower-case, between slashes |
| Naming.FoldersNeverNest | internal/detector/naming.go:49-56 | folders of one depth with slash-free parts are equal or apart |
| Naming.FoldersAreApart | internal/detector/naming.go:49-56 | two jobs share a folder only if all four parts agree up to case, and none lies in another |
| Detector.IndexByVolume | internal/detector/detector.go:157-167 | for every volume the index holds exactly the matching pairs of container and mount, in order |
| Detector.ExtractCredentials | internal/detector/detector.go:324-349 | the service's known keys and whatever looks like a secret, with the container's values |
| Detector.Choose | internal/detector/detector.go:173-213 | the two passes agree: first image match gives service and credentials; ports of the first user only without a match |
| Detector.ServiceByImage | internal/detector/service_types.go:42-65 | the first of the six words that the lowered image name contains gives the service |
| Detector.ContainsExactly | internal/detector/service_types.go:53-60 | a word counts wherever it stands in the image name |
| Detector.ScannedByImage | internal/detector/detector.go:173-200 | the first container whose image names a service gives type and credentials, those by the listed keys and markers |
| Detector.ScannedByPort | internal/detector/detector.go:202-212 | where none does, the first container's first well-known port decides, or nothing |
| Detector.ScanRecommends | internal/detector/service_types.go:86-105 | the kind of backup proposed for each type |
| Detector.UsersExactly | internal/detector/detector.go:157-167 | a container counts as a user of a volume if and only if one of its mounts is that volume by name |
| Detector.NamedByPattern | internal/detector/detector.go:365-438 | for a service with a database: after the database, else its user, else the volume, else plainly |
| Detector.NamedByVolume | internal/detector/detector.go:365-393 | for the other services: after the volume, and plainly where its name adds nothing |
| Detector.NamedByContainer | internal/detector/detector.go:216-230 | for no known service: after the container, with what the volume's name adds |
| Detector.PortsNeverOverride | internal/detector/detector.go:202-212 | with an image match, other ports give the same choice |
| Detector.EnvironmentNeverDecides | internal/detector/service_types.go:67-75 | other environments give the same service type; with no image match the first port hint decides it |
| Detector.PortOutranksEnvironment | internal/detector/service_types.go:67-75 | a container with another service's credentials in its environment counts as what its port suggests |
| Detector.HintedNamesIgnoreCredentials | internal/detector/detector.go:365-438 | a service known only from a port takes its name from the volume |
| Detector.ProposedNamesAreValid | internal/detector/detector.go:215-230 | every proposed name, generic fallback included, passes `ValidateJobName` |
| Detector.ScanVolumes | internal/detector/detector.go:141-245 | one entry per volume, sorted by name, each what the direct scan says, the proposed kind of backup included; which listing failed otherwise |
| Detector.ProposedFoldersAreApart | internal/detector/detector.go:395-397 | two proposed jobs share a folder if and only if they agree in service and name |
| Redaction.RedactArgs | internal/docker/client.go:73-93 | the loop over a copy equals the parse in which a flag takes the next word; the input is unchanged |
| Redaction.RedactsExactly | internal/docker/client.go:66-93 | exactly the words after an odd number of flags in a row are hidden, after an env flag from the first `=` on |
| Redaction.RedactTwice | internal/docker/client.go:73-93 | redacting again changes nothing |
| Redaction.RedactionIsExact | internal/docker/client.go:66-93 | two argument lists look alike if and only if they differ in secrets at most |
| Redaction.BuildExecArgs | internal/docker/client.go:315-325 | the argument list of `Exec` |
| Redaction.ExecHidesValues | internal/docker/client.go:315-325 | what is shown of an `Exec` call does not depend on environment values |

## Left out

- Process execution, capture of output and JSON decoding: replaced by replies and function values.
- `Retention.FilesToPrune`: the cutoff is a whole number of days before the clock, as in a zone without clock changes.
- `Timestamps.ParseExactly`: the leniencies of Go's time parser (comma fractions, one-digit hours) are not modelled; times beyond the form of section 5.6 of RFC 3339 count as unparsable.
- `Restore.RestoreN8n`: a failed docker call is carried out in full or not at all; a half-unpacked volume is not modelled, and volumes hold regular files by path. Which files a wipe leaves is open.
- `Restore.StandardOverlaysVolume`: what `tar` does where a file stands in a directory's place is outside its hypothesis, and that of the n8n lemmas.
- `Restore.DownloadAndVerify`: the hash is taken of the whole file, not block by block.
- `TreeDrawing.PrintTree`: without `--detailed`, which appends sizes and dates to file lines.
- `RemoteTree.BuildTree`: the three attributes of a node are one record field.
- `JobStore.Store.SaveJob`: names are single path components; the Windows credential store in place of `.env` is not modelled.
- `Naming.FoldersAreApart`: environments with a slash in them, which the configuration does not rule out, are outside its hypothesis; with an empty part the folder string is no longer what `rclone` makes of it.
- `Redaction.RedactArgs`: only the flag forms the code knows.
- The MySQL, MongoDB and host-directory executors and the remaining backup executors: same shape as the modelled ones.
- File permissions, invalid UTF-8, log files, webhook delivery, status wording and `FormatBytes`.
- Host path and `.env` file discovery, port-map iteration order, uniqueness of generated job names (a known limitation of the program).
- `internal/setup`, `internal/generator`, `internal/scheduler`, `internal/secrets`, `internal/plugins`: user interface, system services and skeletons.
