# Crusoe shared-disk NFS tools, modelled in Dafny

Crusoe Cloud VMs mount shared disks over NFS. Three host-side Python scripts manage those
mounts, and this project models their decision logic:

- **IP-to-DNS migration** (`crusoe_shared_disks_migrate.py`). `unmount` records the Crusoe
  NFS mounts in `./crusoe/mounts.json` and unmounts them. `remount` mounts the recorded
  volumes again from the DNS endpoint `nfs.crusoecloudcompute.com`. `rollback` mounts them
  again from their original IP addresses. `fstab` rewrites IP-based Crusoe lines in
  `/etc/fstab` to use the DNS endpoint.
- **virtiofs-to-NFS conversion** (`crusoe_shared_disks_virtiofs_to_nfs.py`). It parses a
  `name,uuid+name,uuid` list of disks. It checks the exports and that the NFS server
  answers ping. It converts every live virtiofs mount to NFS, with five mount attempts
  before it restores the virtiofs mount. It then rewrites the virtiofs lines of
  `/etc/fstab`.
- **NFS driver setup** (`crusoe_shared_disks_nfs_setup.py`). It parses and compares
  kernel release versions, picks the driver package for the running kernel, and tests
  whether the driver is installed.

The code that changes a host step by step keeps that form in the model:

- `MigrationHost.Host` is a class whose fields are the live mount table, the existing
  directories, the fstab text, the command log and the checkpoint file.
- `VirtiofsVm.Vm` is a class whose field is the log of commands it has issued.

Their methods loop as the script does. Each method is proved equal to a specification
function (`UnmountPhase`, `RemountVirtiofs`, …), and the lemmas state what the scripts
promise about those functions. The pure parts are functions over values: mount
inventory, the fstab line rewriters, the name-to-UUID parser and the kernel-version logic.

Commands are values (`Command`, `VCommand`) rather than shell text. What a host answers
is a parameter:

- For the migration, a set of commands that fail, and a `findmnt` query over the mount
  table.
- For the VM, a reply for each position in the command log, and a JSON decoder.

Files:

| file | module | contents |
|---|---|---|
| text.dfy | `Wrappers`, `Text` | `Option`; Python's `in`, `split(sep)`, `split()`, `strip()` and `join` on strings |
| inventory.dfy | `Inventory` | `get_current_mounts` of the migration script: records from `findmnt` entries |
| dns_fstab.dfy | `DnsFstab` | the line rewrite of `update_fstab` |
| migration_steps.dfy | `MigrationSteps` | the commands, their effect on a host, and the three per-mount loops |
| migration_phases.dfy | `MigrationPhases` | the four subcommands as functions, with their lemmas |
| migration_host.dfy | `MigrationHost` | the `Host` class that runs the subcommands in place |
| migration_scenarios.dfy | `MigrationScenarios` | whole runs: unmount then remount, unmount then rollback |
| virtiofs_input.dfy | `VirtiofsInput` | UUID validation, the name-to-UUID parser, the export check |
| virtiofs_fstab.dfy | `VirtiofsFstab` | the in-place line rewrite of `remount_fstab_mounts` |
| virtiofs_steps.dfy | `VirtiofsSteps` | the conversion of one mount and of all mounts, and the fstab pass, as functions of the log |
| virtiofs_vm.dfy | `VirtiofsVm` | the `Vm` class that runs those steps |
| nfs_setup.dfy | `NfsSetup` | kernel version parsing and comparison, package choice, installed check |

## Model

| member | source | states |
|---|---|---|
| NfsSetup.CleanRelease | crusoe_shared_disks_nfs_setup.py:31-36 | the cleaned release is a prefix of the raw release with no '-' or '+', and it stops exactly at the first '-' or '+' |
| NfsSetup.ParseComponent | crusoe_shared_disks_nfs_setup.py:39 | a piece parses iff it is a non-empty string of decimal digits |
| NfsSetup.ParseComponents | crusoe_shared_disks_nfs_setup.py:38-39 | the dotted pieces parse iff every piece is a non-empty digit string, and component k is the decimal value of piece k |
| NfsSetup.VersionRoundTrip | crusoe_shared_disks_nfs_setup.py:38-39 | rendering a non-empty version tuple with dots and parsing it gives the tuple back |
| NfsSetup.TupleLessIff | crusoe_shared_disks_nfs_setup.py:45 | tuple `<` holds iff the left tuple is a proper prefix of the right one or is smaller at their first difference |
| NfsSetup.TupleGeReflexive | crusoe_shared_disks_nfs_setup.py:45 | every version is at least itself |
| NfsSetup.TupleGeAntisymmetric | crusoe_shared_disks_nfs_setup.py:45 | two versions each at least the other are equal |
| NfsSetup.TupleLessTransitive | crusoe_shared_disks_nfs_setup.py:45 | tuple `<` is transitive |
| NfsSetup.TupleGeTotalOrder | crusoe_shared_disks_nfs_setup.py:45 | any two versions are comparable, and `>=` is transitive |
| NfsSetup.IsKernelAtLeast | crusoe_shared_disks_nfs_setup.py:31-48 | no error iff both releases parse; then the answer is tuple `>=`; on error the answer is False and the message names the raw release |
| NfsSetup.KernelAtLeastItself | crusoe_shared_disks_nfs_setup.py:31-48 | a release whose cleaned form parses is at least its own cleaned form |
| NfsSetup.CleanReleaseIdempotent | crusoe_shared_disks_nfs_setup.py:36 | cleaning a cleaned release changes nothing |
| NfsSetup.ParseSixEight | crusoe_shared_disks_nfs_setup.py:57 | the threshold "6.8" parses to (6, 8) |
| NfsSetup.PackageChoice | crusoe_shared_disks_nfs_setup.py:57-60 | the 4.5.1 package is chosen iff the release parses to a version at least (6, 8); every other release, unparsable ones included, gets the 4.0.35 package |
| NfsSetup.CheckInstalled | crusoe_shared_disks_nfs_setup.py:78-84 | installed iff the command exited 0 and its output contains "vastnfs-modules"; a raised error is passed back and a clean run returns no error |
| Inventory.SplitSource | crusoe_shared_disks_migrate.py:105-108 | the address is the text before the first ":/volumes/" and the volume id is the text after it up to the next occurrence |
| Inventory.GetCurrentMounts | crusoe_shared_disks_migrate.py:76-117 | None exactly for an error that does not mention "no mounts found" (any case) or for undecodable JSON; an empty list for a blank listing or the no-mounts error; otherwise the records of the Crusoe entries in order |
| Inventory.CollectAppend | crusoe_shared_disks_migrate.py:95-117 | collecting a concatenation of listings concatenates the collected records |
| Inventory.CollectMembership | crusoe_shared_disks_migrate.py:95-117 | a record is collected iff some Crusoe entry of the listing gives it |
| Inventory.CollectLength | crusoe_shared_disks_migrate.py:95-117 | at most one record per entry, with as many records as entries iff every entry is a Crusoe volume |
| Inventory.CollectAligned | crusoe_shared_disks_migrate.py:95-117 | when every entry is a Crusoe volume, record i comes from entry i |
| Inventory.SplitSourceParts | crusoe_shared_disks_migrate.py:106-108 | neither the address nor the volume id contains ":/volumes/" |
| Inventory.SourceRoundTrip | crusoe_shared_disks_migrate.py:105-108 | a source with one delimiter is rebuilt exactly from its address and volume id |
| Inventory.SplitOfVolumeSource | crusoe_shared_disks_migrate.py:105-108 | splitting a source built from an address and a delimiter-free volume id gives both back |
| DnsFstab.UpdateFstabLines | crusoe_shared_disks_migrate.py:432-474 | the loop's new lines equal the per-line rewrite, and its count equals the number of lines needing migration |
| DnsFstab.MigratedLinesAt | crusoe_shared_disks_migrate.py:436-474 | line i of the rewrite is the rewrite of line i alone |
| DnsFstab.MigrateLineSpec | crusoe_shared_disks_migrate.py:436-474 | blank, comment, short, non-nfs, non-Crusoe and already-DNS lines are kept; a migrated line differs and becomes the DNS source, the same mount point, nfs, the DNS options and "0 0" |
| DnsFstab.DnsLineFields | crusoe_shared_disks_migrate.py:469-472 | for a volume id and mount point free of whitespace, a new line splits into the DNS source, the mount point, nfs, the DNS options, 0 and 0 |
| DnsFstab.DnsLineIsFinal | crusoe_shared_disks_migrate.py:462-465 | for a volume id and mount point free of whitespace, a new line needs no further migration |
| DnsFstab.RewriteIdempotent | crusoe_shared_disks_migrate.py:436-474 | rewriting twice is rewriting once, and nothing is left to migrate afterwards |
| DnsFstab.CountMatchesChanges | crusoe_shared_disks_migrate.py:436-478 | a line is changed by the rewrite iff it needs migration, and the count is 0 iff no line needs it |
| DnsFstab.NothingToMigrate | crusoe_shared_disks_migrate.py:476-478 | the count is 0 iff the rewrite leaves every line as it is |
| MigrationSteps.Exec | crusoe_shared_disks_migrate.py:55-73 | every command is logged, and a failing command changes nothing else |
| MigrationSteps.WithoutTarget | crusoe_shared_disks_migrate.py:202 | an entry remains after `umount` iff it was in the table and is not mounted at the target |
| MigrationSteps.UnmountEachSpec | crusoe_shared_disks_migrate.py:196-214 | the unmount loop logs one umount per record in order and keeps directories and fstab; the failure count grows iff some umount fails; an entry remains iff its mount point was not successfully unmounted |
| MigrationSteps.RestoreStepFacts | crusoe_shared_disks_migrate.py:268-291 | one restore adds the record's listing iff it succeeds, creates the mount point only when it is missing and mkdir succeeds, issues the mount call iff the directory is ready, and issues nothing but mkdir and mount |
| MigrationSteps.RestoreEachLive | crusoe_shared_disks_migrate.py:267-291 | the restore loop appends exactly the listings of the mounts that succeed, in order |
| MigrationSteps.RestoreEachLog | crusoe_shared_disks_migrate.py:267-291 | the restore loop only appends to the log, and the mount calls it appends are exactly those of the records whose directory is ready |
| MigrationSteps.RestoreEachIssues | crusoe_shared_disks_migrate.py:267-291 | the restore loop issues only mkdir and mount commands |
| MigrationSteps.RestoreEachDirs | crusoe_shared_disks_migrate.py:274-280 | a directory exists afterwards iff it existed before or is a record's mount point whose mkdir does not fail |
| MigrationSteps.RestoreEachFailures | crusoe_shared_disks_migrate.py:267-313 | the failure count is 0 iff every record is restored |
| MigrationSteps.ReadyStable | crusoe_shared_disks_migrate.py:274-280 | creating a directory with a successful mkdir changes neither the mount calls issued, the entries added, nor whether any record is restored |
| MigrationSteps.LiveOnesMembers | crusoe_shared_disks_migrate.py:359-362 | the records rollback unmounts are exactly those whose mount point is live |
| MigrationSteps.FailFastSpec | crusoe_shared_disks_migrate.py:359-369 | the commands run before the first failure, that failure included, and success iff none fails |
| MigrationSteps.UnmountLiveSpec | crusoe_shared_disks_migrate.py:359-369 | rollback's unmount loop logs the fail-fast prefix of its umounts and succeeds iff none fails |
| MigrationPhases.UnmountPhaseSpec | crusoe_shared_disks_migrate.py:156-214 | `unmount` creates the directory; fails on a listing error; on no mounts it succeeds and keeps an existing checkpoint or writes an empty one; on refusal it does nothing; otherwise it saves the records, issues one umount each and succeeds iff none fails |
| MigrationPhases.UnmountKeepsCheckpoint | crusoe_shared_disks_migrate.py:167-194 | an existing checkpoint is replaced, and any command issued, only when mounts were found |
| MigrationPhases.LivePoints | crusoe_shared_disks_migrate.py:229-233 | the live mount points are exactly those of the current records, and none when the listing fails |
| MigrationPhases.Pending | crusoe_shared_disks_migrate.py:234 | a record is pending iff its mount point is not live |
| MigrationPhases.PartitionCovers | crusoe_shared_disks_migrate.py:234-235 | the pending and already-mounted records together are a permutation of the checkpoint |
| MigrationPhases.PendingKeepsOrder | crusoe_shared_disks_migrate.py:234 | selecting the pending records distributes over concatenation, so order is kept |
| MigrationPhases.LiveOnesKeepOrder | crusoe_shared_disks_migrate.py:360-362 | selecting the live records distributes over concatenation |
| MigrationPhases.IssuedFromRecords | crusoe_shared_disks_migrate.py:282-286 | every mount call issued is the call for one of the records |
| MigrationPhases.RestoredListed | crusoe_shared_disks_migrate.py:267-291 | every record whose restore succeeds ends up listed in the table |
| MigrationPhases.RemountPhaseGates | crusoe_shared_disks_migrate.py:217-265 | `remount` fails with no checkpoint, succeeds unchanged with nothing pending, and otherwise pings first, stopping on a failed ping or a refusal |
| MigrationPhases.RemountPhaseRestores | crusoe_shared_disks_migrate.py:267-313 | with the ping answered and confirmed, it mounts every pending record from the DNS endpoint with the DNS options, never touches a live mount point, and succeeds iff every pending restore succeeds, so every pending record ends up on DNS; records already mounted are left as they are |
| MigrationPhases.WithIps | crusoe_shared_disks_migrate.py:327 | a record is kept iff it has an address |
| MigrationPhases.RollbackPhaseGates | crusoe_shared_disks_migrate.py:316-357 | `rollback` fails with no checkpoint, succeeds with an empty one, and fails unchanged when no record has an address or the user refuses |
| MigrationPhases.UmountsSucceedIff | crusoe_shared_disks_migrate.py:359-369 | the umounts succeed iff no live record's umount fails |
| MigrationPhases.RollbackAborts | crusoe_shared_disks_migrate.py:359-369 | a failing umount aborts the rollback after the fail-fast prefix, with no mount issued |
| MigrationPhases.RollbackRestores | crusoe_shared_disks_migrate.py:371-418 | after the umounts succeed, it issues the IP mount calls of the records with addresses, and succeeds iff all of them are restored |
| MigrationPhases.RollbackRestoresEntry | crusoe_shared_disks_migrate.py:389-393 | the IP mount call of a recorded entry lists exactly that entry again |
| MigrationPhases.FstabContent | crusoe_shared_disks_migrate.py:499-507 | the written content is the joined lines, with a trailing newline added only when missing |
| MigrationPhases.InstallLines | crusoe_shared_disks_migrate.py:498-519 | the install is logged, succeeds iff the copy does not fail, and only then replaces the fstab text |
| MigrationPhases.FstabPhaseGates | crusoe_shared_disks_migrate.py:421-497 | `fstab` never touches mounts or directories; it fails on a read error, succeeds unchanged with nothing to migrate, and fails unchanged on refusal |
| MigrationPhases.FstabPhaseInstalls | crusoe_shared_disks_migrate.py:498-519 | confirmed, it installs the migrated lines and succeeds iff the copy succeeds |
| MigrationHost.Host.constructor | crusoe_shared_disks_migrate.py:49-51 | a host starts with the given table, directories, fstab and checkpoint, and an empty log |
| MigrationHost.Host.Run | crusoe_shared_disks_migrate.py:55-73 | a command succeeds iff it is not a failing one, and the host changes as `Exec` says |
| MigrationHost.Host.SaveMounts | crusoe_shared_disks_migrate.py:135-139 | the checkpoint becomes the given records |
| MigrationHost.Host.Unmount | crusoe_shared_disks_migrate.py:156-214 | the new state, checkpoint and result are those of `UnmountPhase` |
| MigrationHost.Host.RestoreAll | crusoe_shared_disks_migrate.py:267-291 | the restore loop's new state and failure count are those of `RestoreEach` |
| MigrationHost.Host.Remount | crusoe_shared_disks_migrate.py:217-313 | the new state and result are those of `RemountPhase`, and the checkpoint is kept |
| MigrationHost.Host.Rollback | crusoe_shared_disks_migrate.py:316-418 | the new state and result are those of `RollbackPhase`, and the checkpoint is kept |
| MigrationHost.Host.UpdateFstab | crusoe_shared_disks_migrate.py:421-519 | the new state and result are those of `FstabPhase` |
| MigrationScenarios.UnmountEmptiesTable | crusoe_shared_disks_migrate.py:156-214 | with nothing failing, `unmount` succeeds, saves every entry and leaves the table empty |
| MigrationScenarios.UnmountThenRemount | crusoe_shared_disks_migrate.py:156-313 | `unmount` then `remount` both succeed, every original volume is mounted at its mount point from the DNS endpoint, and every mount left is a DNS mount |
| MigrationScenarios.RestoreCollected | crusoe_shared_disks_migrate.py:95-117 | restoring the collected records over IP lists the original entries again, in order |
| MigrationScenarios.UnmountThenRollback | crusoe_shared_disks_migrate.py:156-418 | `unmount` then `rollback` both succeed, and the mount table is exactly the original one |
| VirtiofsInput.IsValidUuid | crusoe_shared_disks_virtiofs_to_nfs.py:34-39 | a valid UUID holds at least 32 characters |
| VirtiofsInput.HexUuidAccepted | crusoe_shared_disks_virtiofs_to_nfs.py:34-39 | any 32 hex digits are a valid UUID |
| VirtiofsInput.CanonicalUuidAccepted | crusoe_shared_disks_virtiofs_to_nfs.py:34-39 | the 8-4-4-4-12 hyphenated form of 32 hex digits is valid |
| VirtiofsInput.ValidUuidNoSpace | crusoe_shared_disks_virtiofs_to_nfs.py:34-39 | a valid UUID holds no whitespace |
| VirtiofsInput.CheckPair | crusoe_shared_disks_virtiofs_to_nfs.py:44-50 | a piece is rejected for a missing comma iff it has no comma; an accepted pair's id is a valid UUID |
| VirtiofsInput.GetNameToIdMapping | crusoe_shared_disks_virtiofs_to_nfs.py:40-53 | the loop's mapping and error message are those of `ParsePairs` over the '+'-separated pieces |
| VirtiofsInput.ParsePairsFailure | crusoe_shared_disks_virtiofs_to_nfs.py:40-50 | the mapping is None iff some piece is bad; then the message is the first bad piece's, and it is non-empty |
| VirtiofsInput.ParsePairsKeys | crusoe_shared_disks_virtiofs_to_nfs.py:41-53 | when every piece is good the error is empty, and a name is a key iff some piece names it |
| VirtiofsInput.ParsePairsLastWins | crusoe_shared_disks_virtiofs_to_nfs.py:51 | a name given twice maps to the later id |
| VirtiofsInput.ParsePairsKeeps | crusoe_shared_disks_virtiofs_to_nfs.py:51 | a name no piece mentions keeps its earlier id |
| VirtiofsInput.ParsePairsValid | crusoe_shared_disks_virtiofs_to_nfs.py:49-51 | every id in the mapping is a valid UUID |
| VirtiofsInput.AllExported | crusoe_shared_disks_virtiofs_to_nfs.py:71-77 | true iff every mount's disk is mapped and its export path appears in the listing |
| VirtiofsInput.VerifyAllMountsExist | crusoe_shared_disks_virtiofs_to_nfs.py:66-77 | true iff `showmount` gives no error and every mount's disk is mapped and exported |
| VirtiofsFstab.RewrittenLines | crusoe_shared_disks_virtiofs_to_nfs.py:155-171 | the rewrite keeps the number of lines and the first line, and rewrites each later line on its own |
| VirtiofsFstab.RewriteFstabLines | crusoe_shared_disks_virtiofs_to_nfs.py:155-171 | the loop succeeds iff every later line has two fields (otherwise IndexError); then its lines are `RewrittenLines` and its count is the number of virtiofs lines |
| VirtiofsFstab.NfsLineFields | crusoe_shared_disks_virtiofs_to_nfs.py:171 | a new line splits into the NFS source, the mount point, nfs, the NFS options, 0 and 0 |
| VirtiofsFstab.NewLineSpec | crusoe_shared_disks_virtiofs_to_nfs.py:159-171 | with ids free of whitespace, a line is kept unless it is a virtiofs line of a mapped disk; then its fields become the NFS line's, and it is no longer virtiofs |
| VirtiofsFstab.RemainingVirtiofs | crusoe_shared_disks_virtiofs_to_nfs.py:165-170 | with ids free of whitespace, a line after the first is virtiofs after the rewrite iff it was virtiofs and its disk is unmapped |
| VirtiofsFstab.RewriteIdempotent | crusoe_shared_disks_virtiofs_to_nfs.py:155-171 | with ids free of whitespace, rewriting twice is rewriting once |
| VirtiofsFstab.CountZeroUnchanged | crusoe_shared_disks_virtiofs_to_nfs.py:156-174 | the count is 0 iff no later line is virtiofs, and then the rewrite changes nothing |
| VirtiofsFstab.CountBoundsChanges | crusoe_shared_disks_virtiofs_to_nfs.py:156-171 | the virtiofs count is at most the number of lines and at least the number of lines the rewrite changes |
| VirtiofsFstab.WrittenTextSplitsBack | crusoe_shared_disks_virtiofs_to_nfs.py:150-193 | with ids free of whitespace, splitting the joined new lines at newlines gives them back |
| VirtiofsSteps.PingBothSpec | crusoe_shared_disks_virtiofs_to_nfs.py:78-85 | it pings the start address, and the end address only if the first ping succeeded; it succeeds iff both replies carry no error |
| VirtiofsSteps.TryMountSpec | crusoe_shared_disks_virtiofs_to_nfs.py:126-137 | a mount is restored iff all five attempts fail, and then five mounts and one virtiofs remount are logged; otherwise only mount attempts are logged, the last one succeeding after failed ones |
| VirtiofsSteps.ConvertOneUmountFails | crusoe_shared_disks_virtiofs_to_nfs.py:110-125 | a failed umount is followed only by the virtiofs remount, and the mount counts as failed |
| VirtiofsSteps.ConvertOneUnmapped | crusoe_shared_disks_virtiofs_to_nfs.py:121-130 | an unmounted mount whose disk is unmapped stops with a KeyError for that disk, left unmounted |
| VirtiofsSteps.ConvertOneRetries | crusoe_shared_disks_virtiofs_to_nfs.py:121-137 | after a successful umount of a mapped disk, the outcome is that of the retry loop |
| VirtiofsSteps.RestoredCount | crusoe_shared_disks_virtiofs_to_nfs.py:108-142 | the failure count is at most the number of mounts, and 0 iff none was restored |
| VirtiofsSteps.ConvertEachShape | crusoe_shared_disks_virtiofs_to_nfs.py:108-137 | the loop either handles every mount or stops at the first unmapped disk |
| VirtiofsSteps.AllMappedFinishes | crusoe_shared_disks_virtiofs_to_nfs.py:108-137 | with every disk mapped, the loop handles every mount |
| VirtiofsSteps.ConvertOneUmounts | crusoe_shared_disks_virtiofs_to_nfs.py:121-137 | handling one mount issues exactly one umount, for its own directory |
| VirtiofsSteps.ConvertEachUmounts | crusoe_shared_disks_virtiofs_to_nfs.py:108-137 | the loop unmounts each mount it reaches exactly once, in order |
| VirtiofsSteps.RemountGates | crusoe_shared_disks_virtiofs_to_nfs.py:86-106 | undecodable output raises before the ping; a failed ping returns None; a failed listing raises TypeError; no mounts returns True; a refusal returns None |
| VirtiofsSteps.RemountConverts | crusoe_shared_disks_virtiofs_to_nfs.py:108-142 | it raises only a KeyError for an unmapped disk; otherwise every mount is unmounted once and the result is True iff every mount converted; with every disk mapped it returns |
| VirtiofsSteps.RemountFstabSpec | crusoe_shared_disks_virtiofs_to_nfs.py:144-199 | the fstab pass never returns True; it raises IndexError iff a later line has fewer than two fields; it writes iff the file was read, has virtiofs lines and is confirmed; the written text splits back into the rewritten lines |
| VirtiofsVm.Vm.constructor | crusoe_shared_disks_virtiofs_to_nfs.py:24-33 | a VM starts with an empty log and the given replies and decoder |
| VirtiofsVm.Vm.Run | crusoe_shared_disks_virtiofs_to_nfs.py:24-33 | a command is appended to the log, and its reply is the one for its position |
| VirtiofsVm.Vm.GetCurrentMounts | crusoe_shared_disks_virtiofs_to_nfs.py:54-65 | the log and listing are those of `ReadMounts` |
| VirtiofsVm.Vm.VerifyAllMountsExist | crusoe_shared_disks_virtiofs_to_nfs.py:66-77 | it issues `showmount` once and succeeds iff there is no error and every mount is mapped and exported |
| VirtiofsVm.Vm.VerifyPing | crusoe_shared_disks_virtiofs_to_nfs.py:78-85 | the log and result are those of `PingBoth` |
| VirtiofsVm.Vm.RestoreVirtiofs | crusoe_shared_disks_virtiofs_to_nfs.py:110-117 | it issues one virtiofs remount of the mount |
| VirtiofsVm.Vm.ConvertMount | crusoe_shared_disks_virtiofs_to_nfs.py:119-137 | the loop with early exit yields the log and outcome of `ConvertOne` |
| VirtiofsVm.Vm.RemountVirtiofsMounts | crusoe_shared_disks_virtiofs_to_nfs.py:86-142 | the log and result are those of `RemountVirtiofs` |
| VirtiofsVm.Vm.RemountFstabMounts | crusoe_shared_disks_virtiofs_to_nfs.py:144-199 | the log and result are those of `RemountFstab` |

## Left out

- Running commands is not modelled: subprocess, `sudo`, timeouts, shell quoting and the text
  of each command. A migration host fails a fixed set of commands, the same way every time.
  A VM answers each log position with a chosen reply.
- The generic-exception branch of the virtiofs `run_command` returns `e.stderr`, which may be
  empty or missing. Every failed VM command is modelled as `Failed`, which counts as an error.
- `NfsSetup.CheckInstalled`: the generic-exception branch of the setup script's
  `run_command` also returns `e.stderr`. An exception without that attribute (an `OSError`,
  a `UnicodeDecodeError` from decoding the output as text) raises `AttributeError` out of
  `check_if_VAST_NFS_driver_installed`, and an empty `stderr` makes it return
  `(False, None)`. The model covers only a zero exit status and the timeout and
  non-zero-exit exceptions, which are handed back as the error.
- JSON decoding is a parameter. For the migration it is a `findmnt` query that returns
  decoded entries, a blank listing, an error text or undecodable output. For the VM it is a
  `Decoder`, which also stands for a missing `"filesystems"` key.
- `load_mounts` reads back exactly what `save_mounts` wrote. A hand-edited or corrupt
  `mounts.json` is not modelled.
- `os.path.exists` and `os.makedirs` are membership in, and addition to, the set of
  existing directories.
- Printing, `input()` prompts (a boolean `confirm` instead), `time.sleep`, `argparse`,
  `main`/`do_main`, `sys.exit` and the `--help` texts are left out.
- The virtiofs `do_main` runs the fstab pass only after the live conversion returned True.
  That sequencing is not modelled.
- `verify_all_mounts_exist` is modelled on its own, since no code path in the script calls
  it.
- The listing `findmnt -t nfs` printed at the end of `remount` and `rollback` only shows
  output. It is not issued in the model.
- `update_fstab` writes a temporary file and then copies it over `/etc/fstab`. The model
  merges both into one `InstallFstab` command, so a failure to write the temporary file
  is not told apart from a failed copy.
- `umount` removes every table entry at its target, and `mount` adds one entry to the end
  of the table. Stacked mounts and other kernel semantics are not modelled.
- `DnsFstab.RewriteIdempotent` is per line. Idempotence of the whole-file `fstab`
  subcommand (read, rewrite, write the newline-terminated text, read again) is not stated.
- Whitespace for `split()` and `strip()`, and `lower()`, are ASCII-only: the non-ASCII
  white space Python also splits at (U+0085, U+00A0, U+2028 and others) is not modelled.
- `VirtiofsInput.IsValidUuid`: `uuid.UUID` strips "urn:", "uuid:", braces and dashes,
  then hands the 32 remaining characters to `int(…, 16)`. That also accepts surrounding
  whitespace, a '+' sign, a "0x" prefix and underscores between digits. The model accepts
  hex digits only, so it rejects some ids the script accepts. `ValidUuidNoSpace` therefore
  holds for the model, not for Python.
- `NfsSetup.ParseComponents`: Python's `int()` also accepts a sign, surrounding whitespace,
  underscores and non-ASCII digits. The model accepts ASCII digit strings only.
- The driver installer's side effects are not modelled: download, `dpkg`, `apt`, reboot
  prompts, and the read-ahead and network tuning. Only its decisions are modelled.
- Where the scripts' own documentation differs from the code, the model follows the code:
  - `rollback` passes the saved option string to `mount -o` unchanged.
  - `update_fstab` rewrites lines with at least four fields and writes "0 0" for dump and
    pass.
  - The virtiofs fstab pass needs at least six fields.
