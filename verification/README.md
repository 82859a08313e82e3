# Homelab backup orchestrator — a verified model of its decision core

The orchestrator backs up the services of a homelab. Those services are Proxmox VMs and LXC containers, Docker containers, systemd units and plain file sets. It reads a YAML configuration, picks a plugin for each service and decides where each backup goes (a Proxmox Backup Server, direct storage or a local root). It also names the backup file, records metadata, keeps a key-value state store, and judges the outcome of the plugin's work.

This project models the deterministic decisions of that core as pure Dafny functions over immutable datatypes and proves what they promise. The clock, the network (the PBS reachability probe, the Proxmox API, Docker, HTTP health checks), the file system (existence, sizes, modification times, directory listings) and the plugins' own work are all parameters. Each is given as a boolean, an enumerated outcome or plain data.

Modules, one per source file plus shared building blocks:

- `Wrappers`: `Option` and `Result`.
- `Text`: digits and padding, ASCII lower-casing, splitting and joining, and lexicographic order.
- `Json`: the JSON-like `Value` used for configuration trees, plugin dictionaries and stored `list`/`dict` values. Objects are insertion-ordered association lists. It also holds the `json.dumps`/`json.loads` codec the state store relies on, with its round trip.
- `Utils`, `UtilsExamples`: `lib/utils.py`.
- `ConfigLoader`: `core/config_loader.py`.
- `StateManager`: `lib/state_manager.py`.
- `Service`: the service record the engine hands to the plugins.
- `Proxmox`: `plugins/hypervisors/proxmox.py`.
- `GenericService`: `plugins/services/generic.py`.
- `BackupEngine`: `core/backup_engine.py`.

Two behaviours are modelled exactly as written:

- `_execute_backup_command` treats a direct or local backup as successful whenever the plugin call does not raise. The value a local `backup` call returns is ignored (`BackupEngine.StorageSuccessIgnoresReturn`).
- The engine calls `plugin.backup_to_pbs` and `plugin.backup_to_storage`. Neither plugin in this model defines those public methods; the Proxmox plugin has only the private `_backup_to_pbs` and `_backup_to_storage`. The plugin base class is not part of this model, so the outcome of those calls is an input (`PluginCall`).

## Model

| member | source | states |
|---|---|---|
| BackupEngine.GetPlugin | core/backup_engine.py:205-259 | an empty type is refused; the lower-cased type is looked up in the cache first and returns the cached instance with the engine unchanged; an unsupported type is refused with the lower-cased type; otherwise a new instance is cached under the lower-cased type |
| BackupEngine.GetPluginFails | core/backup_engine.py:205-230 | selection fails exactly for an empty type or a type whose lower-cased form is not one of vm, lxc, docker, systemd, generic (so `host` and `" vm "` fail) |
| BackupEngine.GetPluginKind | core/backup_engine.py:232-259 | selection keeps the cache invariant, and the class chosen is the hypervisor plugin exactly when the Proxmox plugin's `matches` accepts the type, and the service plugin exactly when the generic plugin's `matches` does |
| BackupEngine.GetPluginRepeat | core/backup_engine.py:213-218 | a second request for the same type in any letter case returns the same instance and does not grow the cache |
| BackupEngine.VmAndLxcSeparate | core/backup_engine.py:232-259 | `vm` and `lxc` use the same plugin class but get separate cache entries and distinct instances |
| BackupEngine.ClearCache | core/backup_engine.py:261-272 | clearing leaves an empty cache |
| BackupEngine.ClearThenFresh | core/backup_engine.py:261-272 | after clearing, the next selection creates an instance different from every instance cached before |
| BackupEngine.MissingPbsFields | core/backup_engine.py:319-323 | lists server, datastore and username exactly when each is empty, in that order |
| BackupEngine.DetermineDestination | core/backup_engine.py:307-423 | a non-VM/LXC type always goes to local with the root as path; for a VM/LXC with PBS off and direct storage enabled, an empty path is exactly the missing-direct-path error; a PBS result is only produced for enabled, reachable PBS and carries its configuration |
| BackupEngine.DestinationPriority | core/backup_engine.py:310-423 | for VM/LXC: enabled PBS wins whenever it succeeds, then enabled direct storage with a path, then the local root, and local is chosen only when both others are off |
| BackupEngine.PbsErrors | core/backup_engine.py:319-367 | enabled PBS with missing fields is an error naming them; a complete but unreachable PBS is an error and never falls through; complete and reachable gives PBS |
| BackupEngine.AllPbsFieldsMissing | core/backup_engine.py:319-328 | with all three fields empty the error lists server, datastore, username in order |
| BackupEngine.ValidatedDirectHasPath | core/backup_engine.py:377-382 | a backup section the configuration layer accepted never yields the missing-direct-path error |
| BackupEngine.StampText | core/backup_engine.py:991-992 | the `%Y%m%d_%H%M%S` stamp is 15 characters |
| BackupEngine.ParseStamp | core/backup_engine.py:991-992 | a stamp is read back only from 15 characters with `_` in position 8 |
| BackupEngine.StampRoundTrip | core/backup_engine.py:991-992 | reading back the stamp of a valid time gives that time |
| BackupEngine.SafeName | core/backup_engine.py:994-995 | every space and `/` becomes `_` and every other character is kept, position by position |
| BackupEngine.SafeNameClean | core/backup_engine.py:994-995 | a sanitised name holds no space or slash, and sanitising is idempotent |
| BackupEngine.Filename | core/backup_engine.py:991-1000 | the name is the safe service name, `_`, the 15-character stamp, `_`, the type, `.`, the extension, at exactly those positions |
| BackupEngine.FilenameStamp | core/backup_engine.py:991-1000 | the creation time can be read back out of a file name |
| BackupEngine.AfterYearOrder | core/backup_engine.py:991-992 | within one year the month-to-second part of the stamp orders like the times |
| BackupEngine.FilenameOrder | core/backup_engine.py:991-1000 | for one service, type and extension, file names are lexicographically ordered exactly as their times are chronologically ordered |
| BackupEngine.CreateMetadata | core/backup_engine.py:458-546 | status is `pending`, the type is lower-cased, the method is the destination's; the size is present only for a given path that exists and is then its size; vmid and node are copied only for vm/lxc and are None otherwise; PBS details (server, datastore, username) exist exactly for a PBS destination |
| BackupEngine.MetadataHidesPassword | core/backup_engine.py:525-532 | the metadata is the same whatever the PBS password or password command, so no secret reaches it |
| BackupEngine.PathJoin | core/backup_engine.py:609-612 | `Path(a) / b`: an absolute `b` replaces `a`, an empty `b` leaves `a` |
| BackupEngine.FailureText | core/backup_engine.py:685-689 | the failure message names the service, the method and the error |
| BackupEngine.PluginErrorText | core/backup_engine.py:205-230 | a refused plugin lookup names the service, and for an unsupported type also the type; the no-type and unsupported-type messages start differently |
| BackupEngine.ExecuteBackup | core/backup_engine.py:587-714 | success exactly when no error message; a dry run always succeeds without touching the cache and reports root/name/file for local, root/file for direct and no path for PBS; a selection error or a raised call fails with the message; a PBS run succeeds exactly when the returned value is truthy |
| BackupEngine.StorageSuccessIgnoresReturn | core/backup_engine.py:648-672 | direct and local runs succeed whenever the call returns; direct reports the returned value as the path, local ignores it |
| BackupEngine.DryRunMatchesLocal | core/backup_engine.py:599-672 | a dry run reports the same local path a real run would write |
| BackupEngine.FilesOnly | core/backup_engine.py:810 | keeps exactly the regular-file entries |
| BackupEngine.InsertByMtime | core/backup_engine.py:817 | inserting into an mtime-sorted list keeps it sorted and adds exactly that entry |
| BackupEngine.SortByMtime | core/backup_engine.py:817 | the result is sorted by mtime, oldest first, and is a permutation of the input |
| BackupEngine.GetBackupFiles | core/backup_engine.py:801-821 | a missing or unreadable directory gives nothing; otherwise the result is sorted by mtime, is a permutation of the regular files, and holds an entry exactly when it is a listed regular file |
| BackupEngine.GetLastBackupTime | core/backup_engine.py:877-903 | an empty or whitespace-only name is refused; an unrecorded service gives None; a recorded one succeeds exactly when its row reads back |
| BackupEngine.RecordedTimeReturned | core/backup_engine.py:889-893 | after the state store records `last_backup.<name>`, the query returns that value |
| BackupEngine.OtherServiceUnaffected | core/backup_engine.py:889-893 | recording another service's time leaves the answer unchanged |
| BackupEngine.ValidateBackupFields | core/backup_engine.py:89-132 | disabled backups pass; otherwise the check passes exactly when the root is an absolute path string and a given retention is an integer (bools count) of at least 1; a falsy root is the missing-root error |
| BackupEngine.ValidateBackupConfig | core/backup_engine.py:89-132 | with no configuration the root is missing; otherwise the check passes exactly when backups are disabled or the configured root and retention meet those rules |
| BackupEngine.ConfiguredBackupValid | core/backup_engine.py:89-132 | a configuration tree whose `global_config.backup` section holds the enabled flag, root and retention of a backup section the configuration layer accepts passes the start-up check `_validate_backup_config`, read through `get` |
| ConfigLoader.MergeInto | core/config_loader.py:386-406 | folding override members in gives exactly the union of the keys |
| ConfigLoader.MergeConfigs | core/config_loader.py:370-406 | the merged dictionary has exactly the keys of both sides |
| ConfigLoader.MergedValue | core/config_loader.py:389-404 | two `services` lists are concatenated; two dicts under any key, `services` included, merge into a dict with both key sets; anything else is the override value |
| ConfigLoader.MergeIntoLookup | core/config_loader.py:386-406 | a key absent from the override keeps its value; a present one gets the merged value |
| ConfigLoader.MergeKeys | core/config_loader.py:370-406 | the merged keys are the union of both sides' keys |
| ConfigLoader.MergeKeepsBase | core/config_loader.py:386-406 | a key only the base holds keeps its value |
| ConfigLoader.MergeOverrideWins | core/config_loader.py:395-404 | outside the `services` list and dict-on-dict cases the override's value wins, so other lists are replaced |
| ConfigLoader.MergeNested | core/config_loader.py:395-401 | two dicts under one key, `services` included, are merged recursively |
| ConfigLoader.MergeServicesAppend | core/config_loader.py:389-394 | a `services` list is the base list followed by the override list |
| ConfigLoader.MergeEmpty | core/config_loader.py:386-406 | merging an empty override returns the base unchanged |
| ConfigLoader.GetNestedValue | core/config_loader.py:441-475 | the value at the end of the path when every segment exists, else the default |
| ConfigLoader.KeyPath | core/config_loader.py:503-510 | the walked path is the dot-separated words of the key, the first renamed from `global` to `global_config` and the rest unchanged |
| ConfigLoader.Get | core/config_loader.py:477-514 | without a configuration the default; with one, an error exactly when the key has 5 or more dots (more than 5 segments), and otherwise the value found by walking the key path through the tree, or the default when a segment is missing |
| ConfigLoader.GetSameHead | core/config_loader.py:503-514 | two leading words that map to the same section give the same lookup |
| ConfigLoader.GetByPath | core/config_loader.py:503-514 | `get` depends on the key only through its segment count and its path |
| ConfigLoader.GetGlobalAlias | core/config_loader.py:506-510 | `global.…` and `global_config.…` look up the same value |
| ConfigLoader.GetMissingSegment | core/config_loader.py:458-475 | a missing segment anywhere on the path yields the default |
| ConfigLoader.GetArray | core/config_loader.py:516-533 | errors exactly when `get` does; a list found under the key is returned as it is; a missing value or a non-list gives the empty list |
| ConfigLoader.FindNamed | core/config_loader.py:564-568 | the index of the first entry with that name, or none when no entry has it |
| ConfigLoader.GetServiceConfig | core/config_loader.py:548-568 | a returned service carries the requested name |
| ConfigLoader.GetServiceConfigMissing | core/config_loader.py:564-568 | a name no service carries gives None |
| ConfigLoader.GetServiceConfigFirst | core/config_loader.py:564-568 | with several services of one name, the first is returned |
| ConfigLoader.NoExtra | core/config_loader.py:48 | `extra="forbid"`: passes exactly when every key is a declared field |
| ConfigLoader.CheckServiceModel | core/config_loader.py:259-289 | passes exactly when vm/lxc have vmid and node, docker has a container name and systemd has a service name |
| ConfigLoader.ParseService | core/config_loader.py:207-289 | accepts exactly the valid inputs; the result has a lower-cased type in {docker, systemd, vm, lxc, generic, host}, a vmid in 100..999999 when set, and the per-type required fields |
| ConfigLoader.ParsePbs | core/config_loader.py:45-76 | accepts exactly the valid inputs; the port lies in 1..65535 and an enabled server has a password or password command |
| ConfigLoader.ParseDirect | core/config_loader.py:79-103 | accepts exactly the valid inputs; the path is absolute and the format, lower-cased, is vma or tar |
| ConfigLoader.OptPbs | core/config_loader.py:115-117 | an optional PBS section is accepted when absent or valid, and a present one satisfies the PBS rules |
| ConfigLoader.OptDirect | core/config_loader.py:118-120 | an optional direct-storage section is accepted when absent or valid |
| ConfigLoader.ParseBackup | core/config_loader.py:106-136 | accepts exactly the valid inputs; the root is absolute and retention is at least 1 |
| ConfigLoader.ParseUpdate | core/config_loader.py:139-154 | the interval lies in 1..168 hours and defaults to 24 |
| ConfigLoader.ParseMonitoring | core/config_loader.py:157-171 | the interval lies in 1..1440 minutes and defaults to 5 |
| StateManager.Serialize | lib/state_manager.py:73-102 | fails exactly for an unsupported value; bool is tested before int and written as `True`/`False` |
| StateManager.ParseInt | lib/state_manager.py:122-123 | `int(text)` reads nothing from empty text |
| StateManager.ParseIntOfIntToString | lib/state_manager.py:91-92 | `int` reads back what `str` wrote for every integer |
| StateManager.FromJson | lib/state_manager.py:130-131 | a decoded JSON document is a none/bool/int/str/list/dict value |
| StateManager.Deserialize | lib/state_manager.py:104-133 | the tag chooses the reader; a bool row is true exactly when its text is `True`; an unknown tag is an error |
| StateManager.DeserializeSerialize | lib/state_manager.py:73-133 | every supported value reads back as itself |
| StateManager.Get | lib/state_manager.py:135-167 | an absent key gives the default, a present one its deserialised row |
| StateManager.Set | lib/state_manager.py:169-202 | an unsupported value fails before any write; otherwise the key is added or replaced and every other row is unchanged |
| StateManager.Delete | lib/state_manager.py:204-222 | removes exactly that key and keeps every other row |
| StateManager.GetAll | lib/state_manager.py:249-270 | succeeds exactly when every row reads back, giving every stored pair |
| StateManager.Clear | lib/state_manager.py:272-287 | leaves no rows |
| StateManager.GetKeys | lib/state_manager.py:289-316 | every key without a prefix, otherwise exactly the keys matching `prefix%` under SQL `LIKE` |
| StateManager.SetThenGet | lib/state_manager.py:169-202 | a value set is the value got back |
| StateManager.SetOtherKeys | lib/state_manager.py:193-199 | setting one key leaves every other key's value as it was |
| StateManager.SetThenExists | lib/state_manager.py:224-245 | after a successful `set` the key exists and no other key's existence changes |
| StateManager.SetReadable | lib/state_manager.py:188-199 | setting keeps every row readable |
| StateManager.DeleteThenGet | lib/state_manager.py:204-247 | a deleted key reads as the default and no longer exists |
| StateManager.DeleteAbsent | lib/state_manager.py:204-222 | deleting an absent key changes nothing |
| StateManager.ClearEmpties | lib/state_manager.py:249-287 | after `clear`, `get_all` is empty and every key reads as its default |
| StateManager.GetAllAfterSet | lib/state_manager.py:249-270 | after `set`, `get_all` holds the stored value |
| StateManager.LikeAny | lib/state_manager.py:306-312 | `%` matches every key |
| StateManager.LikePrefix | lib/state_manager.py:306-310 | for a wildcard-free prefix, `LIKE prefix%` is an ASCII case-insensitive prefix test |
| StateManager.GetKeysStartsWith | lib/state_manager.py:306-314 | a key that starts with such a prefix is always returned |
| StateManager.LikeUnderscore | lib/state_manager.py:306-310 | `_` in a prefix matches any one character |
| Json.DecodeEncode | lib/state_manager.py:99-131 | `json.loads(json.dumps(v))` gives `v` back for every list/dict value |
| Utils.Decompose | lib/utils.py:151-155 | the parts add back up to the seconds, with hours < 24, minutes < 60, seconds < 60 |
| Utils.DecomposeUnique | lib/utils.py:153-155 | that decomposition is the only one with those bounds |
| Utils.HumanReadableDuration | lib/utils.py:132-167 | fails exactly for a negative duration |
| Utils.DurationRoundTrip | lib/utils.py:148-167 | reading the rendered text back gives the number of seconds |
| Utils.DurationPartsPresent | lib/utils.py:157-165 | d, h and m appear exactly when non-zero; s appears when non-zero or when nothing else does |
| Utils.DurationTokensShape | lib/utils.py:157-167 | at least one part is rendered and no part holds a space |
| Utils.ReplaceInvalid | lib/utils.py:223-224 | text without invalid characters is unchanged; a valid replacement leaves no invalid characters |
| Utils.ReplaceInvalidPointwise | lib/utils.py:223-224 | with a one-character replacement, each position is replaced exactly when its character is invalid |
| Utils.StripLeft | lib/utils.py:227 | drops exactly the leading run of dots and spaces |
| Utils.StripRight | lib/utils.py:227 | drops exactly the trailing run of dots and spaces |
| Utils.Strip | lib/utils.py:227 | the result neither starts nor ends with a dot or space |
| Utils.SanitizeFilename | lib/utils.py:204-233 | fails exactly for an empty name; a name whose replaced form is only dots and spaces gives `unnamed`; the result is never empty, is clean at both ends and has no invalid characters |
| Utils.StripIsTrimmed | lib/utils.py:227 | `strip(". ")` keeps exactly the slice from the first to the last character that is neither a dot nor a space |
| Utils.SanitizeTrims | lib/utils.py:223-233 | otherwise the result is the replaced name cut to the span between its first and last character that is neither a dot nor a space |
| Utils.SanitizeIdempotent | lib/utils.py:204-233 | sanitising a sanitised name changes nothing |
| Utils.HostnameIsJoinedLabels | lib/utils.py:258-282 | a hostname is valid exactly when it is at most 253 characters and a dot-join of labels of 1..63 characters, alphanumeric at both ends and alphanumeric, `-` or `_` inside |
| Utils.HostnameChars | lib/utils.py:276-282 | a valid hostname holds only label characters and dots |
| Utils.HostnameAsWrittenAgrees | lib/utils.py:276-282 | the pattern as written and as intended agree on every string without a final newline |
| UtilsExamples.DurationSeconds | lib/utils.py:132-167 | 45 → `45s`, 0 → `0s`, a negative duration fails |
| UtilsExamples.DurationMinutes | lib/utils.py:132-167 | 125 → `2m 5s` |
| UtilsExamples.DurationHours | lib/utils.py:132-167 | 3665 → `1h 1m 5s` |
| UtilsExamples.DurationDays | lib/utils.py:132-167 | 90000 → `1d 1h`: a zero minutes and seconds part is dropped |
| UtilsExamples.SanitizeExample1 | lib/utils.py:204-233 | `my:file/name?.txt` becomes `my_file_name_.txt` |
| UtilsExamples.SanitizeExample4 | lib/utils.py:227 | surrounding spaces are stripped |
| UtilsExamples.SanitizeOnlyDots | lib/utils.py:229-233 | a name of only dots and spaces becomes `unnamed` |
| UtilsExamples.VmidBoundaries | lib/utils.py:239-255 | 100 and 999999 are valid VMIDs; 99 and 1000000 are not |
| UtilsExamples.HostnameTrailingNewline | lib/utils.py:276-282 | `server01\n` passes the pattern as written but is not a valid hostname |
| UtilsExamples.HostnameExamplesInvalid | lib/utils.py:276-282 | the empty name and `server..local` are invalid |
| UtilsExamples.HostnameExampleDotted | lib/utils.py:276-282 | `server_01.local` is valid |
| Service.FromConfig | core/config_loader.py:207-240 | the plugins see the configured name, type and vmid, and the extra `health_check_url` exactly as configured, `None` when absent |
| Proxmox.MatchesIgnoresCase | plugins/hypervisors/proxmox.py:63-79 | `matches` accepts vm or lxc in any letter case |
| Proxmox.ValidateService | plugins/hypervisors/proxmox.py:126-156 | passes exactly for a type that is exactly vm/lxc with an int vmid and a node; each error occurs exactly when all earlier checks passed and its own failed |
| Proxmox.ValidatedMatches | plugins/hypervisors/proxmox.py:63-156 | a service that passes validation is one `matches` accepts |
| Proxmox.ConfiguredGuestValidates | plugins/hypervisors/proxmox.py:126-156 | every vm/lxc service the configuration layer accepts passes the plugin's validation |
| Proxmox.VmType | plugins/hypervisors/proxmox.py:158-168 | `qemu` exactly for `vm`, `lxc` for anything else |
| Proxmox.GetActualNode | plugins/hypervisors/proxmox.py:170-228 | the node of the first resource with a matching vmid; the configured node when none matches or the query fails; an error only for a connection failure |
| Proxmox.LinesExactly | plugins/hypervisors/proxmox.py:322-330 | the texts exist exactly when every entry's text is a string, and then each text is that entry's `t` (default empty), in order |
| Proxmox.ErrorLinesFilter | plugins/hypervisors/proxmox.py:325-330 | a line is kept exactly when it is in the log and mentions `error` or `fail` in any case |
| Proxmox.LastN | plugins/hypervisors/proxmox.py:331-333 | the last at most n elements, all of them when there are few |
| Proxmox.ParseTaskLog | plugins/hypervisors/proxmox.py:306-339 | the last three error lines joined by ` \| `; else the last entry's text; nothing for an empty or failed log |
| Proxmox.LinesPrefixNone | plugins/hypervisors/proxmox.py:322-330 | an unreadable entry makes the whole log unreadable |
| Proxmox.WaitForTask | plugins/hypervisors/proxmox.py:257-304 | true exactly when some answer is `stopped` with exit status `OK` and every earlier answer was `running` |
| Proxmox.PlanBackup | plugins/hypervisors/proxmox.py:355-518 | validation and node errors reject, and nothing else does; a truthy `use_pbs` sends a validated guest to PBS with the `pbs_config` datastore, or to NoDatastore when that datastore is falsy; a non-mapping `pbs_config` raises; otherwise the storage route is taken |
| Proxmox.Backup | plugins/hypervisors/proxmox.py:494-518 | succeeds exactly when a PBS or storage task was planned and that task succeeded |
| Proxmox.StorageBackupDecides | plugins/hypervisors/proxmox.py:494-518 | a validated guest without `use_pbs` backs up exactly when its storage task succeeds |
| Proxmox.PbsBackupDecides | plugins/hypervisors/proxmox.py:355-362 | a validated guest with `use_pbs` and a truthy datastore takes the PBS route and backs up exactly when that task succeeds |
| Proxmox.NoDatastoreFails | plugins/hypervisors/proxmox.py:358-362 | PBS with a missing `pbs_config`, or a mapping whose datastore is missing or falsy, fails before any task exists |
| Proxmox.SnapshotOutcome | plugins/hypervisors/proxmox.py:563-568 | a UPID result succeeds exactly when the wait does; any other result succeeds at once |
| Proxmox.GetStatus | plugins/hypervisors/proxmox.py:751-795 | nothing on any error; otherwise node, vmid and type are set, status defaults to `unknown`, and cpu, memory (from `mem`) and uptime are copied from the answer |
| GenericService.BackupRoute | plugins/services/generic.py:625-642 | dispatch on the exact type; any other type is unsupported |
| GenericService.UpdateRoute | plugins/services/generic.py:843-861 | docker and systemd have helpers; generic has no update; other types are unsupported |
| GenericService.Dispatch | plugins/services/generic.py:625-642 | succeeds exactly when there is a helper and it succeeded |
| GenericService.UpdateGenericFails | plugins/services/generic.py:852-857 | `update` never succeeds for generic or unknown types |
| GenericService.BackupServedTypes | plugins/services/generic.py:630-635 | every exact served type reaches its helper |
| GenericService.MatchedButUnsupported | plugins/services/generic.py:67-83 | `Docker` is accepted by `matches` but refused by `backup` |
| GenericService.Rollback | plugins/services/generic.py:956-973 | rollback never succeeds |
| GenericService.Volumes | plugins/services/generic.py:207-217 | defined exactly when every mount is a mapping; never more volumes than mounts |
| GenericService.VolumesAppend | plugins/services/generic.py:209-217 | mounts read in two pieces give the two pieces' volumes in order |
| GenericService.VolumesExactly | plugins/services/generic.py:207-217 | a volume is reported exactly when some mount of type `volume` gives its Name and Destination |
| GenericService.DockerVolumes | plugins/services/generic.py:191-227 | no container or no `Mounts` gives no volumes; a list of mappings gives its volumes; a `Mounts` value that is not a list of mappings gives no volumes |
| GenericService.ContainerName | plugins/services/generic.py:881 | `container_name` when set and non-empty, else the service name |
| GenericService.UnitName | plugins/services/generic.py:906 | `service_name` when set and non-empty, else the service name |
| GenericService.ContainerNameFallback | plugins/services/generic.py:881 | the service name is used only when no usable container name is configured |
| GenericService.KeepSegments | plugins/services/generic.py:556 | `pathlib` keeps no empty and no `.` segment |
| GenericService.KeepSegmentsExactly | plugins/services/generic.py:556 | a segment is kept exactly when it occurs and is neither empty nor `.` |
| GenericService.PathRoot | plugins/services/generic.py:556 | a relative path has no root; exactly two leading slashes stay two; one or three and more become one |
| GenericService.NormPath | plugins/services/generic.py:556-563 | `str(Path(p))` is never empty, keeps the root and the kept segments of `p`, and ends in a slash only when it is the root alone |
| GenericService.NormPathIdempotent | plugins/services/generic.py:556 | normalising twice changes nothing |
| GenericService.NormPathTrailingSlash | plugins/services/generic.py:556 | a trailing slash is dropped |
| GenericService.NormPathRepeatedSlash | plugins/services/generic.py:556 | a repeated slash inside a path counts once |
| GenericService.NormPathDotSegment | plugins/services/generic.py:556 | a `.` segment inside a path is dropped |
| GenericService.NormPathLeadingDot | plugins/services/generic.py:556 | a leading `./` is dropped |
| GenericService.MatchesIgnoresCase | plugins/services/generic.py:67-83 | `matches` ignores letter case and takes exactly docker, systemd and generic |
| GenericService.DockerHealthy | plugins/services/generic.py:879-903 | fails unless running; a `State` that is not a mapping fails; a running container passes when its health entry is absent or empty, and when it is a mapping with status `healthy` or `none`; a passing container with health data reports `healthy` or `none` |
| GenericService.HealthyContainerPasses | plugins/services/generic.py:891-899 | a running container with `healthy` or `none` passes |
| GenericService.UnhealthyContainerFails | plugins/services/generic.py:891-899 | an `unhealthy` container fails while running |
| GenericService.Validate | plugins/services/generic.py:863-954 | docker passes exactly when Docker answers, the container exists and is healthy and the health URL check passes; systemd exactly when the unit is `active` and that check passes; generic fails when a configured path is missing and passes when all exist and that check passes; any other type passes exactly when that check passes; a truthy health URL fails every service unless it is a string that answers 200 |
| GenericService.MissingPathFails | plugins/services/generic.py:921-929 | a generic service with a path whose normal form does not exist fails validation |
| GenericService.HealthEndpointDecides | plugins/services/generic.py:931-944 | a truthy health URL that is not a string, or does not answer 200, fails every service |
| GenericService.ConfiguredNonStringUrlFails | plugins/services/generic.py:931-944 | a configured truthy `health_check_url` that is not a string, such as `8080`, makes validation fail whatever the probe sees |
| GenericService.CreateManifest | plugins/services/generic.py:117-136 | the manifest carries the service name and type, the date, version `1.0` and the metadata unchanged |
| GenericService.ExistingPathsExactly | plugins/services/generic.py:555-563 | the recorded paths are exactly the normal forms of the configured paths that exist |
| GenericService.ExistingPathsNormal | plugins/services/generic.py:556-563 | every recorded path is already in `pathlib` normal form |
| GenericService.BackupGenericFiles | plugins/services/generic.py:525-607 | no or empty backup paths refuse; no configured path whose normal form exists refuses; otherwise the manifest records the normal forms of the existing paths and the outcome is the archive step's |
| GenericService.GenericFilesSuccess | plugins/services/generic.py:540-570 | success implies the archive succeeded and the normal form of some configured path existed |

## Left out

- Clock, durations and floats: `datetime.now`, `time.time`, 2-decimal rounding of durations, ISO timestamps (inputs), `format_bytes`, JSON floats.
- File system: mkdir, tar creation, copies, `stat`, `iterdir`. Their outcomes are inputs (`FileProbe`, `Listing`, `existing`, `archiveOk`).
- Network and remote APIs: the PBS version probe (the `reachable` input), proxmoxer, the Docker SDK, `systemctl`, HTTP health checks, and the package-manager commands.
- The SQLite engine, its `threading.Lock`, `updated_at`, and logging. The store is a single map.
- YAML parsing (`_load_yaml`) and pydantic's lax coercions such as `"100"` → 100. Only the exact JSON kind is accepted.
- ConfigLoader.ParseService: reports the first failing check, where pydantic gathers every error. The same holds for ParsePbs, ParseDirect, ParseBackup, ParseUpdate and ParseMonitoring.
- The hypervisor and notification validators, and `HomeLabConfig`. They are not used by the modelled operations.
- The stub methods that raise `NotImplementedError`: `backup_all_services`, `backup_service`, `_perform_backup`, `verify_backup`, `apply_retention_policy`, `_update_backup_state`, `get_backup_status`, `_send_backup_summary`. Also left out are `_get_backup_directory` and `_get_backup_config`; the latter's result is the `BackupConfig` record.
- The plugin base class. `backup_to_pbs` and `backup_to_storage` are called on the plugins, but their code is not part of this model; their outcome is the `PluginCall` input.
- BackupEngine.ExecuteBackup: has no "unknown method" branch, because `Destination` has only the three methods the destination decision produces.
- BackupEngine.GetBackupFiles: models a fixed mtime per entry that can always be read. In the source the sort key calls `f.stat()` (core/backup_engine.py:817), outside the `try` at core/backup_engine.py:810-814, so an `OSError` there, for example a file removed after the listing, propagates out of `_get_backup_files` instead of giving an empty list.
- BackupEngine.SortByMtime: stability is not stated, only order and permutation.
- BackupEngine.StampRoundTrip: holds for years 1000 to 9999, the years `%Y` writes in four digits.
- BackupEngine.PathJoin: does not normalise `.`/`..` or repeated slashes, as `pathlib` does for some inputs.
- StateManager.Deserialize: `float` and `datetime` rows always read back. In the source `float()` and `datetime.fromisoformat` (lib/state_manager.py:124-127) raise on malformed text; the model keeps their text and cannot fail there.
- Utils.ReplaceInvalid: appends the replacement verbatim. `re.sub` (lib/utils.py:224) expands backslash escapes and group references in the replacement string, so a replacement holding `\1` or `\n` behaves differently.
- Utils.IsValidVmid: takes an `int`, so the `isinstance` check (lib/utils.py:255) has no counterpart; in Python `is_valid_vmid(100.0)` is False.
- Python's full Unicode `str.lower()` is modelled as ASCII lower-casing. `int()` with surrounding whitespace or `_` separators is also left out.
- Proxmox.ValidateService: a configured vmid is always an int here, so the "vmid is not an int" error is reachable only through a hand-built service record.
- Proxmox.GetStatus: returns a record with optional cpu/memory/uptime fields instead of a dictionary.
- The Docker and systemd backup and update helpers (`_backup_docker_service`, `_backup_docker_volume`, `_backup_systemd_service`, `_update_docker_service`, `_update_systemd_service`), `_create_tar_archive`, and the generic plugin's `get_status`. They consist of subprocess, Docker and file I/O, and their outcome is the `helperOk` input.
- `matches` on a target whose `type` is not a string. A missing type is the empty string.
- JSON objects with non-string keys, and floats in stored `list`/`dict` values.
- Three input-side corners of Python's readers that the modelled operations never produce. `json.loads` accepts a lone surrogate escape such as `\ud800`, which the decoder rejects because a Dafny `char` cannot hold one. A JSON object with a repeated key keeps its last value in Python, whereas the decoded member list keeps both and `Lookup` finds the first. `hasattr` on a pydantic model (core/config_loader.py:462-464) also finds methods and properties, so a key such as `global.backup.model_dump` returns a bound method in the source and the default here.

## Findings

| source | as written | input that shows it | evidently intended | confidence | as-written member | corrected member |
|---|---|---|---|---|---|---|
| lib/utils.py:276-282 | `re.match` with a pattern ending in `$` accepts a hostname followed by one newline | `"server01\n"` | the labels must cover the whole string (`re.fullmatch` or `\Z`) | high, not executed | Utils.IsValidHostnameAsWritten, UtilsExamples.HostnameTrailingNewline | Utils.IsValidHostname, Utils.HostnameIsJoinedLabels |
