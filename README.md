# raspi-simple-backup: a verified model of the backup script

`backup.py` backs up folders of a Raspberry Pi. For each input path it finds the backup targets: the
path itself when it holds a `backup.yaml`, otherwise its immediate sub-folders that hold one. It then
skips a target that is ignored, runs its pre-backup command, and zips its files, leaving out the ones
that match the target's `exclude` patterns. A manifest of CRC-32 checksums and the total size is
written next to those archives, and everything is bundled into one final archive. That archive is
then stored in the retention tiers `daily`, `weekly`, `monthly` and `yearly` of the output directory.
Before the copy, each tier except `yearly` loses the dated archives older than its limit.

This project models those decision rules in Dafny and proves what they guarantee. The file system is
a value: a directory maps entry names to regular files (their bytes) or to sub-directories. The
output directory, whose entries the script changes in place, is a class with a mutable map.

| file | module | models |
|---|---|---|
| base.dfy | `Base` | option and result types, the exceptions the script raises |
| text.dfy | `Text` | `strip`, `lower`, `replace`, `split` and joining on one character |
| filesystem.dfy | `FileSystem` | the tree, `_get_folders_files`, `os.path.join`, `Path.name`, the paths `os.walk` reports |
| glob.dfy | `Glob` | `fnmatch.fnmatch`: the pattern compiler, the matcher and a reference meaning |
| exclusion.dfy | `Exclusion` | `_process_exclude_text` and the pattern test of the archive loop |
| archive.dfy | `Archiver` | `_create_zip_from_directory` as the map from relative path to bytes |
| crc32.dfy | `Crc` | zlib's CRC-32 and `_calculate_checksum` |
| hex.dfy | `Hex` | Python's `hex()` |
| manifest.dfy | `Manifest` | the `checksums` and `size` of `create_manifest_file` |
| dates.dfy | `Dates` | `datetime.date`: ordinals, weekdays, `strftime` and `strptime` for `%Y-%m-%d` |
| naming.dfy | `Naming` | `RE_BACKUP_FILE.match` and the name of the day's archive |
| retention.dfy | `Retention` | `remove_outdated_backups`, `shutil.copy` into a tier, `on_backup_completed`, the tier `makedirs` |
| discovery.dfy | `Discovery` | `process_input_path`, the ignore test and archive naming of `handle_backup_folder`, input-path normalisation |
| startup.dfy | `Startup` | the validation sequence of `main` |

The loops of the script are methods proved against specification functions. These are
`ProcessExcludeText`, `IsExcluded`, `WritePaths`, `CalculateChecksum`, `DeleteOutdated` and the
methods of `Retention.OutputDir`. The properties are proved as lemmas about those functions.

Where the prose description of the system and the code differ, the model follows the code:
- A tier entry is a pruning candidate when its name *starts with* `backup_<digits>-<digits>-<digits>.zip`.
  It need not be exactly `backup_<YYYY-MM-DD>.zip`.
- `main` creates the four tier directories *before* it checks `disk_usage_limit`. So a limit outside
  `[0, 1]` is reported after the directories exist.
- Exclude patterns are lower-cased but the relative paths are not. So matching stays case-sensitive
  (`Archiver.ExcludeIsCaseSensitive`).

## Model

| member | source | states |
|---|---|---|
| FileSystem.GetFoldersFiles | backup.py:101-110 | a missing path raises `FileNotFoundError` and a regular file `NotADirectoryError`; a directory gives folders and files that together are its entries, the folders being exactly the sub-directories |
| FileSystem.FoldersFilesPartition | backup.py:103-104 | the two lists split the listing: every entry is a directory or a file, never both |
| FileSystem.RelPathsExact | backup.py:138-141 | in a well-formed tree a relative path is reported by the walk if and only if following its components reaches a regular file |
| FileSystem.NoEmptyRelPath | backup.py:141 | no file has the empty relative path |
| FileSystem.NameOfJoin | backup.py:237 | the base name of an entry joined onto any directory path is the entry's own name |
| Text.StripShape | backup.py:118 | the stripped text is a slice of the original with only whitespace before and after it |
| Text.StripEnds | backup.py:118 | the stripped text neither starts nor ends with whitespace |
| Text.SplitJoin | backup.py:118 | splitting the join of pieces free of the separator gives the pieces back |
| Text.SplitCount | backup.py:118 | `split` yields one more piece than there are separators |
| Text.LowerIdempotent | backup.py:118 | lower-casing twice equals lower-casing once and leaves no upper-case letter |
| Exclusion.ExcludePatterns | backup.py:113-126 | `_process_exclude_text` as a value: `None` gives no patterns; a text gives one pattern per line once it is stripped, rid of `\r` and split at newlines, each line stripped and lower-cased; `ProcessExcludeText` computes it and `PatternCount`, `PatternShape` and `CleanText` state what it yields |
| Exclusion.Excluded | backup.py:144-147 | a relative path is kept out of the archive when some pattern `fnmatch`es it; `IsExcluded` is the loop that decides it |
| Exclusion.ProcessExcludeText | backup.py:113-126 | `None` gives no patterns; otherwise the result is one pattern per cleaned line, in order |
| Exclusion.AppendPatterns | backup.py:120-124 | one pattern per line, in the order of the lines: the `i`-th line, when it ends in `/`, becomes that directory followed by `*` (all that lies below it, see `Glob.DirectoryPattern`), and is otherwise its own pattern |
| Exclusion.PatternCount | backup.py:118 | the number of patterns is the number of newlines left after stripping and removing `\r`, plus one |
| Exclusion.EmptyTextPatterns | backup.py:118 | the empty text gives the single empty pattern `['']` |
| Exclusion.PatternShape | backup.py:118 | every pattern is lower-case, holds no line break and does not start with whitespace |
| Exclusion.CleanText | backup.py:118 | lines that are already clean, joined by newlines, come back as exactly those lines and their patterns |
| Exclusion.LogAndTmpPatterns | backup.py:113-126 | the text `*.log` newline `tmp/` gives the patterns `*.log` and `tmp/*` |
| Exclusion.IsExcluded | backup.py:144-147 | the inner loop reports a match if and only if some pattern matches the path |
| Glob.Compile | backup.py:145 | `fnmatch.translate` as tokens: `*`, `?`, a bracket class (negated by a leading `!`, a `]` first in it a member), an unclosed `[` as the character itself, every other character literal; `LiteralPattern`, `MemberExamples` and `EdgeExamples` state what it yields |
| Glob.Fnmatch | backup.py:145 | `fnmatch.fnmatch(name, pat)` on POSIX: case-sensitive, the whole name must match, `*` also crosses `/`; `MatchesIffAccepts` ties the backtracking matcher to the meaning where `*` stands for some split of the name |
| Glob.MatchesIffAccepts | backup.py:145 | the backtracking matcher accepts exactly what the reference meaning accepts, where `*` stands for some split of the name |
| Glob.LiteralPattern | backup.py:145 | a pattern without special characters matches exactly itself |
| Glob.DirectoryPattern | backup.py:145 | `dir/*` matches exactly the paths that start with `dir/`, at any depth |
| Glob.SuffixPattern | backup.py:145 | `*suffix` matches exactly the paths that end with the suffix |
| Glob.EmptyPattern | backup.py:145 | the empty pattern matches only the empty name |
| Glob.StarMatchesAll | backup.py:145 | `*` matches every name, including ones with `/` |
| Glob.RangeExample | backup.py:145 | `[a-c]` accepts `b` and rejects `d` |
| Glob.NegatedExample | backup.py:145 | `[!a-c]` rejects `b` and accepts `d` |
| Glob.MemberExamples | backup.py:145 | a `]` right after `[` is a member; a trailing `-` is literal |
| Glob.EdgeExamples | backup.py:145 | an unclosed `[` matches itself; a reversed range matches nothing |
| Archiver.Archived | backup.py:138-147 | the relative paths of the regular files below the root that no pattern matches; `ArchivedExact` states it path by path and `WritePaths` shows the walk writes exactly these |
| Archiver.Archive | backup.py:136-150 | the archive as a map from each archived relative path to its file's bytes; `ArchiveKeys` and `CreateZipFromDirectory` connect it to the walk |
| Archiver.ExampleTarget | backup.py:113-150 | the folder holding `a.txt`, `b.log` and `tmp/c.txt`, with the exclude text `*.log` newline `tmp/`, is archived as `a.txt` alone |
| Archiver.ExampleArchive | backup.py:138-150 | the same folder with the patterns `*.log` and `tmp/*` is archived as `a.txt` alone |
| Archiver.CreateZipFromDirectory | backup.py:129-150 | the archive is the map from each archived relative path to that file's bytes |
| Archiver.WritePaths | backup.py:138-150 | after visiting the walked paths, in any order, the written entries are exactly the visited paths no pattern matches |
| Archiver.WrittenAdd | backup.py:144-150 | visiting one more path writes it exactly when no pattern matches it |
| Archiver.ArchiveKeys | backup.py:150 | the archive holds the archived paths and no others |
| Archiver.ArchivedExact | backup.py:138-150 | a path is archived if and only if it names a regular file below the root and matches none of the patterns |
| Archiver.TmpExcluded | backup.py:144-146 | `exclude: tmp/` keeps out exactly the files whose relative path starts with `tmp/` |
| Archiver.TmpDepth | backup.py:145 | `tmp/*` matches `tmp/a/b.txt` but not `x/tmp/c.txt` |
| Archiver.ExcludeIsCaseSensitive | backup.py:118 | the pattern `cache/*` made from the line `Cache/` does not match `Cache/a.txt` |
| Archiver.FinalBundleComplete | backup.py:340 | the final bundle, made with the exclude text `''`, holds every file of the working directory |
| Crc.Crc32 | backup.py:226 | `zlib.crc32(data, value)`: the reflected CRC-32 of RFC 1952 (polynomial `0xEDB88320`, register inverted before and after), continued from `value`; `CheckValue` pins it to the catalogue value and `Crc32Concat` to continuation |
| Crc.Checksum | backup.py:220-227 | what `_calculate_checksum` reports: `hex()` of the CRC-32 of the whole content, and `0x0` for a chunk size of zero; `CalculateChecksum` computes it and `ChunkSizeIrrelevant` shows the chunking does not change it |
| Crc.Crc32Concat | backup.py:226 | continuing the checksum over `b` from the checksum of `a` gives the checksum of `a + b` |
| Crc.Crc32Empty | backup.py:226 | the checksum of no data leaves the running value unchanged |
| Crc.FoldCrcFlatten | backup.py:225-226 | folding the checksum over consecutive chunks gives the checksum of their concatenation |
| Crc.Chunks | backup.py:225 | the reads concatenate to the content, each read holding between one byte and the chunk size |
| Crc.ChunkSizeIrrelevant | backup.py:220-227 | for every chunk size of at least one, the chunked checksum equals the checksum of the whole content |
| Crc.CalculateChecksum | backup.py:220-227 | the reading loop returns `hex()` of the CRC-32 of the whole content; a chunk size of zero ends at once with `0x0` |
| Crc.CheckValue | backup.py:226 | the CRC-32 of the ASCII text `123456789` is `0xCBF43926`, the catalogue check value of this CRC |
| Hex.HexDigitsRoundTrip | backup.py:227 | the digits of `n` read back as `n` |
| Hex.PyHexShape | backup.py:227 | `hex(n)` is `0x` and then at least one lower-case digit, with a leading `0` only for zero, reading back as `n` |
| Hex.PyHexInjective | backup.py:227 | different numbers render differently |
| Hex.PyHexExamples | backup.py:227 | `hex(0)` is `0x0` and `hex(255)` is `0xff` |
| Hex.PyHexCheckValue | backup.py:227 | the check value renders as `0xcbf43926` |
| Manifest.BuildManifest | backup.py:233-238 | the `checksums` and `size` of the manifest: each regular file of the directory ending in `.zip`, keyed by its name, with its checksum, and the sum of their byte lengths; `ManifestKeys`, `ManifestChecksum` and `ManifestSizeInsert` state it |
| Manifest.JoinEndsWithZip | backup.py:233 | joining a directory in front of a name does not change whether it ends in `.zip` |
| Manifest.ManifestKeys | backup.py:233-237 | the checksums are keyed by exactly the regular files directly in the directory whose names end in `.zip` |
| Manifest.ManifestKeyIsName | backup.py:237 | the key `Path(f).name` of a joined path is the entry's own name |
| Manifest.ManifestChecksum | backup.py:237 | each checksum is `hex()` of the CRC-32 of the whole file |
| Manifest.SumSizesRemove | backup.py:238 | the size is the sum over the archives independent of order: removing any one archive leaves the sum of the others |
| Manifest.ManifestSizeInsert | backup.py:238 | adding one more archive adds its byte length |
| Manifest.ManifestEmpty | backup.py:233-238 | a directory without archives has no checksums and size zero |
| Dates.ToOrdinal | backup.py:258 | `date.toordinal()` of the proleptic Gregorian calendar; `Epoch`, `NextDayOrdinal`, `OrdinalMonotone` and `OrdinalInjective` pin it down |
| Dates.Weekday | backup.py:282 | `date.weekday()`, Monday 0 to Sunday 6, is below 7; `NextDayWeekday` and `KnownDays` tie it to the calendar |
| Dates.FormatDate | backup.py:271 | `strftime('%Y-%m-%d')`: the year, `-`, the two-digit month, `-`, the two-digit day; `ParseFormat` reads it back |
| Dates.NextDayOrdinal | backup.py:258 | the next day has the next ordinal |
| Dates.NextDayWeekday | backup.py:282 | the weekday of the next day is the next weekday, modulo seven |
| Dates.OrdinalMonotone | backup.py:258 | an earlier date has a smaller ordinal, so an age is negative exactly for a future date |
| Dates.OrdinalInjective | backup.py:258 | dates with the same ordinal are equal |
| Dates.YearEnd | backup.py:258 | every date of a year lies within that year's days |
| Dates.Epoch | backup.py:258 | 0001-01-01 has ordinal 1 |
| Dates.KnownDays | backup.py:282 | 2024-10-13 has ordinal 739172 and weekday 6, Sunday |
| Dates.DecimalText | backup.py:271 | `%Y`, as a CPython that hands it to glibc unpadded writes it, gives digits whose value is the year, four of them for the years 1000 to 9999 |
| Dates.TwoDigits | backup.py:271 | `%m` and `%d` write two digits whose value is the number |
| Dates.ParseDate | backup.py:257 | what `strptime` returns is a valid date, and every failure is a `ValueError` |
| Dates.ParseFields | backup.py:257 | a four-digit year, a month field and a day field parse to the checked date exactly when the day field is consumed in full |
| Dates.ParseFormat | backup.py:257 | the text `strftime` writes for a date of years 1000 to 9999 parses back to that date |
| Dates.ParseRejectsFebruary30 | backup.py:257 | `2024-02-30` is rejected |
| Dates.ParseRejectsCommonLeapDay | backup.py:257 | `2023-02-29` is rejected |
| Dates.ParseRejectsMonths | backup.py:257 | months `13` and `00` are rejected |
| Dates.ParseRejectsDay32 | backup.py:257 | day `32` is rejected |
| Dates.ParseRejectsTrailingDigit | backup.py:257 | a third day digit is rejected as unconverted data |
| Dates.ParseRejectsShortYear | backup.py:257 | a two-digit year is rejected |
| Dates.ParseRejectsYearZero | backup.py:257 | year `0000` is rejected |
| Dates.ParseAcceptsLeapDay | backup.py:257 | `2024-02-29` parses to 29 February 2024 |
| Dates.ParseAcceptsShortFields | backup.py:257 | one-digit month and day fields are accepted |
| Naming.MatchBackupName | backup.py:252-253 | `RE_BACKUP_FILE.match(name)` (the expression of line 21) reduced to its group: anchored at the start only; `MatchExact` states exactly which names it recognises and with which group |
| Naming.FinalName | backup.py:270-272 | `final_filename`, `backup_` and the formatted date and `.zip`; `FinalNameRecognised` shows the pruning recognises it |
| Naming.DigitRunSound | backup.py:21 | the greedy `\d+` run holds only digits and no digit follows it |
| Naming.DateSound | backup.py:21 | what the date group accepts is three digit runs joined by `-` and followed by `.zip` |
| Naming.DateComplete | backup.py:21 | three digit runs joined by `-` and followed by `.zip` are accepted in full |
| Naming.MatchExact | backup.py:21 | a name is recognised with group `g` exactly when it starts with `backup_`, `g` and `.zip`, and `g` is three digit runs joined by `-` |
| Naming.MatchExtends | backup.py:252 | the match is anchored only at the start: appending text to a recognised name keeps it recognised with the same group |
| Naming.MatchOf | backup.py:252 | a name built from three digit runs is recognised, whatever follows `.zip` |
| Naming.MatchArchive | backup.py:252 | `backup_2024-10-13.zip` is recognised with group `2024-10-13` |
| Naming.MatchTrailingText | backup.py:252 | `backup_2024-10-13.zip.part` is recognised too |
| Naming.MissingField | backup.py:21 | `backup_2024-10.zip` is not recognised |
| Naming.NotDigits | backup.py:252 | `backup_final.zip` and `old_backup_2024-10-13.zip` are not recognised |
| Naming.FinalNameRecognised | backup.py:270-272 | the name of the day's archive is always recognised with its date as the group, and for years 1000 to 9999 that date parses back to the day |
| Retention.Prune | backup.py:245-264 | `remove_outdated_backups` as a value: the three errors, or the tier without its candidates more than `maxAge` days old; `PruneOutcome`, `PruneExact` and `PruneIdempotent` state it |
| Retention.CopyInto | backup.py:278 | `shutil.copy` into the tier: a missing tier, a tier that is a file, and a directory inside a directory of that name raise; `CopyOutcome` states it |
| Retention.Admits | backup.py:282-294 | the day's archive goes into the daily tier always, the weekly on Sundays, the monthly on the first of a month, the yearly on the first of January; `AdmittedOnSunday` is an instance |
| Retention.MaxAge | backup.py:277-289 | the limits 7, 31 and 372 days; the yearly tier is never pruned |
| Retention.SaveTier | backup.py:276-296 | one block: nothing when the day does not admit the tier, otherwise the pruning (where there is a limit) and then the copy; `SaveTierEffect` states it |
| Retention.Completed | backup.py:267-296 | the four blocks in order, the first error ending the run; `CompletedEffect` and `CompletedFrame` state it |
| Retention.SaveFailed | backup.py:276-296 | the state a block that raised leaves: a pruning stopped by `ValueError` has deleted some outdated archives, any other error changes nothing, and a failed copy leaves the pruned tier; `SaveFailedOther` states its frame |
| Retention.CompletedFailed | backup.py:267-296 | the state a run that raised leaves: the earlier blocks done, the failing one as `SaveFailed`, the later ones not run; `CompletedFailedFrame` states its frame |
| Retention.MakeTiers | backup.py:319-322 | the four `os.makedirs(..., exist_ok=True)` calls in order; `MakeTiersOk`, `MakeTiersResult` and `MakeTiersIdempotent` state it |
| Retention.PruneOutcome | backup.py:252-262 | pruning raises `FileNotFoundError`, `NotADirectoryError` or `ValueError` exactly in the three cases the script does; otherwise only the tier changes |
| Retention.PruneExact | backup.py:255-262 | after pruning, an entry is still there if and only if it is not a candidate more than `maxAge` days old, and it is unchanged |
| Retention.NonCandidatesStay | backup.py:252-253 | directories and files the expression does not recognise are never deleted |
| Retention.BoundaryKept | backup.py:258-260 | a candidate exactly `maxAge` days old, or dated after today, survives |
| Retention.PrunedFresh | backup.py:255-262 | every candidate left in a pruned tier is at most `maxAge` days old |
| Retention.PruneIdempotent | backup.py:245-264 | pruning twice with the same limit and day removes nothing more |
| Retention.UnreadableStops | backup.py:257 | one candidate whose date `strptime` rejects makes the pruning raise `ValueError` |
| Retention.ImpossibleDateStops | backup.py:257 | a tier holding `backup_2024-02-30.zip` cannot be pruned |
| Retention.KeptExceptStep | backup.py:260-262 | looking at one more candidate deletes it exactly when it is removable |
| Retention.CopyOutcome | backup.py:278 | a copy into a missing tier or a file raises; it overwrites a file of the same name, delivers the archive and leaves every other entry as it was |
| Retention.TierNamesDistinct | backup.py:276-296 | the four tier names are distinct |
| Retention.SaveTierEffect | backup.py:276-296 | a block leaves a tier the day does not admit alone; an admitted tier is pruned and then receives the archive, so the day's file survives; nothing else changes |
| Retention.SaveTierOther | backup.py:276-296 | a block leaves the other tiers as they were |
| Retention.CompletedFrame | backup.py:267-296 | a successful run changes nothing outside the four tiers and leaves the tiers the day does not admit as they were |
| Retention.CompletedEffect | backup.py:267-296 | after a successful run every admitted tier holds the day's archive; a pruned tier holds no other candidate over its limit; the yearly tier loses nothing but what the copy overwrote |
| Retention.CompletedNeedsDaily | backup.py:277 | the run raises `FileNotFoundError` when the daily tier is missing |
| Retention.AdmittedOnSunday | backup.py:282-294 | on Sunday 2024-10-13 the archive goes into the daily and weekly tiers only |
| Retention.MakeDirExact | backup.py:319 | `os.makedirs(..., exist_ok=True)` fails with `FileExistsError` exactly when a regular file holds the name, and otherwise adds a directory and changes nothing else |
| Retention.MakeTiersOk | backup.py:319-322 | creating the tiers fails, with `FileExistsError`, exactly when a regular file holds a tier's name |
| Retention.MakeTiersResult | backup.py:319-322 | after creating the tiers every tier is a directory, the missing ones are empty, and everything else is unchanged |
| Retention.MakeTiersFailed | backup.py:319-322 | the state the `os.makedirs` calls leave when one raises: the earlier calls done, a regular file under the failing name, the later calls not run; `MakeTiersFailedFrame` states its frame |
| Retention.MakeTiersFailedFrame | backup.py:319-322 | a creation that raised is exactly a failing `MakeTiers`: it has only added empty tier directories, changed nothing that was there, and a regular file holds one of the tier names |
| Retention.MakeTiersIdempotent | backup.py:319-322 | creating the tiers a second time changes nothing |
| Retention.OutputDir.MakeDirectory | backup.py:319 | one `os.makedirs` on the output directory, as `MakeDir` |
| Retention.OutputDir.MakeTierDirs | backup.py:319-322 | the four calls in order leave the result of `MakeTiers`; a failure raises `FileExistsError` and leaves the state `MakeTiersFailed` describes: the tiers created before it, nothing else added, every earlier entry kept |
| Retention.OutputDir.RemoveOutdatedBackups | backup.py:245-264 | succeeds exactly when `Prune` does and then leaves its result; a listing error changes nothing; a `ValueError` leaves the tier having lost only removable candidates |
| Retention.OutputDir.DeleteOutdated | backup.py:255-262 | the loop, in any order, deletes exactly the removable candidates, or stops at an unreadable date having deleted only removable ones |
| Retention.OutputDir.Copy | backup.py:278 | the copy leaves the result of `CopyInto`, or changes nothing when it raises |
| Retention.OutputDir.Save | backup.py:276-279 | one block succeeds exactly when `SaveTier` does and then leaves its result; when it raises, it raises the same error and leaves the state `SaveFailed` describes: a listing error or a failed copy leaves the tier as the pruning found or left it, a `ValueError` leaves it partly pruned |
| Retention.OutputDir.OnBackupCompleted | backup.py:267-296 | the four blocks leave the result of `Completed` and raise the first error it raises; a run that raises leaves the state `CompletedFailed` describes: the earlier blocks' work done, the failing block's partial work, the later tiers untouched |
| Retention.SaveFailedOther | backup.py:276-296 | a block that raised has changed no other entry of the output directory, and within its tier has only deleted entries |
| Retention.CompletedFailedFrame | backup.py:267-296 | a run that raised has changed nothing outside the four tiers, and once the daily block has done its work the daily tier keeps the day's archive whichever later block raised |
| Discovery.SelectTargets | backup.py:200-217 | the folders `process_input_path` hands on or warns about; `SelectErrors`, `SelectOwnConfig` and `SelectChildren` state it |
| Discovery.SelectErrors | backup.py:207 | listing a missing input path raises `FileNotFoundError`, a regular file `NotADirectoryError`; a directory is always handled |
| Discovery.SelectOwnConfig | backup.py:209-210 | an input path with its own `backup.yaml` is the one and only target |
| Discovery.SelectChildren | backup.py:211-217 | otherwise each immediate sub-folder with a `backup.yaml` is a target, each one without gives a warning, and nothing else is visited |
| Discovery.IsIgnored | backup.py:171 | `folder_config.get('ignore', 'false') in (True, 'true', 'True')` with Python's `==`, under which `1` and `1.0` equal `True`; `IgnoredExact` lists the values that skip |
| Discovery.FolderConfig | backup.py:169 | `yaml.safe_load(f) or dict()`: a falsy document gives no settings, a mapping its settings, anything else fails at `.get` with `AttributeError` |
| Discovery.HandleBackupFolder | backup.py:166-185 | `handle_backup_folder`: the settings, then the `ignore` test, then the command, then the archive of the folder; `HandleWrites`, `HandleSkips` and `HandleArchive` state it |
| Discovery.ArchivePath | backup.py:182 | the folder's archive is `<name>.zip` in the output directory; `ArchiveNamed` states it |
| Discovery.IgnoredExact | backup.py:171 | a folder is skipped exactly when `ignore` is `True`, `1`, `1.0`, `'true'` or `'True'`; a missing key never skips |
| Discovery.NotIgnored | backup.py:171 | the quoted texts `'yes'`, `'TRUE'` and `''`, `False` and `2` do not skip a folder (unquoted `yes`, `TRUE` and `on` load as the boolean true in YAML 1.1 and do skip it) |
| Discovery.HandleWrites | backup.py:166-182 | a folder is archived exactly when its configuration loads, it is not ignored, its command (if any) succeeds and its exclude setting is text or empty |
| Discovery.HandleArchive | backup.py:180-182 | what is written is the filtered walk of the folder under `<name>.zip` in the working directory |
| Discovery.HandleSkips | backup.py:171-178 | an ignored folder is skipped before its command runs; a failing command stops with `CommandError` before anything is archived |
| Discovery.DefaultSettings | backup.py:171-180 | without settings a folder is not ignored, has no command and uses the empty exclude text |
| Discovery.EmptyConfigArchivesAll | backup.py:169-182 | an empty `backup.yaml` archives every file of the folder |
| Discovery.ArchiveNamed | backup.py:182 | the archive's base name is the folder's base name with `.zip`, whatever the output directory |
| Discovery.NormalizeInputPath | backup.py:335 | backslashes become `/`, then every `/` becomes `os.sep`; `NormalizeExact` states it |
| Discovery.NormalizeExact | backup.py:335 | both separators become `os.sep`, one for one, and nothing else changes; on POSIX no backslash is left and normalising again changes nothing |
| Startup.Start | backup.py:299-335 | `main` up to the loop over the input paths: its checks in order, each failure with the script's error; `StartProceeds` and `StartOrder` state it |
| Startup.StartProceeds | backup.py:300-334 | `main` goes on to the backup exactly when every check passes; then every tier is a directory and nothing that was there before has changed |
| Startup.StartOrder | backup.py:312-334 | the checks decide in the script's order: `output_path`, its existence, the tiers, the limit, the disk gate, then `input_paths` |
| Startup.DefaultLimitAccepted | backup.py:324-325 | without the setting the limit is 1.0, which passes the range check |
| Startup.LimitAboveOne | backup.py:324-326 | a limit of 1.5 is rejected with `ConfigurationError` |

## Left out

- Logging, the colour formatter and the traceback report of `main` (backup.py:32-98, 346-370): output formatting with no decision in it.
- `run_command_before_backup` (backup.py:153-163): the shell command's outcome is the parameter `commandSucceeds` of `HandleBackupFolder`. The subprocess, its output and its 600-second timeout are not modelled.
- `check_disk_size` (backup.py:188-197): the disk measurement and its floating-point rounding are an outside call. Its verdict is the parameter `diskOk` of `Start`.
- The clock: "today" is a parameter. `remove_outdated_backups` reads the clock again inside `on_backup_completed`; the model uses one day for both, so a run across midnight is not modelled. The manifest `timestamp` is left out.
- The YAML parser: a folder's configuration and the top-level configuration are the values `yaml.safe_load` returns. How YAML 1.1 resolves an unquoted scalar (`yes`, `on`, `TRUE` to the boolean true, `1.0` to a float) happens before the model sees the value. JSON serialisation of the manifest, the zip container and its compression, and `tempfile` are not modelled either.
- The order of `os.listdir` and `os.walk`: listings are sets and the loops pick their next element arbitrarily. Every ordering is covered, but no particular one.
- The composition inside `main` after the checks: the loop over the input paths, the manifest, the final bundle and `on_backup_completed` (backup.py:333-341). Each of these steps is modelled, but their wiring into one run is not.
- `create_manifest_file`: only the `checksums` and `size` summary is modelled. `Manifest.BuildManifest` is ghost because the size sums over a set.
- `Start`: a configuration value of the wrong type is not modelled. Examples are a non-numeric `disk_usage_limit` or an `input_paths` that is not a list of text.
- `Start`: an empty configuration file is not modelled. `yaml.safe_load` returns `None` for it, and the test `'output_path' not in config` then raises `TypeError` (backup.py:311-312); in the model `config` is either absent, for a missing file, or a mapping.
- `Text.Lower`: lower-cases only ASCII and Latin-1 letters. Python's full Unicode case mapping is not modelled.
- `Naming.DigitRun`: `\d` is taken as the ASCII digits. Python's `re` also accepts other Unicode decimal digits.
- `Dates.ParseDate`: the digits are likewise ASCII only.
- `Naming.FinalNameRecognised`: the parse-back is proved only for the years 1000 to 9999. The model writes `%Y` as a CPython interpreter that hands it to glibc's `strftime` unpadded does (`DecimalText`), so an earlier year gives fewer than four digits and `strptime` rejects it. CPython releases that pad `%Y` to four digits themselves on Linux (python/cpython issue 120713) would write `0999` instead, which the model does not follow; for the years 1000 to 9999 both agree.
- `Crc.Crc32`: the CRC is the byte-at-a-time algorithm of the sample code in section 8 of RFC 1952. Its table entries are computed from the polynomial, not written out. zlib's own optimised code (slicing, braiding) is not modelled; the agreement rests on the catalogue check value `Crc.CheckValue`.
- `Dates.Weekday`: it is `(ordinal + 6) % 7`, as in Python's `date.weekday()`. Its anchor is the known Sunday `Dates.KnownDays`.
- Symbolic links, special files and permissions: a node is a regular file or a directory. `os.sep` is a parameter of `NormalizeInputPath`, and the other path operations are POSIX ones.
- `src/routes/types.ts` is not part of this model: it holds type declarations only.
