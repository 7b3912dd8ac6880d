# kcm-repo-toggle core, modelled in Dafny

This project models three pieces of the KDE channel-switcher settings module and its privileged helper.

- **The privileged apply helper** (`Helper::save`, `Helper::statusChanged`), in `auth_helper.dfy`. The helper takes a map from path to action code. Code 0 removes the installed file `sldDir + "/" + lastComponent(key)`. Code 2 copies `key` there. Any other code is an error. The batch stops at the first failure and nothing is rolled back. The reserved key `/refreshCache` is never a file: when it carries code 2, the helper starts a cache refresh. It then polls the refresh until it is finished and calls `cancel()` at most once.
- **The suite `.info` parser** (`SuiteInfo`), in `suite_info.dfy`. It reads python-apt template files line by line. It skips comments and lines that do not split into exactly two `:`-separated parts. It keeps a running suite and description, and after every accepted line it records `suiteHash[description] = suite`.
- **The channel check states** (`Module`), in `channels.dfy`. `populateDists` folds apt's source entries into a dist→enabled map, and the last entry for a dist wins. `load` adds one check box per release, checked iff the map says the release's dist is enabled.

`strings.dfy` models the QString operations these depend on: `split` with empty parts kept, `last()` of a split, and `trimmed()` with `QChar::isSpace`. `options.dfy` holds `Option` and `Result`.

How the source's collaborators are modelled:
- The filesystem is a map from resolved path to contents. A path is resolved by collapsing runs of `/`. With the default sources directory `/etc/apt/sources.list.d/` (src/AuthHelper.cpp:38), which ends in `/`, every target the helper builds contains `//`.
- `QFile::remove` succeeds iff the target exists.
- `QFile::copy` succeeds iff the source exists and the target does not, since Qt never overwrites.
- A set of `denied` paths makes either operation fail, standing for permission and I/O errors.
- The helper's `args` is a sequence of entries in strictly ascending key order, which is the order a `QVariantMap` enumerates its keys in.
- The cache-update transaction is a sequence of observations, one per turn of the polling loop: status, stop requested, cancellable.

Three facts about the source shape the model:
- Entries are processed in ascending key order, the order a QVariantMap enumerates them in (src/AuthHelper.cpp:39).
- The refresh runs whatever the outcome of the file batch (src/AuthHelper.cpp:75).
- Code 1 is handled like any unknown code: a helper error naming the key (src/AuthHelper.cpp:62-68).

## Model

| member | source | states |
|---|---|---|
| AuthHelper.Save | src/AuthHelper.cpp:32-95 | The files and reply are those of the batch applied in key order, and the files stay stored under resolved paths. A refresh run exists iff `args["/refreshCache"].toInt() == 2`, independent of the batch outcome, and it is a correct polling run. |
| AuthHelper.PollUpdate | src/AuthHelper.cpp:81-91 | The loop leaves only at the first FinishedStatus. It calls cancel() at most once, only on a turn with a stop request and a cancellable transaction, and no later than the first such turn, so a non-cancellable turn is retried. |
| AuthHelper.RunIsDetermined | src/AuthHelper.cpp:81-91 | The polling contract leaves no freedom: one sequence of observations admits at most one run. That a run exists follows from `PollUpdate`'s ensures. |
| AuthHelper.ApplyEntry | src/AuthHelper.cpp:43-69 | Code 0 succeeds iff the target exists and may be changed, and then only the target disappears. Code 2 succeeds iff the source exists, the target does not, and both may be changed, and then only the target gains the key's contents. A failure names the key and the target. Any other code changes nothing and is refused with the key. |
| AuthHelper.BatchConcat | src/AuthHelper.cpp:39-73 | Applying `a + b` applies `a`, then `b` only if `a` succeeded. |
| AuthHelper.StopsAtFirstFailure | src/AuthHelper.cpp:49-72 | At the first failing entry the batch ends. The files keep every earlier change (no rollback), the reply carries that entry's failure, and later entries play no part. |
| AuthHelper.FailingEntry | src/AuthHelper.cpp:39-73 | A failed batch failed at one entry: all before it succeeded, it failed with the reported failure, and the files are what the earlier entries left. |
| AuthHelper.SuccessMeansValidCodes | src/AuthHelper.cpp:34-72 | A reply that keeps its default success type means every non-reserved entry had code 0 or 2. |
| AuthHelper.RefreshKeyIgnored | src/AuthHelper.cpp:39-42 | Dropping the `/refreshCache` entry changes neither the files nor the reply. |
| AuthHelper.BatchFrame | src/AuthHelper.cpp:43-61 | A path that is not the resolved target of some file entry is unchanged, whatever the outcome. |
| AuthHelper.TargetNamesKeyFile | src/AuthHelper.cpp:43 | The target is `sldDir + "/" + name`. The name has no `/` and is the key's text after its last `/`, or the whole key. |
| AuthHelper.TargetOfTarget | src/AuthHelper.cpp:43 | A key that is already an installed path targets itself. |
| AuthHelper.TrailingSlashSameFile | src/AuthHelper.cpp:38-43 | A trailing `/` on the sources directory, as in the default, names the same file. |
| AuthHelper.StrLess | src/AuthHelper.cpp:39 | QString's ordering of keys, lexicographic by character. It serves `IsQMap`. |
| AuthHelper.IsQMap | src/AuthHelper.cpp:39 | `args.keys()` enumerates the keys in strictly ascending order, so no key occurs twice. It is `Save`'s precondition. |
| AuthHelper.Value | src/AuthHelper.cpp:45 | `args.value(key).toInt()`: the stored code, or 0 for a missing key. Defined from `Lookup`, whose ensures state what it returns. |
| AuthHelper.RefreshRequested | src/AuthHelper.cpp:75 | A refresh is requested iff the reserved key reads as code 2. `Save`'s ensures ties the refresh run to it. |
| AuthHelper.Resolve | src/AuthHelper.cpp:48-56 | The file an absolute path names. Runs of `/` collapse, so the result keeps the first character and has no `//`. See `TrailingSlashSameFile`. |
| AuthHelper.ResolveIdempotent | src/AuthHelper.cpp:48-56 | Resolving a resolved path changes nothing. |
| AuthHelper.ApplyEntryKeepsCanonical | src/AuthHelper.cpp:46-61 | A successful remove or copy leaves every file stored under its resolved path. |
| AuthHelper.BatchKeepsCanonical | src/AuthHelper.cpp:39-73 | The whole batch, whether it succeeds or fails, leaves every file stored under its resolved path. |
| AuthHelper.WithoutRefresh | src/AuthHelper.cpp:40-42 | The entries with the reserved key removed. Every other entry is kept, and nothing is added. |
| AuthHelper.TargetPath | src/AuthHelper.cpp:43 | The target lies directly inside the sources directory: the directory, a `/`, then a part without `/`. `TargetNamesKeyFile` states which part. |
| AuthHelper.ApplyBatch | src/AuthHelper.cpp:39-73 | The `for` loop over the entries, defined by recursion. Its behaviour is stated by `BatchConcat`, `StopsAtFirstFailure`, `FailingEntry`, `SuccessMeansValidCodes`, `RefreshKeyIgnored` and `BatchFrame`. `Save`'s loop is proved equal to it. |
| AuthHelper.IsRunOf | src/AuthHelper.cpp:81-91 | A declarative specification of the polling loop. `PollUpdate` is proved to produce a run that satisfies it, and `RunIsDetermined` shows at most one run does. |
| AuthHelper.Lookup | src/AuthHelper.cpp:45-75 | The lookup is absent iff no entry has the key, and otherwise returns the code stored under it. |
| AuthHelper.StatusChanged | src/AuthHelper.cpp:102-111 | A terminal payload is emitted iff the signalled status is FinishedStatus. It carries the transaction's status and status details. |
| Strings.Split | src/SuiteInfo.cpp:62-64 | A split has one part more than there are separators, and no part contains the separator. |
| Strings.JoinSplit | src/SuiteInfo.cpp:62 | Joining the parts of a split with the separator gives the text back. |
| Strings.SplitJoin | src/SuiteInfo.cpp:62 | Splitting a join of separator-free parts gives the parts back. |
| Strings.SplitOneSeparator | src/SuiteInfo.cpp:62-70 | A text with exactly one separator splits into the text before it and the text after it. |
| Strings.LastPart | src/AuthHelper.cpp:43 | `split("/").last()`. Its meaning is stated by `LastPartIsFinalSegment` and `LastPartAfterSeparator`. |
| Strings.LastPartIsFinalSegment | src/AuthHelper.cpp:43 | `split("/").last()` is the longest separator-free end of the text: the whole text, or what follows its last separator. |
| Strings.LastPartAfterSeparator | src/AuthHelper.cpp:43 | Whatever precedes the last separator does not change the last part. |
| Strings.IsSpace | src/SuiteInfo.cpp:70 | QChar::isSpace, the whitespace `trimmed()` removes: tab to carriage return, space, U+0085, U+00A0 and the Unicode space separators. |
| Strings.TrimStart | src/SuiteInfo.cpp:70 | The result is a suffix, all dropped characters are whitespace, and it does not start with whitespace. |
| Strings.TrimEnd | src/SuiteInfo.cpp:70 | The result is a prefix, all dropped characters are whitespace, and it does not end with whitespace. |
| Strings.Trim | src/SuiteInfo.cpp:70 | The trimmed value neither starts nor ends with whitespace. A text without whitespace is kept, and an all-whitespace text becomes empty. |
| Strings.TrimIsInfix | src/SuiteInfo.cpp:70 | The trimmed value is a contiguous piece of the text with only whitespace around it. |
| Suites.Accept | src/SuiteInfo.cpp:57-70 | A line is accepted iff it does not start with `#` and has exactly one `:`. The key is the untrimmed text before the `:`, and the value is the trimmed text after it. |
| Suites.Step | src/SuiteInfo.cpp:57-78 | One turn of `readFile`'s loop. Its effect is stated by `StepOnSuiteLine`, `StepOnDescriptionLine` and `StepOnOtherLine` for accepted lines, and by `IgnoredLineChangesNothing` for rejected ones. |
| Suites.Parse | src/SuiteInfo.cpp:54-79 | The loop over a file's lines. `ParseConcat`, `ParseTracksLastValues`, `ParseRecordsCurrentPair`, `ParseNeverShrinks` and `NoAcceptedLineNoChange` state its behaviour. |
| Suites.ParseFile | src/SuiteInfo.cpp:45-80 | `readFile`'s effect on the table: the suite and description start empty. `SuiteInfo.ReadFile` is proved equal to it, and `FileRecordsLastPair` states its result. |
| Suites.ParseFiles | src/SuiteInfo.cpp:40-42 | Every listed file read in turn. `SuiteInfo.constructor` is proved equal to it, and `ParseFilesNeverShrinks` states that it keeps every description. |
| Suites.IgnoredLineChangesNothing | src/SuiteInfo.cpp:57-67 | Removing a comment line, or a line without exactly two parts, changes neither suite, description nor table. |
| Suites.NoAcceptedLineNoChange | src/SuiteInfo.cpp:54-79 | A file with no accepted line leaves the whole state as it was. |
| Suites.ParseConcat | src/SuiteInfo.cpp:54-79 | Parsing `a + b` is parsing `b` from the state `a` left. |
| Suites.ParseTracksLastValues | src/SuiteInfo.cpp:69-77 | The running suite and description are the values of the last lines whose key is exactly `Suite` and exactly `Description`. |
| Suites.ParseRecordsCurrentPair | src/SuiteInfo.cpp:78 | After any accepted line the table maps the current description to the current suite. |
| Suites.FileRecordsLastPair | src/SuiteInfo.cpp:47-78 | A file with an accepted line leaves its last description mapped to its last suite. Each starts empty for every file. |
| Suites.ParseNeverShrinks | src/SuiteInfo.cpp:78 | Reading a file never removes a description from the table. |
| Suites.ParseFilesNeverShrinks | src/SuiteInfo.cpp:40-78 | Reading several files never removes a description from the table. |
| Suites.LaterSuiteRemapsDescription | src/SuiteInfo.cpp:71-78 | After "Suite: a", "Description: A", "Suite: b", the description A maps to b: a later line overwrites an earlier one. |
| Suites.StepOnSuiteLine | src/SuiteInfo.cpp:71-78 | A `Suite` line sets the suite and maps the current description to it. |
| Suites.StepOnOtherLine | src/SuiteInfo.cpp:69-78 | An accepted line with any other key, such as `Component`, keeps the suite and description and still records the current description under the current suite. |
| Suites.StepOnDescriptionLine | src/SuiteInfo.cpp:75-78 | A `Description` line sets the description and maps it to the current suite. |
| Suites.SuiteInfo.ReadFile | src/SuiteInfo.cpp:45-80 | The loop leaves the table that parsing the file's lines from an empty suite and description gives. |
| Suites.SuiteInfo.constructor | src/SuiteInfo.cpp:28-43 | A missing template directory leaves the table empty. Otherwise every listed file is read in turn. |
| Channels.RecordDists | src/Module.cpp:72-78 | `populateDists`' fold over apt's entries. `LastEntryWins` and `UnlistedDistUnchanged` state its result, and `Module.PopulateDists` is proved equal to it. |
| Channels.WithDefaults | src/Module.cpp:100 | What reading the non-const `m_distMap[dist]` inserts. `DefaultsKeepCheckState` states that it adds only unknown dists, as `false`. `Module.Load` is proved equal to it. |
| Channels.LastEntryWins | src/Module.cpp:72-78 | After the fold, a dist maps to the enabled flag of the last entry that names it. |
| Channels.UnlistedDistUnchanged | src/Module.cpp:72-78 | A dist that no entry names keeps what the map had for it. |
| Channels.Boxes | src/Module.cpp:95-107 | There is one box per release, in order. Each is labelled with the release's description, checked iff its dist is in the map and true, and carries the release map's base URI and repos. |
| Channels.DefaultsKeepCheckState | src/Module.cpp:100 | Reading `m_distMap[dist]` inserts `false` only for unknown dists, so no dist's check state changes. |
| Channels.BoxFollowsLastEntry | src/Module.cpp:72-101 | A release's box is checked iff the last source entry for its dist is enabled. With no such entry it is unchecked. |
| Channels.Module.constructor | src/Module.cpp:59-60 | The map is the fold of apt's entries, and no box exists yet. |
| Channels.Module.PopulateDists | src/Module.cpp:72-78 | The loop leaves the fold of the entries over the old map. |
| Channels.Module.Load | src/Module.cpp:80-108 | The layout gains the boxes for the releases, checked according to the map before the call. The map gains `false` for unknown dists. |
| Channels.Module.ToggleChannel | src/Module.cpp:110-117 | Changes no state. |
| Channels.Module.Save | src/Module.cpp:119-121 | Changes no state. |
| Channels.Module.Defaults | src/Module.cpp:123-125 | Changes no state. |

## Left out

- The apt backend's initialisation and configuration lookup are not modelled. The sources directory is an input (`Host.sldDir`).
- The real filesystem is not modelled. Files are a map from resolved path to contents. Resolution only collapses repeated `/`. It does not follow `.`, `..` or symbolic links, and it does not resolve a relative key against the helper's working directory: `testing.list` and `/cwd/testing.list` are different files in the model. The input file map must hold resolved paths only (`Canonical`). Permission and I/O failures are the input set `denied`.
- Argument values are taken as integers already converted by `toInt()`. A value that does not convert reads as 0 in the source, and the model does not represent such values.
- `QString::arg` substitution is modelled as plain concatenation. A sources directory that itself contained `%` followed by a digit would be substituted into in the source.
- `StrLess` orders strings by Unicode scalar value. QString orders them by UTF-16 code unit, which differs only for characters beyond U+FFFF.
- The update transaction is not modelled: its signal/slot wiring, `processEvents`, progress forwarding (`Helper::updatePercentage`) and `HelperSupport` calls. The model keeps only the poll/cancel state machine. The source loops until the transaction finishes. When the observations run out first, the model reports the run as not finished.
- The localised error texts and the `qWarning`/`qDebug` logging are not modelled. A failure carries the key and the target (or the code), which are what the texts name.
- `KAUTH_HELPER_MAIN` and KAuth's authorisation are process plumbing and are not modelled.
- The template directory listing (the `*.info` name filter, sorting, files only) is done by QDir and is an input. So is splitting a file into lines: each line is given as `readLine` returns it. Text-mode line-end conversion and decoding are not modelled, and a file that cannot be opened is not modelled.
- JSON reading and decoding, `OSRelease`, and QVariant defaults (a missing `Description` reads as empty) are not modelled. The decoded release map is the input to `Load`.
- `Module`'s widgets, about data, button masks and signal connections are not modelled. The dynamic properties on a check box are fields of `CheckBox`. `ToggleChannel`'s only effect is to log those properties, and that is not modelled.
- `Module.h` is not part of this model. `m_distMap` is taken to be a Qt hash or map, whose non-const `operator[]` inserts a default `false`.
