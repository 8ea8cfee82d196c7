# Traveller Map snapshot script, modelled in Dafny

This project models the logic of the Traveller Map snapshot script. The
script downloads the sector index of every milieu from travellermap.com. It
renames sectors whose names collide when case is ignored. It downloads each
sector's data and metadata, strips the server's timestamp from the data,
cross-checks and patches the metadata, and runs a sanity check on the result
before it is committed. The model also covers the script's downloader: a
download counter and two retry loops with exponential back-off.

The network, the clock and the file system are not part of the model.
Attempt outcomes are a function from the attempt number to the outcome. The
requested sleeps are kept in a ghost log. The snapshot directory is a tree
given as a value.

Modules, one per file:

- `Wrappers` (wrappers.dfy): `Option`, `Result` and `Outcome`. These stand
  in for `None` returns and raised exceptions.
- `Strings` (strings.dfy): the Python built-ins the script relies on.
  - `str.lower` on ASCII;
  - `str(int)` and `int(str)`;
  - `str.split(sep)`;
  - `str.splitlines()`, with all of Python's line boundaries.
- `FileNames` (file_names.dfy): `_encodeFileName`, with the percent decoding
  that inverts it.
- `SectorTimestamp` (sector_timestamp.dfy): `_removeTimestampFromSector` and
  the timestamp line pattern.
- `NameCollisions` (name_collisions.dfy): grouping sectors by lower-cased
  first name, then renaming the colliding ones. `GroupByName` is the first
  loop. `ResolveCollisions` runs the loop over the groups, and
  `ResolveGroup` handles one group. Each loop is proved against a
  specification: `KeyIndices`, `KeyOrder` and `Groups` for the grouping,
  and `ResolvedSector` and `IsNameMapping` for the result.
- `Metadata` (metadata.dfy): the metadata name and position checks, and the
  insertion of the new Name element.
- `SanityCheck` (sanity_check.dfy): the gate run before the snapshot is
  committed.
- `Download` (downloader.dfy): class `Downloader`, with its `downloadCount`
  field and its `sleeps` ghost log.
  - `DownloadToFile` and `DownloadToBuffer` are its retry loops.
  - `LastAttempt` is their specification: the number of the attempt at
    which the loop stops.

## Model

| member | source | states |
|---|---|---|
| Strings.Lower | scripts/map_update.py:132 | `.lower()` keeps the length of the name |
| Strings.LowerEach | scripts/map_update.py:132 | `.lower()` lower-cases each character on its own, whatever surrounds it |
| Strings.IntToString | scripts/map_update.py:172 | `str()` of an integer is a non-empty run of digits and '-' |
| Strings.ParseIntNeedsDigit | scripts/map_update.py:269-274 | `int()` succeeds only on text holding at least one decimal digit |
| Strings.TrimPadded | scripts/map_update.py:269-274 | the trimming in `int()` drops a space on each side of a number that neither starts nor ends with white space |
| Strings.ParseIntExamples | scripts/map_update.py:269-274 | `int(" 12 ")` is 12, `int("-3")` is -3 and `int("+7")` is 7: surrounding white space and a sign are accepted |
| Strings.ParseIntRefusals | scripts/map_update.py:269-274 | `int()` raises on "1a", on "", on a bare "-" and on " " |
| Strings.Split | scripts/map_update.py:153 | `split(' ')` never returns an empty list, and text without a space is a single piece |
| Strings.SplitAfterWord | scripts/map_update.py:153-154 | a word followed by a space is the first piece of the split, and the rest splits on its own |
| Strings.ParseIntToString | scripts/map_update.py:168-172 | `int(str(i)) == i` for every integer: the position printed into a new name reads back as the same integer |
| Strings.IntToStringInjective | scripts/map_update.py:172 | different integers print differently |
| Strings.SplitJoin | scripts/map_update.py:152-154 | the pieces of `tags.split(' ')` hold no space and join back to the tags |
| Strings.SplitLines | scripts/map_update.py:65 | no line that `splitlines()` yields holds a line boundary |
| Strings.LowerAppend | scripts/map_update.py:132 | lower-casing distributes over concatenation |
| Strings.LowerOfLower | scripts/map_update.py:174 | a string without upper-case letters is its own lower case |
| FileNames.EncodedCharactersComposition | scripts/map_update.py:33-43 | the escaped set is '%' plus the Windows, Linux and macOS illegal characters |
| FileNames.EncodeFileName | scripts/map_update.py:51-58 | the loop builds exactly the escaped name `Escaped(rawFileName)` |
| FileNames.EscapeOfEncoded | scripts/map_update.py:56 | an escaped character is ASCII at or above 0x10, so its escape is '%' and exactly two lower-case hex digits |
| FileNames.EscapeCharExamples | scripts/map_update.py:56 | ':' becomes "%3a", '%' becomes "%25", '/' becomes "%2f", and 'a' stays "a" |
| FileNames.EscapedIdentity | scripts/map_update.py:53-58 | a name with no escaped character is returned unchanged |
| FileNames.RhylanorUnchanged | scripts/map_update.py:53-58 | "Rhylanor" is its own file name |
| FileNames.EscapedLength | scripts/map_update.py:56 | the escaped length is the name's length plus two per escaped character |
| FileNames.EscapedIsSafe | scripts/map_update.py:37-43 | the escaped name holds no escaped character other than '%' |
| FileNames.DecodeEscaped | scripts/map_update.py:37-43 | decoding every "%hh" gives back the original name |
| FileNames.EscapedInjective | scripts/map_update.py:51-58 | two different names never share a file name |
| SectorTimestamp.RemoveTimestampFromSector | scripts/map_update.py:62-73 | returns nothing exactly when the number of timestamp lines is not 1; otherwise returns the other lines in order, each followed by '\n' |
| SectorTimestamp.TimestampLineLength | scripts/map_update.py:28 | a line matching the timestamp pattern is at least 26 characters long: the '#' and the 25-character timestamp |
| SectorTimestamp.TimestampLineExamples | scripts/map_update.py:28 | "# 2023-01-01T00:00:00+00:00" matches the pattern and "# 2023-01-01T00:00:00Z" does not: the UTC offset must be numeric |
| SectorTimestamp.OnlyTheTimestampIsDropped | scripts/map_update.py:63-73 | with one timestamp line, the kept lines are all the lines except that one, in order |
| SectorTimestamp.NoTimestampsKept | scripts/map_update.py:66-67 | with no timestamp line, every line is kept |
| SectorTimestamp.WithoutTimestampsAppend | scripts/map_update.py:65-69 | counting and dropping timestamp lines distribute over concatenated line lists |
| SectorTimestamp.TerminatedAppend | scripts/map_update.py:67 | the text of concatenated line lists is the concatenation of their texts |
| SectorTimestamp.SplitTerminated | scripts/map_update.py:65-67 | '\n'-terminated lines without line boundaries, followed by any text, split back into those lines followed by that text's lines |
| SectorTimestamp.SplitTerminatedAll | scripts/map_update.py:65-67 | the stripped output splits back into exactly the kept lines |
| SectorTimestamp.StripsOnlyTheTimestampLine | scripts/map_update.py:62-73 | on text made of '\n'-terminated lines with one timestamp line, exactly that line and its '\n' are removed |
| NameCollisions.KeyIndices | scripts/map_update.py:130-137 | a group holds every index whose sector has the key, and only such indices |
| NameCollisions.KeyIndicesIncreasing | scripts/map_update.py:130-137 | a group lists its sectors in index order |
| NameCollisions.GroupByName | scripts/map_update.py:126-137 | fails exactly when some sector has no name, reporting the first such sector; otherwise the keys appear once each, in order of first appearance, and each key's group is complete |
| NameCollisions.KeyOrderKeys | scripts/map_update.py:133-136 | the dict's keys are exactly the keys of the sectors seen so far |
| NameCollisions.KeyOrderDistinct | scripts/map_update.py:133-136 | no key is inserted twice |
| NameCollisions.NewKeyGroups | scripts/map_update.py:133-137 | a sector with a new key opens a group holding only itself, at the end of the key order |
| NameCollisions.OldKeyGroups | scripts/map_update.py:133-137 | a sector with a known key is appended to that key's group, and nothing else changes |
| NameCollisions.GroupingComplete | scripts/map_update.py:130-137 | after the loop, the dict holds a key exactly when some sector has it |
| NameCollisions.IsOfficial | scripts/map_update.py:152-154 | a sector without tags is never official |
| NameCollisions.OfficialTagExamples | scripts/map_update.py:152-154 | tags "OTU" and "Faraway OTU" make a sector official; "OTU2", "otu" and no tags do not |
| NameCollisions.Officials | scripts/map_update.py:151-155 | the official list holds exactly the group members tagged "OTU" |
| NameCollisions.OfficialsIncreasing | scripts/map_update.py:151-155 | the official list keeps the group's order |
| NameCollisions.FindOfficials | scripts/map_update.py:151-155 | the loop builds exactly the official list |
| NameCollisions.ResolveGroup | scripts/map_update.py:157-186 | renames the group's members or fails on a clashing new name; on success every member is resolved as specified and the mapping grows accordingly |
| NameCollisions.ResolveCollisions | scripts/map_update.py:126-186 | fails on a sector with no name, or exactly when some renamed sector's new name clashes; otherwise every sector is `ResolvedSector` and the mapping records exactly the renamed sectors |
| NameCollisions.SingletonGroup | scripts/map_update.py:141-142 | a sector alone in its group collides with nobody and keeps its names |
| NameCollisions.InGroupCollides | scripts/map_update.py:141 | every member of a group of two or more collides |
| NameCollisions.GroupMember | scripts/map_update.py:157-164 | a member of a group of two or more is renamed exactly when it is not the only entry of the official list |
| NameCollisions.SoleOfficialListed | scripts/map_update.py:151-164 | the one official sector of its group is the only entry of the official list |
| NameCollisions.ListedSoleOfficial | scripts/map_update.py:151-164 | the only entry of a one-entry official list is the sole official sector of its group |
| NameCollisions.NoOfficialAllRenamed | scripts/map_update.py:157-172 | in a colliding group with no official sector, every member is renamed to `[disambiguated] + old names` |
| NameCollisions.TwoOfficialsAllRenamed | scripts/map_update.py:157-172 | in a group with two or more official sectors, every member is renamed |
| NameCollisions.ProgressSkip | scripts/map_update.py:141-142 | skipping a sector that is not renamed keeps the loop state |
| NameCollisions.ProgressRename | scripts/map_update.py:166-186 | renaming a sector whose new name does not clash keeps the loop state, with the new name in front and the mapping extended |
| NameCollisions.ProgressDone | scripts/map_update.py:139-186 | once every sector is handled, the listing and the mapping are the specified ones |
| NameCollisions.KeyOrderDone | scripts/map_update.py:140 | the loop over the dict's items handles every sector |
| NameCollisions.PositionSuffixInjective | scripts/map_update.py:172 | a disambiguated name determines the name and the position |
| NameCollisions.DisambiguatedInjective | scripts/map_update.py:172 | two sectors with the same disambiguated name share their first name and their position |
| NameCollisions.SuffixHasNoUpperCase | scripts/map_update.py:172-174 | lower-casing leaves the " (X, Y)" suffix unchanged |
| NameCollisions.LowerDisambiguated | scripts/map_update.py:172-174 | a lower-cased new name is the sector's key followed by the suffix |
| NameCollisions.ResolvedKeysDistinct | scripts/map_update.py:120-124 | after a successful resolution, sectors at different positions have different first names, even ignoring case |
| NameCollisions.MappingLookup | scripts/map_update.py:185-186 | looking up a resolved first name in the mapping finds the old first name exactly for the renamed sectors |
| NameCollisions.UnmappedName | scripts/map_update.py:186 | the first name of a sector that keeps its name is not a key of the mapping |
| NameCollisions.SoleOfficialExample | scripts/map_update.py:151-186 | two "Unnamed" sectors at (0, 0) tagged "OTU" and at (0, 1): the first keeps its name, the second becomes "Unnamed (0, 1)" with "Unnamed" as first alternate, and the mapping is `{"Unnamed (0, 1)": "Unnamed"}` |
| NameCollisions.NoOfficialExample | scripts/map_update.py:157-186 | two untagged "Foo" sectors at (1, 1) and (2, 2) both lose the bare name, becoming "Foo (1, 1)" and "Foo (2, 2)", and both renames are mapped to "Foo" |
| Metadata.FirstIndex | scripts/map_update.py:237 | the position of the first child with the tag, or none exactly when no child has it |
| Metadata.Matching | scripts/map_update.py:237 | `findall` yields every child with the tag, and only those |
| Metadata.MatchingIncreasing | scripts/map_update.py:237 | `findall` yields the matches in document order |
| Metadata.MatchingFirst | scripts/map_update.py:237-238 | `findall` yields something exactly when a first match exists, and its first entry is that match |
| Metadata.FindAll | scripts/map_update.py:237 | the loop builds exactly the list of matches |
| Metadata.InsertAt | scripts/map_update.py:263 | `insert(k, e)` puts `e` at `k` and shifts the later children by one |
| Metadata.PatchMetadata | scripts/map_update.py:237-275 | the checks and the insertion, in the source's order, yield the specified `Patch` result |
| Metadata.FirstIndexInsert | scripts/map_update.py:263-275 | inserting a Name element leaves the first X and the first Y element unchanged |
| Metadata.CheckPositionInsert | scripts/map_update.py:263-275 | the position check gives the same verdict before and after the insertion |
| Metadata.CheckPositionMeaning | scripts/map_update.py:265-275 | the position check passes exactly when the first X and the first Y are present and parse to the listing's X and Y, and it changes nothing |
| Metadata.PatchSucceeds | scripts/map_update.py:237-275 | the step succeeds exactly when a first Name exists and holds the expected name, and the position matches |
| Metadata.PatchResult | scripts/map_update.py:255-263 | a renamed sector gets a new first Name holding its new name, with the old first Name's tail, just before the old first Name; any other document is unchanged |
| Metadata.PatchSettles | scripts/map_update.py:240-263 | the patched document passes the check again as a sector that was not renamed, and stays unchanged |
| SanityCheck.Lookup | scripts/map_update.py:295 | finds an entry with the name, or none exactly when no entry has it |
| SanityCheck.MilieuListing | scripts/map_update.py:295-296 | a listing found is that of directory `milieu/<milieu>` under the base directory |
| SanityCheck.PlainFiles | scripts/map_update.py:296 | the plain files are exactly the file entries of the listing |
| SanityCheck.FilesHere | scripts/map_update.py:301-303 | the walk reports every file of a directory under its joined path |
| SanityCheck.CheckSnapshot | scripts/map_update.py:293-308 | passes exactly when every milieu directory exists with at least 3 plain files and no walked file is empty; each failure names its cause |
| SanityCheck.WalkCoversSubdirectory | scripts/map_update.py:301 | the walk of a directory meets every file of its subdirectories |
| SanityCheck.GateMeaning | scripts/map_update.py:294-308 | after a pass, every milieu directory holds at least 3 plain files and none of them is empty |
| Download.RetriedExamples | scripts/downloader.py:56-62 | a 503 is retried with budget 1 but not with budget 0; a 404, a 501, a cancellation and a failed read are never retried |
| Download.LastAttempt | scripts/downloader.py:44-65 | the loop stops at the first attempt that is not retried; every earlier attempt was retried, and at most `retryCount + 1` attempts are made |
| Download.LastAttemptIs | scripts/downloader.py:44-65 | a run of retried attempts followed by one that is not fixes the last attempt |
| Download.BackoffStep | scripts/downloader.py:59-61 | each retry sleeps twice as long as the one before and joins the log |
| Download.BackoffDoubles | scripts/downloader.py:61 | every delay in the log is twice the one before |
| Download.TotalBackoff | scripts/downloader.py:43-61 | `n` retries sleep `5 * (2^n - 1)` seconds in all |
| Download.Downloader.constructor | scripts/downloader.py:25-26 | the count starts at 0 and nothing has been slept |
| Download.Downloader.DownloadCount | scripts/downloader.py:28-29 | returns the count |
| Download.Downloader.DownloadToFile | scripts/downloader.py:31-65 | the result is that of the last attempt; the count grows by one exactly when that attempt completed; the sleeps are the back-off delays of the retries made |
| Download.Downloader.DownloadToBuffer | scripts/downloader.py:67-89 | as `DownloadToFile`, returning the data of the completed attempt; the count also grows by one when the response was opened and reading it failed, since the count is taken before `read()` |
| Download.NotRetryableRaisedAtOnce | scripts/downloader.py:54-65 | an HTTP error whose code is not on the list is raised at the first attempt, whatever the budget |
| Download.ExhaustedRetries | scripts/downloader.py:56-65 | when every attempt fails with a listed code, `retryCount` retries are made and the error of the last attempt is raised |
| Download.CompletedAfterRetries | scripts/downloader.py:46-51 | after listed HTTP errors within the budget, a completed attempt decides the result and its data is returned |
| Download.OtherErrorRaisedAtOnce | scripts/downloader.py:52-54 | any other error stops the loop and is raised without a retry |
| Download.ReadFailureRaisedCounted | scripts/downloader.py:73-78 | a failed read of an opened response is raised without a retry; the download to memory has counted it, the download to a file has not |
| Download.DefaultBudget | scripts/downloader.py:67-89 | with the default budget of 3, at most four attempts are made and at most 35 seconds are slept |
| Download.CancelledEndsQuietly | scripts/downloader.py:52-53 | a cancelled file download returns normally, with no retry and no count |

## Left out

- Network access (`urlretrieve`, `urlopen`) is left out. Attempt `k`'s outcome is `attempts(k)`.
- Python's default arguments are not modelled. `retryCount` is a parameter of both downloads, and `DefaultRetryCount` (3) is the default that every caller in the script relies on.
- URL building is left out.
- `time.sleep` is left out. The delays are appended to the ghost log `sleeps`.
- Logging and `datetime` are left out.
- The outer flow of `_downloadMapData` is left out: the order of downloads, `shutil.rmtree`, `os.makedirs` and file writes, and the timestamp and data-format files. It only wires the modelled steps together.
- JSON parsing and serialisation are left out. A sector is a record with its names, X, Y and optional tags.
- The 'Sectors' key check is left out, and so are the `int()` conversions of `X` and `Y`.
- Only the direct children of the metadata's root element are modelled, as tag, text and tail. Attributes, grandchildren and serialisation are left out.
- `list(metadataXml).index(names[0])` finds an element by identity. The model uses the position that `findall` reports, which is the same child.
- `_bytesToString` and its byte-order-mark handling are left out: texts are strings.
- The progress callback of `downloadToFile` is a `Cancelled` attempt outcome. With no callback, the attempt function never yields it.
- Download.Downloader.DownloadToBuffer: in the source a cancellation cannot reach this method, since it installs no callback. The model still gives the `Cancelled` outcome a result, the `Aborted` error.
- Strings.Lower: only lower-cases ASCII letters, whereas Python's `str.lower` also folds other letters.
- SectorTimestamp.IsTimestampLine: `\s` matches only the six ASCII white-space characters and `\d` only '0'-'9', whereas Python also matches other white space (such as 0x1f and 0xa0) and other Unicode digits.
- Strings.ParseInt: accepts only ASCII digits and strips only the six ASCII white-space characters, whereas Python's `int()` also accepts non-ASCII digits, `_` separators and non-ASCII white space (`int('\xa05')` is 5). It only parses the X and Y texts of the metadata.
- `sectorInfo in officialSectors` compares dicts by value. The model compares sector positions in the listing. When the official list has one entry, a sector equal to it is also tagged "OTU", so it is that entry.
- NameCollisions.ResolveCollisions: on a `NameInUse` failure, states that some renamed sector's new name clashes, not that it is the first one in group order.
- NameCollisions.ResolveGroup: the same as `ResolveCollisions`: on failure, some clashing member, not necessarily the first.
- NameCollisions.IsNameMapping: when two renamed sectors share a new name (same first name and same position), the dict keeps the last entry. The model states only that every key comes from some renamed sector.
- The sanity check's `os.stat` failure branch is left out: a stat that succeeds is never false, and one that fails raises. Symbolic links are left out too. The directory tree holds files with sizes and directories with entries.

