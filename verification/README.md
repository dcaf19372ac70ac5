# A verified model of nvscope's filters

nvscope is an `LD_PRELOAD` shim that shows NVIDIA userspace only the GPUs mounted into a container.
It has to give the same answer through several channels: paths under `/proc/driver/nvidia/gpus`,
directory listings of it, card-info replies, and resource-manager (RM) replies with gpu ids. This
project models those filters in Dafny and proves what each does and where the channels agree.

| module | models |
|---|---|
| `DirentRecords`, `DirentWalk`, `Dirents` | records, the filter's loop as a function of the bytes, and the in-place filter over getdents64 records, with the length field read again after each move |
| `DirentLaws`, `KernelListings`, `KernelOverruns` | when that filter is exact, what it does when it is not, and both answers for listings laid out as the kernel does |
| `RmReplies`, `LearnedIds`, `ReplyLaws` | the learned gpu-id table, card hiding, attached-id and active-device rewriting, whole runs of replies |
| `Interleaving` | the same calls from many threads, step by step around the lock |
| `RelativePaths`, `ProcPaths`, `OpenatPaths` | the bounded-buffer path normaliser, information paths, and the decision to deny |
| `Decimal`, `InfoParser`, `InfoLaws`, `Topology` | decimal parsing, the information-file parser, the allow-list |
| `FdMap`, `Descriptors`, `FdRaces` | the path classifier, the 4096-slot table, runs of open, openat and close, and such calls from many threads |
| `Shim`, `Listing`, `Channels` | the wrapped calls over the shim's state, getdents64 against readdir, and agreement of the channels |
| `Sequences`, `CStrings` | shared vocabulary |

Conventions. A C string is the Dafny string of the bytes before its NUL; a pointer that may be NULL
is an `Option` or a nullable reference. A pointer with a count is a sequence, and NULL is the empty
one where the source treats both alike. `Octet` is one byte; lengths in directory records are little
endian. Answers of the kernel and of the C library (descriptors, directory bytes, driver replies,
what topology detection collected) are parameters.

Source code that runs loops over buffers, arrays and tables is modelled by methods on arrays and
classes, each proved against a specification function; the laws are then lemmas about those
functions.

Results worth knowing before changing the code:

- `nvfix_filter_dirent64_buffer` reads `d_reclen` again from the old place of a record it has just
  moved. Its read offsets are those of the original records if and only if every kept record's field
  survives its own move (`AllSurvive`), and then the result is the kept records packed together
  (`FilteringTheorem`). Surviving is not needed for that outcome: a field misread as 0 before a
  malformed tail does no harm (`MisreadZeroIsHarmless`).
- Once a length is misread, the returned length can exceed the buffer: it does exactly if the last
  turn keeps a record and then reads a length beyond the bytes left to write (`OverrunExact`).
- For listings laid out as the kernel does, the filter leaves the right bytes and result for every
  listing if and only if every allowed bus name has at most 20 characters, or has 22 and ends in '0'
  (`KernelListingsExact`). Under the same condition no result exceeds its listing
  (`KernelListingsFit`). With any other name, except one of 22 characters that ends below '0', some
  listing gets a result beyond its length; two entries in 72 or 80 bytes are enough for names of 21
  and of 23 to 31 characters (`OverrunOfTwo`). PCI bus names such as `0000:01:00.0` have 12 characters.
- A chunk of which nothing is kept makes getdents64 answer 0, so a reader stops there. Where no length is misread, the two
  listings are equal exactly when no chunk with a shown entry follows one without, and
  `ListingsDiffer` gives two chunks for which readdir shows a bus that getdents64 never delivers.
- An RM reply in which no id has been learned passes through unchanged, so it may show ids of other
  GPUs: `AttachedViewSound` and `ActiveViewSound` say exactly when, and `UnlearnedIdShows` and
  `UnlearnedDeviceShows` give the inputs.
- `docs/technical-notes.md` says that rewritten arrays have their remaining entries invalidated. The
  code does this for attached ids only; entries of an active-devices reply beyond the new count keep
  their old contents, and the model follows the code.
- In a tree without links, a path ending in a slash or `/.` that names a file does not resolve, but its normal form does
  (`TrailingSlashLost`); this is the only change of meaning the normaliser makes.
- If a descriptor is closed behind the shim's back and its number is reused for an unclassified
  path, the table keeps the old record (`HiddenCloseGoesStale`); `ExactIffNothingStale` says exactly
  which runs leave such records.
- `close` closes in the kernel and only then empties the slot. If the number is handed out again in
  between, the late removal erases the new record, and a gpus directory opened that way is listed
  unfiltered (`LateRemoveShowsAll`). `RightIffLastAgree` and `StaysRightExact` say when a slot is right;
  it always is, between calls, if no number is reused while a call about it is under way
  (`PatientRunsAreRight`).

## Model

| member | source | states |
|---|---|---|
| Dirents.FilterDirent64Buffer | src/proc_filter.c:545-586 | for every buffer the loop ends, and result and bytes are those of the walk; if every kept record's length field survives its move they are the compaction, with a result of at most len; the result exceeds len, by less than 65536, exactly if the last turn overreads |
| Dirents.TakeEntry | src/proc_filter.c:566-582 | one turn behind the validity checks is the walk's turn, with the length read again from the bytes after the move |
| Dirents.EntryIsKept | src/proc_filter.c:571-573 | an entry is kept iff it is named ".", ".." or, non-empty, as a GPU of a valid list |
| Dirents.Memmove | src/proc_filter.c:576-578 | an overlapping move left of one record, all other bytes unchanged |
| DirentRecords.ParseSound | src/proc_filter.c:532-543 | reading records off a buffer loses no byte and stops at the first malformed record |
| DirentRecords.ParseFlatten | src/proc_filter.c:532-543 | concatenated well-formed records parse back to themselves |
| DirentRecords.RecordExact | src/proc_filter.c:532-543 | bytes start with a record iff its little-endian length at 16 is at least 19 and inside the bytes and a NUL ends its name from 19 on |
| DirentWalk.BytesAfterMove | src/proc_filter.c:575-582 | the whole buffer after a kept record moved, and the value the second read of its length field yields |
| DirentWalk.TurnProgress | src/proc_filter.c:562-583 | every turn moves on, or leaves an unusable length at the read offset, so the loop ends on all bytes |
| DirentWalk.FilteringTheorem | src/proc_filter.c:545-586 | the read offsets are those of the original records iff every kept record's length field survives its move, and then the result is the kept records packed in front with every later byte original, or the full length if a record is malformed |
| DirentWalk.OverrunExact | src/proc_filter.c:579-585 | the result exceeds the length iff the last turn keeps a record and reads a length beyond the bytes left to write |
| DirentLaws.FarMovesSurvive | src/proc_filter.c:575-582 | it is enough that each kept record is in place or at most 16 bytes longer than what was dropped before it |
| DirentLaws.SmallRecordsSurvive | src/proc_filter.c:575-582 | records of at most 36 bytes, or 8-aligned ones of at most 40, never lose their length field |
| DirentLaws.BoundIsExact | src/proc_filter.c:575-582 | all records of a length survive a gap iff the length is at most gap + 16 |
| DirentLaws.DropThenKeep | src/proc_filter.c:562-585 | behind one dropped and one kept record the filter goes on from the length that the move left in the field's old place |
| DirentLaws.MisreadZeroIsHarmless | src/proc_filter.c:566-585 | a field misread as 0 before a malformed tail still gives the compaction, so surviving is sufficient and not necessary for it |
| KernelListings.KernelListingsExact | src/proc_filter.c:545-586 | for an allow-list, every listing padded as the kernel does leaves the kept records in front, the later bytes as they were and their length as result, iff every allowed bus has at most 20 characters, or 22 and a final '0' |
| KernelListings.KernelListingsSurvive | src/proc_filter.c:575-582 | the same condition decides whether every kept record's length field survives in every such listing |
| KernelListings.AfterTwentyTwo | src/proc_filter.c:562-585 | behind a hidden entry, a bus of 22 characters that does not end in '0' never gets its own length as result |
| KernelOverruns.KernelListingsFit | src/proc_filter.c:575-585 | if every allowed bus is safe no kernel-padded listing gets a result beyond its length; if one is unsafe, other than with 22 characters ending below '0', some listing does |
| KernelOverruns.OverrunOfTwo | src/proc_filter.c:575-585 | for every allowed bus of 21 or of 23 to 31 characters, or of 22 ending above 'H', two kernel-padded entries of 72 or 80 bytes get a result read from the name, or 256, beyond their length |
| KernelOverruns.OverrunOfMany | src/proc_filter.c:562-585 | for 22 characters ending in '1' to 'H', a listing of seven entries does, through bytes of entries that pass for other entries |
| DirentLaws.CompactParses | src/proc_filter.c:575-585 | the result parses to exactly the kept records, in order and byte for byte |
| DirentLaws.SecondPassIsIdentity | src/proc_filter.c:545-586 | filtering a successful result again changes nothing |
| DirentLaws.NothingDropped | src/proc_filter.c:562-569 | if nothing is dropped before the end or the first malformed record, the buffer and length are unchanged |
| LearnedIds.IoctlFilter.RememberLocked | src/ioctl_filter.c:44-53 | the table gains the id at its end unless it is invalid, known, or the table is full |
| LearnedIds.IoctlFilter.RecordCardInfo | src/ioctl_filter.c:55-71 | after any history of card-info replies the table is the first 32 distinct ids they offered |
| LearnedIds.IoctlFilter.FilterCardInfo | src/ioctl_filter.c:73-87 | exactly the valid cards with other minors lose their valid mark |
| LearnedIds.IoctlFilter.ScanIdsLocked | src/ioctl_filter.c:118-130 | the scan keeps the known ids before the first invalid one, at most 32, in order |
| LearnedIds.IoctlFilter.FilterGpuIdArray | src/ioctl_filter.c:103-142 | the array is rewritten to the kept ids and padding, or unchanged if there are none; nothing beyond count changes |
| LearnedIds.IoctlFilter.FilterActiveDevices | src/ioctl_filter.c:144-182 | count and array become the kept devices followed by the old later entries, or stay |
| LearnedIds.IoctlFilter.FilterRmControl | src/ioctl_filter.c:89-101 | an RM reply is rewritten iff the flag is set, the list valid, result and status 0, and it is command 0x201 with at least 128 bytes or 0x288 with at least 3076; otherwise nothing changes |
| LearnedIds.IoctlFilter.FilterAfter | src/ioctl_filter.c:209-234 | what one ioctl reply does to the table and to the caller's memory, in every case; the table invariant is kept |
| RmReplies.LearnAllIsFirstIds | src/ioctl_filter.c:32-53 | learning ids one by one gives the first 32 distinct ones |
| RmReplies.FirstIdsSound | src/ioctl_filter.c:44-53 | the table has no duplicate, no invalid id, at most 32 entries, and only and (if they fit) all offered ids |
| RmReplies.FirstIdsGrow | src/ioctl_filter.c:51-52 | the table is append-only |
| RmReplies.OfferedExact | src/ioctl_filter.c:55-71 | the ids offered are those, other than 0xffffffff, of valid cards whose minor a listed GPU has |
| RmReplies.HiddenExact | src/ioctl_filter.c:73-87 | a valid card whose minor no listed GPU has loses its valid mark and no other field; every other card keeps every field |
| RmReplies.ListedExact | src/ioctl_filter.c:118-125 | the ids listed are those before the first 0xffffffff |
| ReplyLaws.AttachedExact | src/ioctl_filter.c:118-141 | the shown ids are the known ones in order, or the list is untouched; no id is added, no list is emptied, a second pass changes nothing |
| ReplyLaws.ActiveExact | src/ioctl_filter.c:160-181 | the same for active devices with all fields; later entries stay; a second pass changes nothing |
| ReplyLaws.ActiveMonotone | src/ioctl_filter.c:165-181 | a larger table shows a supersequence |
| ReplyLaws.TableAllowed | src/ioctl_filter.c:55-71 | with a stable driver only ids of allowed GPUs are ever learned |
| ReplyLaws.AttachedViewSound | src/ioctl_filter.c:112-141 | a reply shows allowed GPUs only iff some id in it is known or nothing had to be hidden |
| ReplyLaws.AttachedViewExact | src/ioctl_filter.c:112-141 | if at most 32 ids were offered and the reply's allowed ids were among them, it shows exactly its allowed ids, or is untouched if it has none |
| ReplyLaws.ActiveViewSound | src/ioctl_filter.c:154-181 | the same soundness for active devices |
| ReplyLaws.UnlearnedIdShows | src/ioctl_filter.c:112-133 | before anything is learned, a reply of 32 entries with one forbidden id shows it |
| ReplyLaws.UnlearnedDeviceShows | src/ioctl_filter.c:154-173 | the same for one forbidden active device |
| ReplyLaws.ActiveViewExact | src/ioctl_filter.c:154-181 | the same exactness for active devices, untouched if none is allowed |
| ReplyLaws.CardsAgree | src/ioctl_filter.c:65-86 | the ids of the cards left valid are exactly the ids offered for learning |
| ReplyLaws.TableAgreesWithCards | src/ioctl_filter.c:55-87 | over a run, an id is known iff a caller still saw a valid card with it |
| Interleaving.MutualExclusion | src/ioctl_filter.c:64-70 | in every state of every execution at most one thread is inside a critical section |
| Interleaving.AnyCallMayArrive | src/ioctl_filter.c:55-182 | a new call with any reply may arrive in every state of an execution |
| Interleaving.SomeThreadCanStep | src/ioctl_filter.c:64-70 | no state of an execution is a deadlock: while a call has not returned, some thread can step |
| Interleaving.StepsDecrease | src/ioctl_filter.c:64-182 | every step of a thread decreases the bound on the steps left, so calls return whatever the order |
| Interleaving.AllCanReturn | src/ioctl_filter.c:64-182 | every execution continues, without new calls and within that bound, until all calls have returned |
| Interleaving.TableInEveryState | src/ioctl_filter.c:64-70 | the table invariant holds in every interleaved state, and a free lock means the table of a sequential run |
| Interleaving.TableGrows | src/ioctl_filter.c:44-53 | along every execution the table only grows at its end |
| Interleaving.CardCallsAreLogged | src/ioctl_filter.c:64-70 | every card-info call that returns recorded its whole reply, at one moment between call and return |
| Interleaving.LogIsRecordedCalls | src/ioctl_filter.c:64-70 | in every state the recorded replies are, with multiplicity, those of exactly the calls past their critical section |
| Interleaving.Linearizable | src/ioctl_filter.c:112-181 | every returned reply is the sequential filter's with the table of one moment between call and return, and that table is the one whole recordings leave, never one in the middle of a recording |
| RelativePaths.NormalizeRelativePath | src/preload.c:92-147 | succeeds iff the path is relative, has no "..", keeps a segment, and the joined kept segments are shorter than the buffer, which then holds them |
| RelativePaths.NormalizedTwice | src/preload.c:92-147 | splitting the output gives the kept segments; normalising it again is the identity |
| RelativePaths.NormalizedExact | src/preload.c:92-147 | the result is the one text that splits into the path's segments other than "" and "."; there is one iff the path is relative, has no "..", keeps a segment and fits |
| RelativePaths.OutputSegments | src/preload.c:92-147 | no segment of a result is "", "." or ".." |
| RelativePaths.NormalizingPreservesMeaning | src/preload.c:92-147 | resolution before and after agree in every tree except for a file named with a trailing slash or dot (section 4.13 of IEEE Std 1003.1-2017, Base Definitions) |
| RelativePaths.TrailingSlashLost | src/preload.c:92-147 | the exception at an input: "a/" for a file "a" does not resolve and its normal form does |
| OpenatPaths.RelativeDenyExact | src/preload.c:149-177 | relative to the gpus directory the denied paths are those without ".." whose segments other than "" and "." are a bus of 1 to 31 characters that no listed GPU has and "information"; the 256-byte limits never decide |
| OpenatPaths.DotsNeverMatter | src/preload.c:92-177 | "./" in front of a relative path, or "/." before a slash in it, never changes whether it is denied |
| OpenatPaths.EffectiveExact | src/preload.c:149-177 | what a relative path is judged by: below the gpus directory, the one text with its segments, if it fits; as written otherwise |
| OpenatPaths.OtherDenyExact | src/preload.c:64-68 | every other path is denied iff filtering is ready with a valid list and it is literally the information path of a bus that no listed GPU has |
| ProcPaths.ExtractProcBus | src/proc_filter.c:164-203 | the bus is extracted exactly from prefix, bus and suffix |
| ProcPaths.InfoPathExact | src/proc_filter.c:164-203 | extraction and printing a path are mutual inverses on slash-free names of 1 to 31 characters |
| ProcPaths.ProcPathAllowed | src/proc_filter.c:509-530 | the decision for every path, NULL included |
| ProcPaths.DenyExact | src/proc_filter.c:509-530 | the denied paths are the information paths of buses outside a valid list |
| ProcPaths.DecideByRule | src/proc_filter.c:509-530 | deny and ignore with every path written out |
| ProcPaths.BuiltListDecides | src/proc_filter.c:287-325 | with a freshly built list, an information path is allowed iff a selected record carries its bus |
| Topology.AllowedContainsBus | src/proc_filter.c:493-507 | membership by bus name, false for an invalid list and the empty name |
| Topology.BuildAllowedGpus | src/proc_filter.c:287-325 | the list is the first 32 present, mounted, uuid-matching records in order, valid iff there is one |
| Topology.SelectedInOrder | src/proc_filter.c:305-321 | the selected records, at most 32, are a subsequence of the records |
| Topology.SelectedExact | src/proc_filter.c:305-321 | every listed GPU is present, mounted and has the requested uuid if there is one; up to 32 records, every such record is listed |
| Topology.SelectedByRule | src/proc_filter.c:305-321 | the list is the first 32 such records |
| RmReplies.AllowedContainsMinor | src/ioctl_filter.c:14-30 | a present GPU of a valid list has the minor |
| Decimal.ParseNonnegativeInt | src/proc_filter.c:113-139 | accepts exactly the non-empty digit strings up to INT_MAX, with no overflow on the way |
| Decimal.NameIsNvidiaMinor | src/proc_filter.c:34-67 | the same numbers behind the device-name prefix |
| Decimal.ParseInvertsPrint | src/proc_filter.c:113-139 | parsing inverts printing up to INT_MAX and rejects every larger number |
| Decimal.ParseExact | src/proc_filter.c:113-139 | the strings that parse to a number are its printed form with any number of leading zeros |
| InfoParser.TrimSlice | src/proc_filter.c:78-101 | removes the blanks at both ends |
| InfoParser.TrimPadded | src/proc_filter.c:78-101 | what is left of a padded trimmed text is that text |
| InfoParser.ReadLine | src/proc_filter.c:234-253 | one line updates the field its key names, or makes the failure stick |
| InfoParser.ParseGpuInformation | src/proc_filter.c:205-269 | succeeds iff every keyed line is well formed, a minor line exists and a bus comes from a line or the path; each field is that of its last line |
| InfoLaws.SwapLines | src/proc_filter.c:221-259 | swapping adjacent lines with different keys never changes the outcome |
| InfoLaws.RoundTrip | src/proc_filter.c:205-269 | any printing of a record's fields, in any order, padded, with LF or CRLF and other lines between, parses back to it |
| InfoLaws.LiteralFile | src/proc_filter.c:205-269 | a file with its "GPU UUID:", "Bus Location:" and "Device Minor:" lines, padded with spaces, tabs and CRs, gives exactly those fields, and nothing iff the uuid has 96 characters, the bus none or 32, or the minor is no int |
| InfoLaws.LiteralFileWithoutBus | src/proc_filter.c:261-268 | without a bus line the bus is that of the file's own path; without either there is no record |
| InfoLaws.OtherLineIgnored | src/proc_filter.c:239-252 | a line that starts with none of the three keys changes nothing |
| InfoLaws.MinorNeeded | src/proc_filter.c:267-268 | a file without a minor line gives no record |
| FdMap.ClassifyPath | src/fd_map.c:126-164 | the record of every path |
| FdMap.ClassifyExact | src/fd_map.c:126-164 | the kinds exclude each other, and kind, minor and bus are the only ones that describe the path |
| FdMap.ClassifiedExact | src/fd_map.c:126-164 | what every path is taken for, with the paths written out; the stored path is its first 255 characters |
| FdMap.ClassifyProcGpuPath | src/fd_map.c:87-124 | this second extractor agrees with the one in proc_filter.c on every path |
| FdMap.ParseNvidiaMinor | src/fd_map.c:53-85 | the same numbers as the other two parsers behind the device prefix |
| FdMap.ClassifyPrinted | src/fd_map.c:53-124 | printed device and information paths classify back to their minor and bus |
| FdMap.FdTable.Set | src/fd_map.c:172-181 | sets one slot, ignores descriptors outside 0 to 4095 |
| FdMap.FdTable.Get | src/fd_map.c:183-198 | reads one slot |
| FdMap.FdTable.Remove | src/fd_map.c:200-208 | empties one slot |
| Descriptors.OrderlyRunsAreExact | src/preload.c:221-391 | after an orderly run each slot holds exactly the classification its open descriptor was tracked under, or is empty |
| Descriptors.AllRunsArePlausible | src/preload.c:221-391 | with closes behind the shim's back, each occupied slot holds the classification of some path opened at that number |
| Descriptors.ExactIffNothingStale | src/preload.c:221-391 | for every run the table is exact iff no descriptor was, after the last call that recorded it, closed unseen or reused under an unclassified path, with no successful close through the shim in between or since |
| Descriptors.SlotFromCalls | src/preload.c:221-391 | a slot is occupied iff the descriptor was recorded and not closed through the shim since, and it matches the open descriptor iff that record is not stale |
| Descriptors.HiddenCloseGoesStale | src/preload.c:256-261 | with filtering on or off, the run that shows the stronger claim fails then |
| Descriptors.OpenedStaysRecorded | src/preload.c:221-313 | over a run, a descriptor opened by open or openat under an absolute classified path that is not denied has that path's record until a later call is about it |
| FdRaces.RightIffLastAgree | src/preload.c:224-261 | in every state of interleaved opens and closes a slot is right iff the last call about it to finish and the last one the kernel carried out leave the same in it |
| FdRaces.StaysRightExact | src/preload.c:385-388 | a slot is right however the calls under way finish iff it is right now and none of them leaves anything else in it |
| FdRaces.PatientRunsAreRight | src/preload.c:385-388 | if no number is reused while a call about it is under way, the slot of every descriptor between calls is right |
| FdRaces.LateRemoveShowsAll | src/preload.c:385-388 | a run with all calls finished in which the open gpus directory has no record and every entry is shown |
| Shim.Preload.constructor | src/preload.c:608-619 | ready implies a valid allow-list, and holds iff filtering is on and a record qualifies |
| Shim.Preload.ProcDenied | src/preload.c:64-68 | denied iff ready, absolute and decided so |
| Shim.Preload.EffectiveOpenatPath | src/preload.c:149-177 | the path an openat is judged by, through the normaliser and both buffer limits |
| Shim.Preload.Open | src/preload.c:221-264 | refused iff denied; else a classified path's record is in the slot of fd from 0 to 4095, and no other slot changes |
| Shim.Preload.Openat | src/preload.c:266-313 | refused iff the effective path is denied; else a classified effective path's record is in the slot of fd from 0 to 4095, and no other slot changes |
| Shim.Preload.Close | src/preload.c:375-391 | the slot is emptied iff closing succeeded, and no other slot changes |
| Shim.Preload.ReaddirEntryAllowed | src/preload.c:179-192 | every entry when not ready or not on the gpus directory; there ".", ".." and the names of listed GPUs |
| Shim.Preload.Readdir | src/preload.c:514-540 | the next shown entry, with the stream just past it |
| Shim.Preload.Getdents64 | src/preload.c:570-583 | filters positive results on the gpus directory when ready, leaves all others alone |
| Shim.Preload.Ioctl | src/preload.c:585-606 | for a control descriptor with the flag set, filtering ready and result 0: cards whose minor no listed GPU has are hidden; RM replies 0x201 and 0x288 with status 0 and enough bytes list just their known ids or devices, if any; in every other case the reply is unchanged |
| Listing.ReadAllIsFilter | src/preload.c:514-540 | repeated readdir yields the shown entries in order |
| Listing.ReadAllByRule | src/preload.c:179-192 | readdir yields ".", ".." and the names of listed GPUs on the gpus directory when ready, and every entry otherwise |
| Listing.DeliveredByRule | src/proc_filter.c:571-582 | getdents64 delivers the same entries of a chunk of whole records whose kept length fields survive |
| Listing.GetdentsVersusReaddir | src/preload.c:514-583 | for every cut into chunks of whole records whose kept length fields survive, getdents64 yields a prefix of what readdir yields, and all of it iff no chunk the kernel delivered with a shown entry follows one without |
| Listing.ListingsDiffer | src/preload.c:570-583 | for every listed bus two chunks for which getdents64 yields nothing and readdir the bus |
| FdMap.FdTable.Clear | src/fd_map.c:166-170 | empties every slot |
| Channels.ListingAgreesWithPaths | src/preload.c:149-192 | an entry is listed iff its information file opens, absolutely or relative to the directory, except for names too long to be a bus, which are hidden but not refused |
| Channels.CardsAgreeWithPaths | src/proc_filter.c:287-325 | a GPU's valid card in a reply is still valid after hiding iff its information file may be opened iff its node is mounted and its uuid matches |
| Channels.OpenedDirectory | src/preload.c:183-189 | a descriptor opened as /proc/driver/nvidia/gpus is taken for it until a later call is about it |
| Channels.OpenedControl | src/preload.c:597-603 | a descriptor opened as /dev/nvidiactl has its replies filtered until a later call is about it |
| Channels.OnlyThoseOpened | src/preload.c:221-391 | no descriptor is taken for either unless it was opened as it |

## Left out

- System calls, symbol lookup, errno, varargs and the 64-bit fallbacks: foreign calls; stat, newfstatat and opendir use the denial and tracking modelled for open and openat.
- nvfix_collect_mounted_minors, nvfix_read_file_to_buffer and nvfix_collect_gpu_infos: file and directory reading; their results are inputs of the constructor.
- src/env.c, src/log.c, src/ioctl_trace.c: flag parsing and trace output.
- Request encoding, struct layout and pointer casts of src/nvidia_rm.h: a request comes with an argument of its own type, as the driver interface promises.
- Scratch arrays on the stack (kept ids, kept devices) are sequences with the source's limits; caller-owned arrays are arrays.
- The buffer that the effective path is printed into is modelled by its size and the string returned, not by its bytes.
- The descriptor table's lock: setting or emptying a slot is a single step; what is interleaved is that step with the kernel's.
- FdRaces: openat's judging of its path before the kernel is asked is not a step; the path a call is tracked under is given.
- KernelOverruns.KernelListingsFit: does not say whether a bus of 22 characters that ends below '0' can lead to a result beyond the listing, because the bytes the walk meets then are the name's own and decide it name by name.
- Interleaving models one call per thread, with filtering enabled; a process making more calls is more threads, in any order.
