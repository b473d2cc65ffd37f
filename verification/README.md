# Verified model of magiskboot_go

A Dafny 4.11 model of the four parts of this repository where bytes are parsed, printed, compared
or moved, with proofs of what those parts are for. `dafny verify dfyconfig.toml` checks everything.

## What is modelled

| files | part of the program |
|---|---|
| `Words`, `Text` | Go's fixed-width integers with their wrap-around, splitting and joining |
| `Varint`, `Wire`, `WireFaults` | varints, the skipping of unknown fields, and the error of a skip that fails |
| `Messages`, `MessageObjects` | `Extent`, `InstallOperation`, `CowMergeOperation`: first as values with a byte meaning, then as objects whose methods write buffers back to front and update fields in place |
| `MessageLaws`, `MessageGrammar`, `MessageFaults`, `MessageMeaning`, `MessageRoundTrip` | laws of the field loop, the byte strings it accepts, the errors of the others, what the accepted ones mean, and Marshal and Unmarshal together |
| `Names` | the order of Go strings, sorting, removal from key lists |
| `CpioFormat`, `CpioHex`, `CpioRoundTrip`, `CpioMembers` | the "newc" format: printer, loader, what loading makes of printed archives, and of those other programs write |
| `CpioOps`, `CpioBackup`, `CpioExact`, `CpioRestore`, `CpioLayout`, `CpioCycle`, `CpioEntries`, `Cpio` | the editing commands, backup, when its difference is exact, restore, restore on the layout it expects, the two commands one after the other, what the commands put into entries, and the object with its map and key list |
| `Fstab`, `FstabLines`, `FstabLaws`, `FstabText` | the fstab patchers, on one line and on the file, and the text that comes out |
| `HexPatch` | the in-place hex patcher |
| `Payload`, `PayloadLaws`, `PayloadTies`, `PayloadRefusals` | the loop over install operations, the orders they may be sorted into, and when it stops |

A method that updates state is proved equal to a function (or, where a map is walked in no particular
order, to a relation with one solution), and the laws are proved about that function. A Go panic that
the code can reach (an index or a slice bound out of range) is an outcome: `Panicked`, `None` or
`panicked`, so that no input is excluded to avoid it.

Facts about the code that the proofs brought out:

* `add`, `mkdir`, `ln` onto an existing name, and `mv` onto one, leave the name in the key list twice.
  The usage text (cpio.go:78-79) says that add replaces. `AddEntryExactIff` and `MvExactIff` give the
  exact conditions. `mv` of a missing source creates an empty entry.
* `rm` takes one key off for every entry it deletes. Where a name was listed twice, the other key stays, and Dump
  prints an empty member for it (`RmCoversIff`).
* `restore` takes an empty difference for a missing backup and empties the map, leaving the keys
  (cpio.go:714-719). It also takes any regular file below `.backup` whose name ends in .xz for a compressed one, if
  its data can be decompressed, whether backup compressed it or not. `RestoreAfterDiff` shows these to be the only
  two exceptions to "restore gives the original's data back" on the layout it expects.
* `backup` files saved entries under their plain names; the path below `.backup` is only printed
  (cpio.go:761-767), and restore looks for saved entries nowhere else. `RestoreAfterBackup` is the law of
  the two commands as they are: the original's data are back if and only if the key lists are aligned, the
  current archive holds a name the original lacks, and compression changes nothing that was saved (or the
  original is empty). Where the current archive has no name of its own, restore finds no backup, although entries
  may have been saved, and empties the archive.
* Loading keeps the order of the archive, while the merge of `backup` is written for sorted keys. Its
  difference is exact if and only if the key lists are aligned: the shared names stand in the same order,
  and each other name is below the next shared one of its own list (`MergeExactIff`). Sorted lists are. On
  lists that are not, some shared name is recorded for removal, but dropping what is recorded and then laying
  what is saved over the rest still gives the original's data (`BackupUndoes`).
* `patchFstab` asks for four fields and takes the fifth: it panics exactly on lines of four fields
  (`FailsIff`). A five-field line that loses its last flag becomes such a line, and that is exactly when
  patching twice panics where patching once does not (`SecondPassFailsIff`); `AvbAloneFails` shows one. A longer
  line that loses its last flag has its next field taken for the flags, and an indented comment is only
  recognised once its indentation is gone. The conditions under which passes compose, commute and are
  idempotent follow from these three (`PatchesComposeIff`, `PatchesCommuteIff`, `PatchIsIdempotentIff`).
* `HexPatch` indexes beyond the end, as long as nothing that begins inside what it writes can become a match, exactly
  when a proper prefix of the pattern ends what lies behind the last match (`PatchReplacesAll`); `LonePrefixPanics`
  shows such a file. Bytes that a longer replacement covers do not count as lying behind it; if the end of the file
  cuts the replacement off, what is left of it but its first byte does. The replacement is complete by then.
* `sort.Slice` leaves open how operations with equal offsets are ordered. `TiesIff` says when that shows in the
  image.
* The field loops of Unmarshal cut field numbers to 32 bits, and do not ask that the end tag of a group
  carry the number of its start tag; the grammar in `Wire` allows for both.

## Model

| member | source | states |
|---|---|---|
| Words.WordsWrap | chromeos_update_engine/update_metadata.pb.go:3601 | conversions and wrapping operations keep the number modulo the size of their result |
| Varint.SovIsLength | chromeos_update_engine/update_metadata.pb.go:3339-3341 | the bit-length formula is the number of bytes the encode loop writes, 1 to 10 |
| Varint.EncodeVarint | chromeos_update_engine/update_metadata.pb.go:3030-3040 | fills exactly the window that ends at the offset with the encoding, and returns its start |
| Varint.DecodeVarint | chromeos_update_engine/update_metadata.pb.go:3592-3605 | the shift loop with its overflow and end checks returns the number the groups of seven bits spell, cut to 64 bits |
| Varint.OrGroup | chromeos_update_engine/update_metadata.pb.go:3601 | or-ing in a group of seven bits, shifted and cut at 64 bits, is adding it |
| Varint.OrIsSum | chromeos_update_engine/update_metadata.pb.go:3601 | the bitwise disjunction of numbers that share no bit is their sum |
| Varint.VarintRoundTrip | chromeos_update_engine/update_metadata.pb.go:3030-3040 | every uint64 is read back and the read stops at its end, whatever follows |
| Varint.ReadVarintBytes | chromeos_update_engine/update_metadata.pb.go:3592-3605 | a varint of any shape, canonical or not, is read to its end and no further |
| Varint.ReadVarintValue | chromeos_update_engine/update_metadata.pb.go:3592-3605 | a varint of any shape holds the sum of its groups of seven bits, each by its place, cut to 64 bits |
| Varint.ReadVarintFails | chromeos_update_engine/update_metadata.pb.go:3592-3605 | which of the two errors is reported, exactly: ten bytes that do not end it, or an input that ends first |
| Wire.SkipUpdateMetadata | chromeos_update_engine/update_metadata.pb.go:6032-6109 | with a wrapping index and a depth counter, terminates on every byte string with exactly the length or the error of the specification |
| Wire.SkipRecord | chromeos_update_engine/update_metadata.pb.go:6032-6109 | any well-formed record, with groups nested to any depth and any bytes behind it, is consumed exactly |
| Wire.SkippedIsRecord | chromeos_update_engine/update_metadata.pb.go:6032-6109 | conversely, whatever is skipped within the slice is one well-formed record |
| Wire.SkipIffRecord | chromeos_update_engine/update_metadata.pb.go:6032-6109 | both directions: n bytes are skipped if and only if the first n bytes are a well-formed record |
| WireFaults.SkipFaults | chromeos_update_engine/update_metadata.pb.go:6032-6109 | which error each kind of fault behind a tag is reported as, inside any number of groups |
| WireFaults.SkipNoTag | chromeos_update_engine/update_metadata.pb.go:6036-6052 | the errors where a tag should begin |
| WireFaults.SkipReportsFirstFault | chromeos_update_engine/update_metadata.pb.go:6032-6109 | whatever groups and records stand before it, the first fault decides |
| MessageObjects.ExtentObject.MarshalToSizedBuffer | chromeos_update_engine/update_metadata.pb.go:2243-2255 | writes exactly the encoding at the end of the slice it is given and leaves every other byte alone |
| MessageObjects.ExtentObject.Size | chromeos_update_engine/update_metadata.pb.go:3041-3050 | is the length of what is written |
| MessageObjects.ExtentObject.Unmarshal | chromeos_update_engine/update_metadata.pb.go:3586-3673 | for every byte string: terminates, stays within bounds, and returns the message or the error of the field loop, with the index at the end on success |
| MessageObjects.InstallOperationObject.Size | chromeos_update_engine/update_metadata.pb.go:3096-3128 | is the length of what is written, for any number of extents |
| MessageObjects.InstallOperationObject.MarshalToSizedBuffer | chromeos_update_engine/update_metadata.pb.go:2379-2442 | running backwards, never below index 0, fills the last Size() bytes of the slice with the forward encoding and nothing else |
| MessageObjects.InstallOperationObject.Marshal | chromeos_update_engine/update_metadata.pb.go:2364-2372 | a buffer of exactly Size() bytes holds exactly the encoding |
| MessageObjects.InstallOperationObject.Unmarshal | chromeos_update_engine/update_metadata.pb.go:3974-4259 | the same for the message with nested extents, byte strings and a required field, updated in place |
| MessageObjects.CowMergeOperationObject.MarshalToSizedBuffer | chromeos_update_engine/update_metadata.pb.go:2459-2495 | the same with optional submessages |
| MessageObjects.CowMergeOperationObject.Unmarshal | chromeos_update_engine/update_metadata.pb.go:4260-4419 | the same, merging into an extent object that is already there |
| MessageObjects.DecodeLength | chromeos_update_engine/update_metadata.pb.go:4066-4096 | the checks on the sign of the length and of the wrapped sum keep the slice within the input |
| MessageObjects.DecodeUnknown | chromeos_update_engine/update_metadata.pb.go:4236-4248 | the checks after a skip keep the index within the input |
| MessageLaws.StepLocal | chromeos_update_engine/update_metadata.pb.go:3978-4250 | one turn of any field loop depends only on the bytes it passes |
| MessageLaws.RunIsFold | chromeos_update_engine/update_metadata.pb.go:3978-4250 | running on a ++ b, where a parses cleanly, is running on a and then on b into the same message |
| MessageLaws.UnknownRecordIsIgnored | chromeos_update_engine/update_metadata.pb.go:4236-4248 | a well-formed record with an unknown number at a record boundary changes neither outcome nor message |
| MessageGrammar.RunAcceptsIff | chromeos_update_engine/update_metadata.pb.go:3974-4250 | exactly the lists of well-formed records of acceptable types, nested extents being such lists themselves, are parsed; every other byte string is an error |
| MessageGrammar.UnmarshalAcceptsIff | chromeos_update_engine/update_metadata.pb.go:3974-4259 | the same for Unmarshal, where a record of an InstallOperation has to bear the number of the required field |
| MessageMeaning.RunMeans | chromeos_update_engine/update_metadata.pb.go:3974-4250 | reading a list of records is letting each act on its own field and no other: scalars and byte strings are replaced, extents appended, submessages merged |
| MessageMeaning.PayloadMeans | chromeos_update_engine/update_metadata.pb.go:3586-3673 | a nested extent is read record by record into the one that is there, and means the same whichever way its bytes are taken apart |
| MessageMeaning.ExtentFieldReads | chromeos_update_engine/update_metadata.pb.go:3615-3653 | one field of an extent replaces that field and leaves the other alone |
| MessageMeaning.PieceReads | chromeos_update_engine/update_metadata.pb.go:4337-4342 | a piece of a submessage with one field leaves the other field of the submessage that is there |
| MessageMeaning.OperationWire | chromeos_update_engine/update_metadata.pb.go:2379-2442 | an operation is written as its records, fields in ascending order, each tag made of number and wire type, a nil hash left out |
| MessageMeaning.MergeWire | chromeos_update_engine/update_metadata.pb.go:2459-2495 | the same for CowMergeOperation, absent extents left out |
| MessageMeaning.ExtentWire | chromeos_update_engine/update_metadata.pb.go:2243-2255 | an extent is written as its two records |
| MessageFaults.TagFaults | chromeos_update_engine/update_metadata.pb.go:3978-4008 | the errors of a tag: no varint, the end of a group, a number that is not positive |
| MessageFaults.KnownFaults | chromeos_update_engine/update_metadata.pb.go:4009-4235 | the errors of a known field, in their order: wire type, varint, length, end of input, and those of the nested extent |
| MessageFaults.StepFails | chromeos_update_engine/update_metadata.pb.go:4009-4235 | the error of a known field is that of the turn |
| MessageFaults.UnknownFaults | chromeos_update_engine/update_metadata.pb.go:4236-4248 | the errors of an unknown field |
| MessageFaults.FirstFaultDecides | chromeos_update_engine/update_metadata.pb.go:3974-4259 | behind records that are read, the first that cannot be decides the error of Unmarshal |
| MessageFaults.MissingFieldDecides | chromeos_update_engine/update_metadata.pb.go:4251-4258 | without the required record, that is the error |
| MessageRoundTrip.ExtentRoundTrip | chromeos_update_engine/update_metadata.pb.go:2243-2255 | reading a printed extent into any extent gives the printed one |
| MessageRoundTrip.OperationMerges | chromeos_update_engine/update_metadata.pb.go:3974-4250 | reading a printed y into a message holding x merges: scalars and byte strings are last-wins, extents are appended |
| MessageRoundTrip.OperationRoundTrip | chromeos_update_engine/update_metadata.pb.go:2379-2442 | Marshal then Unmarshal is the identity on every InstallOperation, nil and empty hashes told apart |
| MessageRoundTrip.MergeMerges | chromeos_update_engine/update_metadata.pb.go:4260-4413 | the same merge law for CowMergeOperation, with absent submessages keeping what was there |
| MessageRoundTrip.MergeRoundTrip | chromeos_update_engine/update_metadata.pb.go:2459-2495 | Marshal then Unmarshal is the identity on every CowMergeOperation |
| MessageRoundTrip.SubmessagePiecesMerge | chromeos_update_engine/update_metadata.pb.go:4337-4342 | a singular submessage sent in two pieces is the submessage of the joined pieces |
| CpioFormat.HexRoundTrip | cpio.go:136-148 | what %08x prints for a number below 2^32 is eight characters that x8u reads back |
| CpioHex.X8uIff | cpio.go:136-148 | a number is read exactly from eight hexadecimal digits in either case, and is the one they spell by their places |
| CpioHex.RecasedReads | cpio.go:136-148 | printed digits in another case read the same |
| CpioHex.HexPrints | cpio.go:261-276 | any number is printed in lower-case digits that spell it, eight of them, and more only if needed |
| CpioMembers.HeaderColumns | cpio.go:261-276 | what Dump prints in each of the thirteen columns |
| CpioMembers.RecordLayout | cpio.go:277-297 | header, name, one terminator, zeros up to a multiple of four, data, zeros again |
| CpioMembers.DumpHolds | cpio.go:256-303 | a member for every key, inode numbers from 300000, and the trailer with its mode behind them |
| CpioMembers.MemberLoads | cpio.go:162-206 | any member, its numbers in either case or unreadable, its name with any terminators, its padding holding anything: what is loaded of it and where loading goes on |
| CpioMembers.RecasedLoads | cpio.go:162-206 | a member whose numbers are printed in another case loads as Dump's own |
| CpioMembers.LoadStops | cpio.go:162-206 | which outcome ends loading where no member can stand, with what was loaded before |
| CpioMembers.ResyncFindsFirst | cpio.go:181-189 | behind a trailer loading goes on at the first magic number, or ends |
| Cpio.Cpio.Dump | cpio.go:249-303 | the position kept beside the file is its length, and the padding computed from it gives the aligned records and the trailer |
| Cpio.Cpio.LoadFromData | cpio.go:158-208 | entries, keys and outcome for every byte string, including what was loaded before an error |
| CpioRoundTrip.LoadRecord | cpio.go:158-206 | the loader passes exactly the record the printer wrote, at any aligned offset in any file |
| CpioRoundTrip.MagicDoesNotStraddle | cpio.go:181-189 | the search behind a trailer finds the next archive, since a magic number cannot straddle the boundary |
| CpioRoundTrip.ConcatenationLoads | cpio.go:158-208 | any number of dumped archives with other aligned bytes between them load as their overlay, keys chained |
| CpioRoundTrip.RoundTripIff | cpio.go:249-303 | Dump then load gives the object back if and only if every name is a storable one, name and data sizes fit their fields, and the key list covers exactly the map |
| Cpio.Cpio.Rm | cpio.go:305-338 | for every order in which the map is walked, the entries and key list that remain are the same |
| CpioOps.RmRemovesSubtree | cpio.go:305-338 | removal takes the path, and recursively what lies below it, and nothing else, with one key for every entry; on an exact archive it filters the key list |
| CpioOps.RmCoversIff | cpio.go:305-338 | after loading, removal leaves one key list for one map if and only if every deleted name was listed once; a key left over stands for the empty entry |
| Names.CompareIff | cpio.go:781 | the order of names is the bytewise lexicographic one |
| Names.WithoutKeepsOrder | cpio.go:307-314 | the keys that stay keep their relative order |
| Names.RemoveOneOf | cpio.go:330-336 | removals commute: the order in which names are removed from the key list does not matter |
| Cpio.Cpio.AddEntry | cpio.go:403-408 | the new map and the sorted key list |
| Cpio.Cpio.Mv | cpio.go:496-511 | the loop that rebuilds the key list, and the new state |
| CpioOps.MvState | cpio.go:496-511 | every key of the source goes, one comes for the destination, the list is sorted, the entry has moved and no other changed |
| CpioEntries.DirEntryIs | cpio.go:466-476 | a directory's mode has bit 14 or-ed in, and no data |
| CpioEntries.LinkEntryIs | cpio.go:478-494 | a link's mode, and the cleaned target, rooted if it was |
| CpioEntries.LoadAdds | cpio.go:158-208 | loading a dumped archive adds its keys behind those there and its entries over them |
| CpioEntries.RegularIff | cpio.go:606-609 | a regular file by the bits of its mode |
| CpioEntries.PackedIs | cpio.go:606-617 | what compressing changes, and when |
| CpioEntries.UnpackedIs | cpio.go:619-630 | what decompressing changes, and when |
| CpioEntries.SavedIff | cpio.go:695-709 | which names restore collects, and under which it files them |
| CpioEntries.BackupLeaves | cpio.go:734-829 | the map and the counts of the sorted keys after backup, spelled out |
| CpioOps.AddEntryExactIff | cpio.go:403-408 | one key per entry is kept if and only if the name was absent; otherwise it is listed twice |
| CpioOps.MvExactIff | cpio.go:496-511 | one key per entry is kept if and only if the destination is free or is the source |
| CpioOps.ApplyExactIff | cpio.go:305-511 | for each editing command, exactness is kept just when it is proper, and the map changes as a plain map would |
| CpioOps.RunRefinesMap | cpio.go:305-511 | over any run of proper commands the object is a plain map whose keys are listed once each |
| CpioOps.LoadedIsExact | cpio.go:195-203 | after loading, the key list covers the map, and exactly so when the names are distinct |
| Cpio.MergeKeys | cpio.go:753-820 | the two-pointer loop with its two trailing loops computes the entries of the recursive merge and its rm list |
| CpioExact.MergeExactIff | cpio.go:776-809 | on lists without repeats the merge saves exactly what is missing or differs, packed or not, and records exactly the rest, in order, if and only if the lists are aligned |
| CpioExact.SortedIsAligned | cpio.go:776-809 | strictly sorted lists are aligned |
| CpioBackup.RmListRoundTrip | cpio.go:770-774 | the NUL-terminated list splits into the recorded names |
| CpioExact.BackupExactIff | cpio.go:750-820 | the rm list as it is read back names exactly what the original lacks if and only if the key lists are aligned, and then the saved entries are exactly those missing or differing |
| CpioExact.BackupIsDiff | cpio.go:750-820 | on sorted archives the difference is exact, and dropping the one part and overlaying the other gives the original's data |
| CpioBackup.MergeUndoes | cpio.go:776-809 | on key lists without repeats in whatever order, compressed or not, every name is either recorded, saved or left with the same data, so the difference can be undone |
| CpioBackup.BackupUndoes | cpio.go:750-820 | sorted or not, compressed or not: the rm list reads back, the saved entries are originals, packed, and dropping the one and overlaying the others gives the original's data |
| CpioExact.UnalignedMergeIsInexact | cpio.go:776-809 | two archives that differ only in the order of their keys, and a name is recorded and its entry saved |
| Cpio.Cpio.Backup | cpio.go:734-829 | the whole command, on whatever could be read of the original, for every order of the map |
| CpioBackup.InsertionIsUnique | cpio.go:822-826 | the order in which the saved entries are inserted leaves no trace |
| Cpio.Cpio.Restore | cpio.go:688-732 | the loops of restore give the state of the specification for every order of the map |
| CpioRestore.RestoreIsUnique | cpio.go:726-730 | that state is unique |
| CpioRestore.CollectFinds | cpio.go:692-712 | whatever the keys, repeated or not, compressed or not: under each name the last entry that has it for its target, decompressed if it can be, and the rm list |
| CpioRestore.RestoreApplies | cpio.go:688-732 | on any archive, keys repeated or not, entries compressed or not: the resulting map is the old one less .backup and the listed names, overlaid with the saved entries; with nothing to restore it is empty; the names are cleaned first |
| CpioRestore.RestoreKeys | cpio.go:713-731 | the key list: with nothing to restore it stays, but for one .backup; otherwise it is sorted, each deleted entry takes one key and each restored name brings one |
| CpioLayout.RestoreAfterDiff | cpio.go:688-732 | restore after backup's difference, compressed or not, taken from archives sorted or not and laid out as restore expects, gives the original's data if and only if the difference is not empty and no saved entry passes for a compressed one without being it (or the original is empty) |
| CpioLayout.EntryComesBack | cpio.go:701-709 | one entry comes back under its own name and as it was, unless it passes for a compressed one: then it comes back under a shorter name |
| CpioCycle.RestoreAfterBackup | cpio.go:688-829 | both commands as they are: the original's data are back outside .backup if and only if the key lists are aligned, the current archive holds a name the original lacks, and compression changes nothing saved, or the original is empty; if it holds no such name the archive is emptied |
| CpioCycle.RecordsNothingIff | cpio.go:776-809 | nothing is recorded if and only if the lists are aligned and the original has every name |
| CpioCycle.CycleIff | cpio.go:688-829 | the same on archives that have no .backup |
| CpioRestore.RunsLoseNothing | cpio.go:869-976 | in every state of every run of load, rm, add, mkdir, ln, mv, backup and restore, each entry has a key, so Dump loses none |
| Fstab.Patch | patch.go:42-93 | the loops over lines, flags and patterns compute the specified lines, or stop where fields[4] does not exist |
| Fstab.FieldsJoin | patch.go:53-80 | fields joined by blanks are found again, also in UTF-8 text |
| FstabText.KeepIff | patch.go:62-76 | a flag stays exactly if no pattern is a prefix of it, as often as it was there |
| FstabText.KeepAppend | patch.go:62-76 | flags that stay keep their order |
| FstabText.SpaceIff | patch.go:53 | white space is found exactly where a character of unicode.IsSpace stands, in UTF-8 |
| FstabText.FieldsFound | patch.go:53 | fields are found again whatever white space stands before, between and behind them |
| FstabText.LineIs | patch.go:47-89 | what becomes of each kind of line: copied, refused, or its fields joined by single blanks with the fifth filtered |
| FstabText.FileIs | patch.go:42-93 | each line of the file is patched, and there are as many as before |
| FstabText.PatternsAreSpelled | patch.go:14-22 | the verity patterns |
| FstabText.EncryptionPatternsAreSpelled | patch.go:24-28 | the encryption patterns |
| FstabLaws.FailsIff | patch.go:53-60 | the index out of range is reached if and only if some line that is no comment has four fields |
| FstabLaws.NothingToPatch | patch.go:47-57 | a file of comments and short lines comes back byte for byte |
| FstabLines.PatchedFieldsRead | patch.go:60-87 | the patched line has the old fields with only the fifth edited, or gone with its last flag, and is a comment just when its first field begins like one |
| FstabLines.SecondPatch | patch.go:42-93 | what a second patch makes of any mount line, in all four cases |
| FstabLines.LineComposesIff | patch.go:42-93 | one line: two patches are one with both lists if and only if it keeps some flag, or is an indented comment with nothing for the second list |
| FstabLines.LineCommutesIff | patch.go:42-93 | one line: when the order of two patches does not matter |
| FstabLaws.SecondPassFailsIff | patch.go:53-87 | after a first pass that completes, the second panics if and only if some five-field mount line lost all its flags |
| FstabLaws.PatchesComposeIff | patch.go:42-93 | two passes are one pass with both pattern lists if and only if every line composes |
| FstabLaws.PatchesCommuteIff | patch.go:42-93 | two passes commute if and only if every line does, or both orders fail |
| FstabLaws.PatchIsIdempotentIff | patch.go:42-93 | a second pass with the same patterns changes nothing if and only if no mount line loses all its flags |
| FstabLaws.VerityAndEncryption | patch.go:14-39 | PatchVerity and PatchEncryption commute, are idempotent and are one pass with both lists, where each alone leaves every mount line a flag and no line has four fields or is an indented comment |
| FstabLaws.AvbAloneFails | patch.go:14-34 | the line "a b c d avb": PatchVerity completes, and a second PatchVerity panics |
| HexPatch.Patch | patch.go:116-140 | the nested loops on the mapped file compute the specified scan, also when it is cut short |
| HexPatch.ReportsOccurrence | patch.go:116-140 | true is reported if and only if the pattern occurs in the original buffer |
| HexPatch.ScanOverwritesHits | patch.go:118-135 | the result is the original with the replacement copied over the hits, left to right |
| HexPatch.HitsAreMatches | patch.go:120-130 | each hit is a match in the buffer as the earlier hits left it |
| HexPatch.OverwriteByte | patch.go:130 | copying changes the bytes it covers, up to the end of the buffer, and no other |
| HexPatch.EmptyPattern | patch.go:120 | an empty pattern ends the run at once, unless the file is empty |
| HexPatch.HitsIff | patch.go:118-135 | a position is hit exactly if the pattern stands there in the buffer as the earlier hits left it, even in what they wrote |
| HexPatch.ChangesLieInWindows | patch.go:130 | every changed byte lies in a window of the replacement's length that begins at a hit |
| HexPatch.PatchReplacesAll | patch.go:116-135 | for replacements of any length, if nothing that begins inside what is written can become a match: leftmost non-overlapping replacement, cut short if and only if a proper prefix of the pattern ends what lies behind the last match; if the pattern cannot begin or end in what is written either, no occurrence is left |
| HexPatch.PanicsAtPrefix | patch.go:122-123 | for any replacement: the run is cut short if and only if the buffer it leaves ends in a proper prefix of the pattern |
| HexPatch.LonePrefixPanics | patch.go:122-123 | a two-byte file and a pattern on which the index runs out of range |
| Payload.ExtractSorted | payload.go:142-188 | the loop on a reader and an output file computes the specified machine, error cases included |
| PayloadTies.Extract | payload.go:137-189 | with a sort that promises nothing about ties: some sorted order is run; if ties agree, the image left is that of every sorted order |
| PayloadTies.TiesIff | payload.go:137-142 | every order sort.Slice may pick gives the same image if and only if operations with equal offsets leave the same byte wherever both write and none with a larger offset does |
| PayloadRefusals.FirstRefusalDecides | payload.go:144-188 | success exactly if every operation is carried out; otherwise the outcome is that of the first refused one and the image holds the writes before it |
| PayloadRefusals.ExecuteVerdict | payload.go:145-186 | each operation by its guards, in their order, and what it writes, in vain or not |
| PayloadRefusals.ZeroWritesAre | payload.go:166-176 | ZERO writes as many zero bytes as an extent has blocks, at its first block |
| PayloadRefusals.BlobWritesAre | payload.go:163-182 | the other types write their blob, or what it decompresses to, at the first extent |
| PayloadRefusals.ReadAtByte | payload.go:159-162 | a buffer holds the bytes of the file, and zeros behind its end; a seek out of range stays where it is |
| PayloadLaws.WriteAtByte | payload.go:163-176 | a write changes the bytes it covers and no other, a gap reading as zeros |
| PayloadLaws.SkipLands | payload.go:157-158 | the wrapping difference read as a signed number lands on the operation's own offset, also backwards |
| PayloadLaws.ExecuteReadsBlob | payload.go:144-162 | each operation works on exactly its own blob and leaves the reader at base plus the tracked offset |
| PayloadLaws.ExecuteAllWrites | payload.go:144-188 | accepted operations complete in any order, and the image is made of their writes |
| PayloadLaws.OrderlessIffAgreeing | payload.go:137-188 | the image is the same for every order if and only if the operations agree wherever two of them write |
| PayloadLaws.DisjointIsOrderless | payload.go:137-188 | disjoint destinations: every order, so every tie order, gives the same image |
| PayloadLaws.LengthIsOrderless | payload.go:163-176 | the length of the image never depends on the order |

## Left out

- MessageObjects.InstallOperationObject.Unmarshal: when an error is returned, what the message holds by then is not stated; the same goes for the other two Unmarshal methods.
- MessageObjects.CowMergeOperationObject.Unmarshal: the two extent objects of a message are taken to be distinct, as they are in every message Unmarshal itself fills.
- MessageRoundTrip.OperationRoundTrip: encodings are shorter than 2^63 bytes, as every Go slice is; nil elements of an extent list, on which the original panics, do not occur.
- CpioLayout.RestoreAfterDiff: decompressing is taken to undo compressing; nothing else is assumed of either.
- CpioCycle.CycleIff: stated for archives that list each name once, like the laws of the difference it rests on.
- Cpio.Cpio.Rm: takes the path that norm_path returns; path.Clean is not part of this model (restore, which cleans the names of its list, takes it as an arbitrary function).
- CpioRoundTrip.RoundTripIff: says nothing of archives whose inode numbers leave 32 bits, or of names of exactly 2^32 - 1 bytes.
- HexPatch.PatchReplacesAll: says nothing of replacements that hold the pattern behind their first byte or end in a prefix of it, where what is written is matched again; what the scan then does is in ScanOverwritesHits, HitsAreMatches and PanicsAtPrefix.
- PayloadTies.Extract: a read delivers all the bytes that are left in the file, memory suffices for every buffer, and a write never fails.
- Files, mmap, standard input and output, the environment, logging and process exit. LoadFromFile drops the error of LoadFromData, and so does the model; the capacity of a mapped slice is its length.
- The other protobuf messages, which repeat the pattern of these three, and the String, Equal, registration and descriptor code.
- The payload header, the choice of the partition, and all codecs; decompression failing inside the codec ends the process in the original and is the same outcome as an unknown format here.
- Cpio.Patch, which edits a copy of each entry and drops it; Ls, Extract, Exists, Test and the parsing of command lines.
- The file status that add reads: its entry is a parameter.
- The sharing of one backing array between old and new key slices in removeByValue.
- Boot image headers, format tables, alignment helpers, findDtbOffset and checkFmtLg.
