# Verified models of the handheld's software

This project models the stateful and parsing cores of the handheld's software in Dafny and proves what they promise.
`dafny verify dfyconfig.toml` checks all of it. Each module follows one source file or one part of it.

- `PackageStore`: the PortMaster package store. An index, generation directories and a shared pool of runtimes are
  changed in an order that keeps every index that can ever be read backed by its files, whatever step a process dies at.
  `Disk` records every intermediate state; `Run` covers any sequence of processes, deaths and power losses.
- `FileTree`, `FileOperations`: recursive copy, move, trash, restore and erase over a tree of paths. Any call may fail and
  the user may cancel at any time; each contract says exactly when the operation succeeds and what is left if it does not.
- `Utf8`, `TextDocument`: the text editor's document over a real UTF-8 codec, from bytes to text and back.
- `EntryNames`, `ZipContainer`, `EntryTree`, `Zip`: entry names, the byte-level check of a ZIP's end record and central
  directory, what a list of entries makes of an empty directory, and packing and unpacking with their limits.
- `Capture`: the one-frame screen capture between compositor, user interface and reading thread, as a state machine over
  events in any order. Nothing is assumed of the compositor's replies except where a contract says "truthful".
- `Applications`: the task manager with its foreground task, input slots, pausing and stopping.
- `TransferServer`, `TransferRequests`: concurrent uploads, one step of one handler at a time in any interleaving; pairing
  attempts, directory pages and download ranges.
- `Png`: the screenshot writer (C) and validator (Python), and that they agree.
- `Assembler`: the two-pass assembler of the NES smoke program.
- `Network`, `AccessPoints`: nmcli's terse output, and the list of networks made from it.
- `CpuControl`, `Backlight`: hardware nodes that may or may not take a value that is written to them.

Failures, cancellation and scheduling are nondeterministic choices. Where a contract compares a counter of faults before and
after, it says that an operation succeeds exactly when its rules allow it and no system call failed. Where a contract speaks of
a trail or a log, it holds at every intermediate step. Functions that only specifications use are ghost.

Seven statements that one might expect turn out to hold only under a condition, which is then stated exactly, with an input
at which it fails:

- Saving an unmodified document does not always reproduce its bytes. The editor decodes with a stateful Qt decoder
  (`mainline/gaming-files/operations.cpp:255-257`), which skips a second byte order mark and keeps an incomplete last character
  without reporting an error, so both are dropped on the next save. `TextDocument.LoadThenSave` says exactly when;
  `TextDocument.SecondMarkIsLost` and `TextDocument.BrokenEndingIsLost` are such inputs.
- A text that begins with U+FEFF does not load back as itself (`TextDocument.SaveThenLoad`, `TextDocument.MarkedTextIsLost`), and
  for the same reason rows whose first field begins with U+FEFF do not (`Network.PrintThenParse`, `Network.MarkedRowIsLost`).
- Packing and unpacking does not always give the same names: the unpacker reads names with a conversion that drops a leading
  U+FEFF (`mainline/gaming-files/zip.cpp:107`). `Zip.PackThenUnpack` says exactly when the same forest comes back;
  `Zip.MarkedNameChanges` and `Zip.MarkedNameCollides` are selections for which it does not.
- nmcli output that is accepted is not always the rendering of its rows: a byte order mark in front and an incomplete character
  at the end are dropped. `Network.AcceptedPrints` says exactly when it is; `Network.BrokenRowIsAccepted` is output that is not.
- After an index was published but not synced, the next process may delete runtimes of the older index, which a power loss may
  still bring back. `PackageStore.Store.Open` says for which indexes, `PackageStore.UninstallThenOpen` and
  `PackageStore.InstallThenOpen` after which uninstalls and installs (a rollback never does); `PackageStore.LoseRuntime` is such a
  run. It needs a version whose runtime is no longer in the cache: one that was replaced there by a newer file of the same name,
  brought by a version that has gone since.
- A program that was asked to end is not always free to do so: if it leaves the foreground before it has ended, it is halted until
  it is killed for being late (`Applications.Applications.StopThenBackground` says exactly which). A task killed while it starts
  may be marked as paused without being halted, which is the one way in which flag and signals differ (`Applications.Run`).
- A finished upload handler has not always released its permit: if removing the temporary file fails, the exception passes the
  release by (`TransferServer.Server.CleanUp`, with the runs `TransferServer.LosePermit` and `TransferServer.LoseBoth`).

## Model

| member | source | states |
|---|---|---|
| PackageStore.Disk.Publish | mainline/gaming-ports/manager.py:54-74 | the three-way commit: the index stays as it was, or is replaced and synced, or is replaced but not known to be durable, and then both may come back after a power loss |
| PackageStore.Shelves.FetchRuntimes | mainline/gaming-ports/manager.py:211-229 | succeeds exactly when every runtime the package needs is a cached file that still has its digest or a download with the right MD5; what is used is checked accordingly |
| PackageStore.Shelves.Find | mainline/gaming-ports/manager.py:211-229 | one runtime: the cached file if it still has its digest, otherwise a download with the right MD5, otherwise none |
| PackageStore.Store.PublishIndex | mainline/gaming-ports/manager.py:54-74 | publishing an index whose files are all in place keeps every index that can be read or come back backed, at every step, and shows no index but the old ones and the new one |
| PackageStore.Store.CollectRuntimes | mainline/gaming-ports/manager.py:273-289 | after a collection the pool holds exactly the tokens that current and previous versions refer to, beside files that are no runtimes, and the cache exactly the referenced entries; it publishes exactly if the cache changes; no step takes a referenced file; it fails exactly on a malformed record or a failed write |
| PackageStore.Store.ForgetRuntimes | mainline/gaming-ports/manager.py:282-285 | the cache is reduced to what is referenced, and published exactly if that changes it |
| PackageStore.Store.Sweep | mainline/gaming-ports/manager.py:287-289 | deletes every unreferenced runtime of the pool and nothing else, one at a time, with every sheltered index backed throughout |
| PackageStore.Store.PlaceRuntimes | mainline/gaming-ports/manager.py:360-365 | every download lands in the pool under its own digest, and no other pool file changes except to become intact |
| PackageStore.Store.Stage | mainline/gaming-ports/manager.py:331-368 | before the publication nothing that was there is altered or removed; the new generation appears whole or not at all |
| PackageStore.Store.Install | mainline/gaming-ports/manager.py:328-393 | succeeds exactly when the package is valid, obtainable and unpacked and no write fails; then the index names the new version, with the download's digest and information, and the old one as previous; the pool is exactly what is referenced; every generation directory of the package is the current or the previous one, and directories of other packages or with other names stay; after a publication that could not be synced both the old and the new index are backed; at every step any index that can be read has the old packages or the new, with all their files |
| PackageStore.Store.Commit | mainline/gaming-ports/manager.py:369-393 | the publication and what follows: rejected with the old packages and directories back, published but not synced with both the old and the new index backed, or complete |
| PackageStore.Store.PublishVersion | mainline/gaming-ports/manager.py:369-385 | the new version is in the index, published or not known to be synced, or the old index is taken back; the old one stays backed in each case |
| PackageStore.Store.Withdraw | mainline/gaming-ports/manager.py:383-387 | after a failed publication the new generation is gone, and unused runtimes too unless a removal fails; the old index stays backed at every step |
| PackageStore.Store.RemoveOldGenerations | mainline/gaming-ports/manager.py:388-391 | afterwards every generation directory of the package is the current or the previous one, and directories of other packages, or without the name of a generation, are left alone |
| PackageStore.Store.CleanUp | mainline/gaming-ports/manager.py:388-392 | after a publication only what no version needs is deleted, and all of that |
| PackageStore.Store.Rollback | mainline/gaming-ports/manager.py:395-406 | swaps current and previous exactly when a previous version with its directory exists; files are untouched, and if the swap could not be synced both indexes are backed and the old one is sheltered, so that no later collection takes its runtimes |
| PackageStore.Store.Uninstall | mainline/gaming-ports/manager.py:408-421 | takes the package out of the index before anything is deleted; if that could not be synced both indexes are backed; afterwards the pool is exactly what the remaining versions refer to |
| PackageStore.Store.ClearShelf | mainline/gaming-ports/manager.py:418-420 | deletes a package directory that no entry of the index uses, and then unused runtimes |
| PackageStore.Store.Open | mainline/gaming-ports/manager.py:252-271 | opening is rejected exactly for a malformed record, and then leaves index and disk alone; otherwise it collects, and once it has, an index that a power loss may bring back has all its files exactly if it was not exposed before; what was exposed lacks a file then, or did so from the start |
| PackageStore.Perform | mainline/gaming-ports/manager.py:439-459 | one process: opening and one action, keeping every index that can be read or come back backed at every step, those exposed at the start aside, and writing no entry with more than one version of history |
| PackageStore.Run | mainline/gaming-ports/manager.py:54-74 | over any sequence of processes, each ended after any step by a kill or by a power loss that brings back any index still possible but those exposed when the process began: no index that can be read lacks a generation or a runtime, and no entry ever has more than one version of history |
| PackageStore.NewIndexBacked | mainline/gaming-ports/manager.py:369-378 | the index an install publishes is backed once its runtimes and its generation are in place |
| PackageStore.PublicationGood | mainline/gaming-ports/manager.py:379-382 | right after a publication that could not be synced, both the old and the new index are backed, and so is every index not exempt |
| PackageStore.SwapBacked | mainline/gaming-ports/manager.py:404-405 | the index a rollback publishes is backed and refers to the same runtimes as before |
| PackageStore.RestBacked | mainline/gaming-ports/manager.py:416-417 | the index an uninstall publishes is backed |
| PackageStore.FreshGenerationGood | mainline/gaming-ports/manager.py:383-386 | taking back a generation that no readable index names is safe |
| PackageStore.ShrunkGood | mainline/gaming-ports/manager.py:388-391 | every intermediate state of removing unneeded directories keeps every readable index backed |
| PackageStore.SweptGood | mainline/gaming-ports/manager.py:287-289 | deleting a runtime that the visible index does not need spoils no sheltered index |
| PackageStore.CollectedExactly | mainline/gaming-ports/manager.py:273-289 | a completed collection leaves an index without a file exactly if it was exposed |
| PackageStore.GenerationsOfPackage | mainline/gaming-ports/manager.py:85-88 | only a package's own entry names directories below its own, because identifiers map to directories one to one |
| PackageStore.SlugInjective | mainline/gaming-ports/manager.py:85-88 | two package identifiers have the same directory only if they are the same |
| PackageStore.PackageIdMeans | mainline/gaming-ports/manager.py:85-88 | an identifier is a directory name of 1 to 111 lower-case letters, digits, "_", "." and "-", the first a letter or digit, followed by ".zip", other than "portmaster.zip" and themes |
| PackageStore.RuntimeNameMeans | mainline/gaming-ports/manager.py:211-214 | a file name is a runtime's exactly if it is one or more letters, digits, "_", "." and "-" followed by ".squashfs" |
| PackageStore.RollbackTwice | mainline/gaming-ports/manager.py:395-406 | two rollbacks in a row restore the record exactly when the previous version has no history of its own |
| PackageStore.RollbackAndBack | mainline/gaming-ports/manager.py:395-406 | the same of the index file over two calls of Rollback, which both succeed exactly when the first is allowed and nothing fails |
| PackageStore.HistoryDepth | mainline/gaming-ports/manager.py:369-375 | the entry an install writes has at most one version of history, and two rollbacks bring it back |
| PackageStore.CollectionAfterUnsynced | mainline/gaming-ports/manager.py:273-289 | an index that a power loss may bring back survives a collection that publishes nothing exactly when it refers only to runtimes of the visible index, or to files that no collection deletes |
| PackageStore.UninstallThenOpen | mainline/gaming-ports/manager.py:271-289 | an uninstall that was not synced, then the next process: the old index may still come back without one of its runtimes exactly if the cache had nothing to forget and the package used a runtime that no other does |
| PackageStore.InstallThenOpen | mainline/gaming-ports/manager.py:328-393 | an install that was not synced, then the next process: the old index may still come back without one of its runtimes exactly if the new cache has nothing to forget and the version that was dropped used a runtime that nothing else does |
| PackageStore.OpenAfterUnsynced | mainline/gaming-ports/manager.py:252-289 | what both rest on: opening loses a runtime of an index that may still come back exactly if the visible index has nothing to forget and does not refer to that runtime |
| PackageStore.UnsyncedUninstallCanLoseRuntime | mainline/gaming-ports/manager.py:408-420 | a concrete store in which the condition of the previous row is met |
| PackageStore.LoseRuntime | mainline/gaming-ports/manager.py:408-420 | and the run itself: on that store, an unsynced uninstall and the next opening leave an index that can come back without its runtime |
| PackageStore.UnsyncedInstallCanLoseRuntime | mainline/gaming-ports/manager.py:369-378 | a concrete store in which an unsynced install meets the condition |
| FileTree.RenamedRelocates | mainline/gaming-files/operations.cpp:146-147 | a rename within a volume carries a tree as it is to a new place |
| FileTree.NothingBelow | mainline/gaming-files/operations.cpp:132-133 | nothing lies below a path that does not exist or is not a directory |
| FileOperations.Volume.Create | mainline/gaming-files/operations.cpp:101-127 | a file appears whole under a new name or not at all |
| FileOperations.Volume.CopyTree | mainline/gaming-files/operations.cpp:56-129 | for every cancellation and every failure, nothing outside the destination changes and what is at the destination is part of the source; success means an exact copy, and happens exactly when the tree may be copied and nothing fails; it terminates |
| FileOperations.Volume.CopyChildren | mainline/gaming-files/operations.cpp:81-90 | copies the children of a directory one by one, counting entries across the whole copy |
| FileOperations.Volume.CopyChild | mainline/gaming-files/operations.cpp:84-88 | one child more, with the count and the limits shared by the whole copy |
| FileOperations.Volume.Rename | mainline/gaming-files/operations.cpp:146-147 | moves a tree in one step or leaves everything |
| FileOperations.Volume.MoveToTrash | mainline/gaming-files/operations.cpp:155-156 | the tree is moved whole to a fresh place in the trash or stays |
| FileOperations.Volume.Transfer | mainline/gaming-files/operations.cpp:130-157 | at every step a complete copy of the source is at the source, at the destination or in the trash; no other path that existed changes; it succeeds exactly when the source exists and is not guarded, the destination is free with a directory above it and not inside the source, the copy is within the limits and nothing fails, and then the destination equals the source; whatever a failure leaves at a new destination is part of the source |
| FileOperations.Volume.TransferByCopy | mainline/gaming-files/operations.cpp:149-156 | the copying half of the same: a copy, and for a move across volumes the original whole in the trash afterwards; a failed copy leaves at most a part of the source at a new destination |
| FileOperations.Volume.EraseTree | mainline/gaming-files/operations.cpp:158-177 | removes nothing outside the tree; success, which happens exactly for an erasable tree and without failures, removes all of it |
| FileOperations.Volume.EraseChildren | mainline/gaming-files/operations.cpp:170-175 | empties a directory bottom up |
| FileOperations.Volume.Unlink | mainline/gaming-files/operations.cpp:165-167 | removes one file or empty directory or nothing |
| FileOperations.Volume.Trash | mainline/gaming-files/operations.cpp:178-189 | a deletion that is not permanent moves the tree to the trash whole |
| FileOperations.Volume.RestoreTrash | mainline/gaming-files/operations.cpp:227-238 | a restore moves the trashed tree to its origin, never over something else; it succeeds exactly when the entry has an origin it can go back to and nothing fails; otherwise the origin is remembered |
| FileOperations.Volume.TrashAndRestore | mainline/gaming-files/operations.cpp:178-238 | trashing and then restoring brings back the very tree, and succeeds exactly when the entry may be trashed, its place in the trash is no mount point and nothing fails |
| FileOperations.Volume.MoveAndBack | mainline/gaming-files/operations.cpp:130-147 | a move and the move back leave the tree exactly as it was, and succeed exactly when source and destination are what the rules ask and nothing fails |
| FileOperations.NotInside | mainline/gaming-files/operations.cpp:134-137 | the check on the destination's parent means that the destination is not inside the source |
| FileOperations.ThereAndBack | mainline/gaming-files/operations.cpp:227-234 | two renames that undo each other restore every path |
| FileOperations.TrashKeepsCopy | mainline/gaming-files/operations.cpp:149-156 | after a cut across volumes both the copy and the trashed original are complete |
| FileOperations.AllErased | mainline/gaming-files/operations.cpp:170-176 | a directory whose children are gone holds nothing any more |
| Utf8.DecodeEncode | mainline/gaming-files/operations.cpp:255-257 | decoding undoes encoding for every text |
| Utf8.EncodeDecode | mainline/gaming-files/operations.cpp:255-257 | input decoded without error is the encoding of its text followed by what a stateful decoder keeps back |
| Utf8.KeptUnfinished | mainline/gaming-files/operations.cpp:255-257 | what the decoder keeps back is a lead byte at the very end with fewer continuation bytes than it calls for |
| Utf8.EncodedMark | mainline/gaming-files/operations.cpp:252-254 | an encoding begins with a byte order mark exactly when its text begins with U+FEFF |
| Utf8.FromEncoded | mainline/gaming-files/zip.cpp:107 | what is encoded and read back with the stateless conversion loses a leading U+FEFF, and nothing else |
| TextDocument.UnixOfDos | mainline/gaming-files/operations.cpp:259-262 | expanding and then collapsing line ends gives the text back, and the expanded form passes the mixed-ending check |
| TextDocument.DosOfUnix | mainline/gaming-files/operations.cpp:259-262 | collapsing and then expanding gives back any text whose line ends are all CRLF |
| TextDocument.LoadThenSave | mainline/gaming-files/operations.cpp:239-291 | saving the unmodified text reproduces the loaded bytes, mark and CRLF included, exactly when they did not begin with two marks and did not break off inside a character |
| TextDocument.SecondMarkIsLost | mainline/gaming-files/operations.cpp:252-257 | for instance two marks before an "a": the second is gone after a save |
| TextDocument.BrokenEndingIsLost | mainline/gaming-files/operations.cpp:255-257 | for instance an "a" before a lone 0xC3: the latter is gone after a save |
| TextDocument.SaveThenLoad | mainline/gaming-files/operations.cpp:280-291 | any text that a save accepts loads again as itself exactly when it does not begin with U+FEFF |
| TextDocument.MarkedTextIsLost | mainline/gaming-files/operations.cpp:252-257 | for instance U+FEFF before an "a": the text loads as "a" |
| TextDocument.LoadableExactly | mainline/gaming-files/operations.cpp:239-267 | second marks and broken endings aside, exactly the files that a save could have written can be loaded |
| Utf8.KeptIffCutShort | mainline/gaming-files/operations.cpp:255-257 | whether the decoder silently keeps back an ending can be read off the last three bytes |
| TextDocument.LinesFit | mainline/gaming-files/operations.cpp:265-267 | exactly the texts without an over-long line pass |
| TextDocument.UnitsMean | mainline/gaming-files/operations.cpp:265-267 | the length that is limited is the number of UTF-16 code units |
| TextDocument.CountMeans | mainline/gaming-files/operations.cpp:263-264 | there is one line more than there are line feeds |
| TextDocument.UnpairedMeans | mainline/gaming-files/operations.cpp:260-262 | the test for mixed endings finds a line feed exactly if one has no carriage return before it |
| TextDocument.PairedMeans | mainline/gaming-files/operations.cpp:259-262 | and Windows endings exactly if a carriage return stands before a line feed |
| TextDocument.Document.Load | mainline/gaming-files/operations.cpp:239-279 | succeeds exactly on a regular file whose bytes can be edited; otherwise the document is untouched |
| TextDocument.Document.Ours | mainline/gaming-files/operations.cpp:293-307 | the file may be written exactly if it is still, on the same inode, what was last loaded or saved, or if it is another path and does not exist |
| TextDocument.Document.Save | mainline/gaming-files/operations.cpp:280-325 | a save to the document's own path replaces only the bytes last loaded or saved; any other path must be new; a failed save leaves the document as it was and the file either old or completely new |
| TextDocument.Disk.Replace | mainline/gaming-files/operations.cpp:301-304 | a file is replaced whole or not at all |
| EntryNames.SafeEntryStaysInside | mainline/gaming-files/zip.cpp:22-34 | following a safe name from any directory leads strictly below it, to exactly the path the name spells |
| EntryNames.EntryPathInjective | mainline/gaming-files/zip.cpp:22-34 | two names reach the same place only if they differ in nothing but a final slash |
| EntryNames.NameRoundTrip | mainline/gaming-files/zip.cpp:184-212 | the entry name of a path leads back to the path, with or without the slash of a directory |
| EntryNames.NameShown | mainline/gaming-files/zip.cpp:107-118 | an entry name without its leading U+FEFF is the name of the path whose first part is without it |
| EntryNames.SafeEntryExactly | mainline/gaming-files/zip.cpp:22-34 | the names accepted are exactly those made of 1 to 64 safe parts, 4096 bytes at most, with or without a slash behind them |
| ZipContainer.FindEnd | mainline/gaming-files/zip.cpp:47-53 | searching the last 65,557 bytes finds the last end record exactly when the file has one anywhere (APPNOTE section 4.3.16) |
| ZipContainer.CheckDirectory | mainline/gaming-files/zip.cpp:66-88 | accepts exactly a gapless sequence of the expected number of supported records (APPNOTE section 4.3.12); it is cancelled exactly if the user cancels before a record that the walk comes by |
| ZipContainer.Inspect | mainline/gaming-files/zip.cpp:71-84 | the tests on one record, made in place, are exactly those of a supported record |
| ZipContainer.TilingUnique | mainline/gaming-files/zip.cpp:66-86 | a central directory splits into records in one way at most |
| ZipContainer.ReadInOrder | mainline/gaming-files/zip.cpp:68-86 | records read from the front are the front of every such splitting |
| ZipContainer.Stuck | mainline/gaming-files/zip.cpp:71-84 | a directory whose next record cannot be used has no splitting at all |
| ZipContainer.TooMany | mainline/gaming-files/zip.cpp:78 | more records than expected rule out every splitting of the expected number |
| ZipContainer.ReadDirectory | mainline/gaming-files/zip.cpp:61-88 | a directory beyond the file or above 16 MiB is refused, any other judged by its records |
| ZipContainer.CheckNames | mainline/gaming-files/zip.cpp:47-88 | a file is accepted exactly when its last end record describes a complete directory, unless the user cancels before a record that is come by |
| ZipContainer.Check | mainline/gaming-files/zip.cpp:47-88 | the same with the names read as the unpacker reads them |
| ZipContainer.DescriptionUnique | mainline/gaming-files/zip.cpp:47-88 | a file is described by one end record and one list of records |
| ZipContainer.SafeNameExactly | mainline/gaming-files/zip.cpp:82-84 | a stored name is safe exactly if it has no zero byte and, read as UTF-8, is made of safe parts |
| ZipContainer.RecordWritten | mainline/gaming-files/zip.cpp:71-84 | a central record written field by field (APPNOTE section 4.3.12) is read back, and supported exactly if it is a regular file, a directory or of no type, not encrypted, on this disk, stored or deflated, with a safe name |
| ZipContainer.WrittenDescribed | mainline/gaming-files/zip.cpp:47-88 | a file written as front, central directory and end record (APPNOTE section 4.3.16) is described by its number of entries and no other, exactly if all are ordinary, 50,000 at most, and their directory has 16 MiB at most |
| ZipContainer.CheckWritten | mainline/gaming-files/zip.cpp:47-88 | and the check accepts exactly those written files |
| ZipContainer.OneEntryDescribed | mainline/gaming-files/zip.cpp:76-81 | a file of 69 bytes with one entry is described, and with the mode of a link it is not |
| EntryTree.LaysExactly | mainline/gaming-files/zip.cpp:118-131 | a list of entries can be extracted exactly when no file is in another entry's way, and then yields exactly what it names and the directories that lead there |
| EntryTree.HoldsDecides | mainline/gaming-files/zip.cpp:118-131 | the entries alone decide the extracted tree |
| EntryTree.LayStep | mainline/gaming-files/zip.cpp:118-131 | one entry collides exactly when a file is in its way or it is a file that is already there |
| EntryTree.ForestRoundTrip | mainline/gaming-files/zip.cpp:184-235 | extracting the entries of a forest, in the order they are stored, gives the forest, empty directories included |
| Zip.Packer.AddContent | mainline/gaming-files/zip.cpp:214-232 | what is stored of a file is what it held, or the entry fails because the file changed or could not be read |
| Zip.Packer.Header | mainline/gaming-files/zip.cpp:186-202 | the checks before an entry's header, against the counters so far |
| Zip.Packer.Add | mainline/gaming-files/zip.cpp:184-235 | adds a node with all it holds exactly when it may be packed within the limits and nothing fails; the total never passes 16 GiB |
| Zip.Packer.AddChildren | mainline/gaming-files/zip.cpp:205-212 | the entries of a directory's children, in listed order, with the counters shared |
| Zip.AddSource | mainline/gaming-files/zip.cpp:237-244 | one selected source more |
| Zip.AddSources | mainline/gaming-files/zip.cpp:236-245 | all selected sources, refused exactly for equal names or when they do not fit |
| Zip.Pack | mainline/gaming-files/zip.cpp:162-255 | publishes an archive exactly when the selection may be packed and nothing disturbs it; it then holds the selection's entries |
| Zip.Unpacker.WriteBlocks | mainline/gaming-files/zip.cpp:132-150 | data is written block by block, and the total never passes 16 GiB, without overflow |
| Zip.Unpacker.ExtractFile | mainline/gaming-files/zip.cpp:126-150 | a file is created only where nothing is, with exactly its data |
| Zip.Unpacker.Extract | mainline/gaming-files/zip.cpp:103-151 | one entry, refused exactly by its name, kind, declared size, place or data |
| Zip.Unpacker.ExtractAll | mainline/gaming-files/zip.cpp:100-155 | all entries, exactly when each is accepted in turn and their number is the expected one |
| Zip.Unpacker.Unpack | mainline/gaming-files/zip.cpp:89-159 | the destination, in a directory that exists, is either absent or the complete tree; nothing else changes |
| Zip.Unpacker.UnpackZip | mainline/gaming-files/zip.cpp:36-160 | container check and extraction together: the entries extracted are as many as the central directory lists |
| Zip.GraftedExactly | mainline/gaming-files/zip.cpp:156-158 | what is published is the staged tree itself, and nothing else changes |
| Zip.ZipNamesFaithful | mainline/gaming-files/zip.cpp:107-118 | the names written by packing are read back by unpacking as the same paths but for a U+FEFF at the very front |
| Zip.NamesRead | mainline/gaming-files/zip.cpp:107 | a name as it is stored, with or without the slash of a directory, read back |
| Zip.PackedGood | mainline/gaming-files/zip.cpp:184-192 | everything a pack accepts has a proper path and a safe name |
| Zip.ReadBackMeans | mainline/gaming-files/zip.cpp:102-151 | entries read back from an archive mean what was stored but for a U+FEFF at the front of a name, and without one pass every check of the unpacker |
| Zip.PackThenUnpack | mainline/gaming-files/zip.cpp:36-255 | whatever was packed from unchanging sources unpacks to the same forest of names, kinds and contents exactly when no selected name begins with U+FEFF |
| Zip.MarkedNameLost | mainline/gaming-files/zip.cpp:107-118 | of the selected names that begin with U+FEFF, none of the longest is there after unpacking |
| Zip.MarkedNameChanges | mainline/gaming-files/zip.cpp:107-118 | for instance a file named U+FEFF "a": it is packed, and unpacks as "a" |
| Zip.MarkedNameCollides | mainline/gaming-files/zip.cpp:107-130 | together with a file named "a" the archive cannot be unpacked at all |
| Capture.SafeMeans | mainline/gaming-shell/handheld.cpp:439-473 | in a permitted history a frame is read only when the compositor's last word, said since the capture was asked for, is that privacy is off, and no scene change has overtaken the capture; an image is delivered only for such a capture and after privacy is on again |
| Capture.SeenTruly | mainline/gaming-shell/handheld.cpp:393-473 | the running summary of a history tells the truth about it |
| Capture.SeenOwed | mainline/gaming-shell/handheld.cpp:393-473 | captures asked for less captures answered is the number kept |
| Capture.Extend | mainline/gaming-shell/handheld.cpp:393-473 | an event that is permitted keeps the history permitted |
| Capture.Session.Fail | mainline/gaming-shell/handheld.cpp:88-100 | giving up answers a capture under way once, without an image, the session is no longer ready, and a second time changes nothing |
| Capture.Session.RequestPolicy | mainline/gaming-shell/handheld.cpp:288-323 | at most one request is pending, and the request sent or the step of the capture that follows is fixed exactly; with none pending the compositor shows the game, panel, overlay and volume that the desktop is to show, with privacy as the phase needs it, and the session is ready exactly if the router is; a window is asked to close only if it is still the one in front |
| Capture.WishHelps | mainline/gaming-shell/handheld.cpp:296-306 | nothing is asked for exactly in agreement; otherwise a granted request leaves one difference less, and privacy is asked for first |
| Capture.FourGrants | mainline/gaming-shell/handheld.cpp:296-306 | whatever the compositor's state, four granted requests bring agreement |
| Capture.Session.Send | mainline/gaming-shell/handheld.cpp:319-323 | a request is sent only when none is pending |
| Capture.Session.Settle | mainline/gaming-shell/handheld.cpp:310-318 | a capture takes its next step, and the session counts as ready, only when the compositor shows all that the desktop is to show |
| Capture.Session.Advance | mainline/gaming-shell/handheld.cpp:311-312 | exactly what is due for the capture happens: the start of its read, or its one answer |
| Capture.Session.SelectInput | mainline/gaming-shell/handheld.cpp:183-200 | handing over the input leaves the session ready only after the router answers, changes nothing else, and fails it exactly if the channel is lost |
| Capture.Session.ReadCapture | mainline/gaming-shell/handheld.cpp:439-458 | a read starts with privacy off by a word newer than the capture; the branch that would cancel it there cannot be reached |
| Capture.Session.FinishCapture | mainline/gaming-shell/handheld.cpp:468-473 | the image is emitted exactly once, with privacy on |
| Capture.Session.ReadPolicy | mainline/gaming-shell/handheld.cpp:324-354 | every reply, however wrong, leaves the session consistent and either waiting, given up or in agreement with the compositor; an accepted one becomes the state, and if it grants all that the shell wants the due step of the capture follows; any other refusal than a stale reply ends the session, but a window that cannot be closed only ends the wish to close it |
| Capture.Session.Weigh | mainline/gaming-shell/handheld.cpp:337-349 | a stale reply is asked for again, with the state forgotten, unless four were before; any other refusal fails the session, and agreement is recorded and followed |
| Capture.Session.SampleFailed | mainline/gaming-shell/handheld.cpp:232-235 | a failed low-priority sample never stands in the way |
| Capture.Session.PolicyLost | mainline/gaming-shell/handheld.cpp:34-37 | a missing reply fails the session and a capture under way, unless it was only a sample, which is dropped; with nothing pending nothing changes |
| Capture.Session.RequestCapture | mainline/gaming-shell/handheld.cpp:393-416 | accepted exactly when idle and not failed, and answered at once when it cannot be served; it waits for a frame of the user interface exactly if the compositor shows any of it |
| Capture.Session.FenceCapture | mainline/gaming-shell/handheld.cpp:417-438 | a scene change or a sensitive page cancels the capture before its fence |
| Capture.Session.FenceDone | mainline/gaming-shell/handheld.cpp:428-432 | only a capture that waits for its fence goes on, by asking for privacy to be lowered; any other phase is left as it is |
| Capture.Session.ReaderDone | mainline/gaming-shell/handheld.cpp:445-452 | the image is kept only if the scene is the one the capture was asked for and nothing sensitive shows; then privacy is asked to be raised |
| Capture.Session.Judge | mainline/gaming-shell/handheld.cpp:448-451 | which result becomes the image, and which error stands instead: a sensitive page or another scene first, then a read that failed, then the error there was |
| Capture.Session.CancelCapture | mainline/gaming-shell/handheld.cpp:459-467 | a cancelled capture has no image and waits for privacy |
| Capture.Session.SceneChange | mainline/gaming-shell/handheld.cpp:205-220 | a scene change ends every capture under way and drops a sample; afterwards the session waits for an answer, has given up or agrees with the compositor |
| Capture.Session.RouterMessage | mainline/gaming-shell/handheld.cpp:141-182 | a broken router message ends the session; any other is taken over, and the session goes on from there |
| Capture.Session.CloseRequested | mainline/gaming-shell/handheld.cpp:56 | the window in front is asked to close, if the compositor agrees on which it is; a wish to close another one is dropped |
| Capture.Session.SampleTick | mainline/gaming-shell/handheld.cpp:60-62 | a session that is ready and in agreement asks for a sample, and only while no capture is under way |
| Capture.Run | mainline/gaming-shell/handheld.cpp:205-473 | for every sequence of events and whatever the compositor replies: reads and deliveries only as permitted, captures asked for exceed those answered by one exactly while one is under way; and with a truthful compositor the screen is private whenever the session is ready and no capture runs |
| Capture.Deliver | mainline/gaming-shell/handheld.cpp:393-473 | a session that is ready and in agreement with the compositor delivers what was read, with privacy on again, if the scene stays, nothing sensitive shows and the compositor grants what it is asked for |
| Applications.Applications.Activate | mainline/gaming-shell/applications.cpp:67-74 | brings a task to the foreground exactly if it exists, is neither stopping nor done and is not there already; the task it replaces is paused unless it is a utility |
| Applications.Applications.Background | mainline/gaming-shell/applications.cpp:63-66 | pauses the foreground task unless it is a utility, even if it was asked to end before |
| Applications.Task.Suspend | mainline/gaming-shell/applications.cpp:57-62 | a task's flag and the signals its group received agree, and a signal is sent only when the flag changes |
| Applications.Applications.FreeSlot | mainline/gaming-shell/applications.cpp:156 | the lowest free input slot, always one of 0 to 3 |
| Applications.Pigeonhole | mainline/gaming-shell/applications.cpp:156 | if every slot below n is taken there are at least n tasks |
| Applications.Applications.LaunchPrepared | mainline/gaming-shell/applications.cpp:130-185 | a new task is added exactly when its name is new, fewer than four run and memory, platform and program allow it; it gets the foreground and the lowest free slot; otherwise it succeeds exactly when the task of that name can be brought to the front |
| Applications.Applications.Stop | mainline/gaming-shell/applications.cpp:186-190 | the foreground task is sent SIGTERM, after SIGCONT if it was paused, and put on the clock |
| Applications.Applications.StopAll | mainline/gaming-shell/applications.cpp:191-194 | every task is sent SIGTERM, after SIGCONT if it was paused, and put on the clock |
| Applications.Applications.StopThenBackground | mainline/gaming-shell/applications.cpp:63-66 | a started task that leaves the foreground after it was asked to end is halted before it may have ended, exactly if it is no utility |
| Applications.Applications.ForceKill | mainline/gaming-shell/applications.cpp:195-198 | the named task, or the foreground one, is killed |
| Applications.Applications.RequestClose | mainline/gaming-shell/applications.cpp:199-202 | the compositor is asked exactly when there is a foreground task that is not stopping, after the named task, if it is another, could be brought there |
| Applications.Applications.Started | mainline/gaming-shell/applications.cpp:174 | what was decided about a task before it started is carried out when it starts |
| Applications.Applications.FailedToStart | mainline/gaming-shell/applications.cpp:175-177 | a task that did not start has failed with -1 and leaves the list, and only it; the failure is shown if it was in front |
| Applications.Applications.Exited | mainline/gaming-shell/applications.cpp:178-181 | a finished task is done, failed only if it was not being stopped, and on the clock; what is left of its group is sent SIGTERM |
| Applications.Applications.Complete | mainline/gaming-shell/applications.cpp:218-226 | exactly the one task leaves; the foreground is empty if it was there |
| Applications.Applications.AdvanceStop | mainline/gaming-shell/applications.cpp:208-217 | tasks of which nothing is left go, exactly those that outstay 1500 ms are killed, and the timer goes on exactly if something remains to be stopped |
| Applications.Run | mainline/gaming-shell/applications.cpp:57-226 | in every reachable state: at most four tasks, distinct names and slots, the foreground among them; a started task that is wanted is halted exactly when it is in the background and no utility, and any started task exactly when it is paused and was told so, whatever the order of events; a utility was never told to stop; whatever is to end is on the clock |
| TransferServer.ComponentsSpellThePath | mainline/gaming-files/transfer_server.py:56-65 | allowed parts spell the path again; none is empty, "." or "..", none has a separator |
| TransferServer.ComponentsExactly | mainline/gaming-files/transfer_server.py:56-65 | the paths allowed are exactly those made of 1 to 64 shown parts, 4096 bytes at most, and the empty one |
| TransferServer.OneNameExactly | mainline/gaming-files/transfer_server.py:347-348 | an upload may have any name that is one such part |
| TransferServer.NeverTemporary | mainline/gaming-files/transfer_server.py:344-348 | no upload can take the name of a temporary file |
| TransferServer.Server.Arrive | mainline/gaming-files/transfer_server.py:344-350 | refused with 400 exactly for a missing or excessive length or a bad name, with 429 exactly when both permits are held, by uploads, downloads or uploads that could not clean up |
| TransferServer.Server.ArriveDownload | mainline/gaming-files/transfer_server.py:399-404 | a download is refused with 400 exactly for a bad or empty path, with 429 exactly when both permits are held |
| TransferServer.Server.EndDownload | mainline/gaming-files/transfer_server.py:450-452 | a download that ends returns its permit |
| TransferServer.Server.OpenFolder | mainline/gaming-files/transfer_server.py:353 | a folder whose path is not allowed ends the upload with 400, one that cannot be opened with 403 or, for want of space, 507 |
| TransferServer.Server.Look | mainline/gaming-files/transfer_server.py:354-359 | an existing name is refused with 409 before anything is received |
| TransferServer.Server.Measure | mainline/gaming-files/transfer_server.py:360-363 | 507 exactly if the declared length would not leave 16 MiB free; the temporary name is a new one |
| TransferServer.Server.Create | mainline/gaming-files/transfer_server.py:364-366 | the temporary file appears empty, and nothing else changes |
| TransferServer.Server.Receive | mainline/gaming-files/transfer_server.py:365-383 | the temporary grows by exactly the next bytes the client sends, at most a block and never beyond the declared length; the upload goes on exactly while server and client are there and the write succeeds; a failed write is answered with 507 for want of space and 403 otherwise |
| TransferServer.Server.Ready | mainline/gaming-files/transfer_server.py:384-385 | a server that has stopped publishes nothing |
| TransferServer.Server.Publish | mainline/gaming-files/transfer_server.py:96-109 | publication by rename or by link happens exactly if the name is free and the system allows it, never replaces a file, and publishes exactly the declared bytes; otherwise 409 |
| TransferServer.Server.Unlink | mainline/gaming-files/transfer_server.py:101-102 | after a publication by link only the temporary name goes |
| TransferServer.Server.Answer | mainline/gaming-files/transfer_server.py:386-388 | a 201 follows the publication |
| TransferServer.Server.CleanUp | mainline/gaming-files/transfer_server.py:389-397 | a finished handler has removed its temporary and returned its permit, exactly unless there was a temporary and its removal failed |
| TransferServer.Server.Outside | mainline/gaming-files/transfer_server.py:96-109 | changes from outside are recorded and cannot touch temporaries |
| TransferServer.Server.Step | mainline/gaming-files/transfer_server.py:344-397 | any step of any handler leaves every visible file as it is but for one new file of declared bytes |
| TransferServer.Server.Put | mainline/gaming-files/transfer_server.py:344-397 | one handler's step keeps every other handler consistent, including that of uploads to one name at most one is published |
| TransferServer.Advance | mainline/gaming-files/transfer_server.py:344-397 | the same on values: consistency, what was published, and publication once per name |
| TransferServer.Serve | mainline/gaming-files/transfer_server.py:344-397 | an upload left to itself is published and answered with 201 exactly if its name is free, the space suffices and the client sends everything; it leaves no other trace and returns its permit |
| TransferServer.LosePermit | mainline/gaming-files/transfer_server.py:389-397 | a run in which the removal of the temporary file fails: the file stays and the permit does not return |
| TransferServer.FillDisk | mainline/gaming-files/transfer_server.py:463-464 | an upload whose write fills the disk is answered with 507 and leaves neither file nor permit behind; any other failed write is answered with 403 |
| TransferServer.LoseBoth | mainline/gaming-files/transfer_server.py:349-397 | after two such uploads every further one is refused although none is running |
| TransferServer.ReceiveAll | mainline/gaming-files/transfer_server.py:368-382 | receiving ends with all declared bytes stored exactly if the client sends them |
| TransferServer.Turn | mainline/gaming-files/transfer_server.py:344-397 | one event keeps all visible files and accounts for every new one |
| TransferServer.Run | mainline/gaming-files/transfer_server.py:344-397 | under every interleaving, a visible file nobody else changed stays as it was, and every new one is some upload's declared bytes |
| TransferRequests.Pairing.Pair | mainline/gaming-files/transfer_server.py:286-294 | a code is refused unread exactly when six wrong ones came within the last minute |
| TransferRequests.Pairing.Prune | mainline/gaming-files/transfer_server.py:286-289 | after pruning, the bounded queue is the whole history filtered to the last sixty seconds |
| TransferRequests.Pairing.Remember | mainline/gaming-files/transfer_server.py:290-294 | any seven successive wrong codes span more than a minute |
| TransferRequests.RecentIsSuffix | mainline/gaming-files/transfer_server.py:287-289 | with a monotone clock, dropping old entries at the front is filtering |
| TransferRequests.RecentAgain | mainline/gaming-files/transfer_server.py:287-289 | pruning earlier loses nothing that a later pruning would keep |
| TransferRequests.OldEnough | mainline/gaming-files/transfer_server.py:290-293 | if fewer than six are recent, the sixth from the end is older than a minute |
| TransferRequests.List | mainline/gaming-files/transfer_server.py:300-324 | one page of at most 200 entries from an offset, with a next offset exactly if more is listed; "limited" exactly when 10,000 entries were counted |
| TransferRequests.ListAll | mainline/gaming-files/transfer_server.py:300-324 | following the pages shows each of the first 10,000 visible entries once, in order |
| TransferRequests.Send | mainline/gaming-files/transfer_server.py:413-449 | what is sent is exactly the requested part of the file, or a prefix of it if the transfer breaks off |
| TransferRequests.Chosen | mainline/gaming-files/transfer_server.py:413-426 | the part chosen is exactly the positions asked for; it cannot be met exactly if there is none |
| Png.DecodeEncodeU32 | mainline/gaming-remote-screen/r46h-drm-capture.c:203-209 | decoding a big-endian number undoes encoding it |
| Png.ReadSerialized | mainline/gaming-remote-screen/fetch-screen.py:296-307 | a written chunk is read back as itself with its checksum accepted (section 5.3 of the PNG standard) |
| Png.SerializedRead | mainline/gaming-remote-screen/fetch-screen.py:296-307 | whatever reads as a chunk is the serialisation of that chunk |
| Png.SplitUnique | mainline/gaming-remote-screen/fetch-screen.py:295-335 | a file splits into chunks in one way at most |
| Png.OneRunMeans | mainline/gaming-remote-screen/fetch-screen.py:323-329 | the two flags of the loop mean that between IDAT chunks there are only IDAT chunks |
| Png.Continues | mainline/gaming-remote-screen/fetch-screen.py:296-335 | if a file is well formed at all, the next chunk passes every test |
| Png.Examine | mainline/gaming-remote-screen/fetch-screen.py:296-332 | the tests on the next chunk, made exactly |
| Png.NextChunk | mainline/gaming-remote-screen/fetch-screen.py:295-335 | a step of the walk keeps what the flags say of the chunks read; a refusal means that no well-formed sequence makes up the file |
| Png.WalkChunks | mainline/gaming-remote-screen/fetch-screen.py:289-335 | the walk terminates and reads in bounds, and a refusal is final |
| Png.CheckRows | mainline/gaming-remote-screen/fetch-screen.py:351-353 | exactly the images whose rows all begin with an allowed filter pass |
| Png.Validate | mainline/gaming-remote-screen/fetch-screen.py:279-353 | a file is accepted exactly when its size is within bounds and it is a screenshot: signature, one header of the given size, one run of image data, one end, no unknown critical chunk for Qt, and rows with permitted filters |
| Png.DescribesMeans | mainline/gaming-remote-screen/fetch-screen.py:279-353 | what the validator's own tests describe is exactly a screenshot, stated without them |
| Png.RowsFitMeans | mainline/gaming-remote-screen/fetch-screen.py:351-353 | the row test looks at the first byte of every row, and at no other |
| Png.SerializedMeans | mainline/gaming-remote-screen/r46h-drm-capture.c:211-228 | a chunk is its length, kind, payload and the checksum of kind and payload |
| Png.DescriptionUnique | mainline/gaming-remote-screen/fetch-screen.py:279-353 | there is at most one such sequence |
| Png.PictureAt | mainline/gaming-remote-screen/r46h-drm-capture.c:398-407 | every channel of every pixel comes from its place in the padded frame buffer |
| Png.Convert | mainline/gaming-remote-screen/r46h-drm-capture.c:397-407 | the conversion loops fill the buffer with exactly that picture |
| Png.ConvertRow | mainline/gaming-remote-screen/r46h-drm-capture.c:402-406 | one row of pixels, blue-green-red turned to red-green-blue |
| Png.ConvertPixel | mainline/gaming-remote-screen/r46h-drm-capture.c:403-405 | one pixel |
| Png.FilterRows | mainline/gaming-remote-screen/r46h-drm-capture.c:235-245 | the rows are copied unchanged, each behind a zero filter byte |
| Png.FilteredRoundTrip | mainline/gaming-remote-screen/r46h-drm-capture.c:240-245 | without their filter bytes the rows are the picture again |
| Png.Output.WriteAll | mainline/gaming-remote-screen/r46h-drm-capture.c:185-201 | everything is written in order although each write may take only a part |
| Png.Output.WriteChunk | mainline/gaming-remote-screen/r46h-drm-capture.c:211-227 | a chunk is written with its length and checksum |
| Png.Output.WritePng | mainline/gaming-remote-screen/r46h-drm-capture.c:229-269 | within the bounds the writer produces exactly the file of the picture, and only the output can fail |
| Png.CompressedFits | mainline/gaming-remote-screen/r46h-drm-capture.c:246-255 | within the validator's bounds the compression bound never exceeds the writer's buffer |
| Png.WrittenIsAccepted | mainline/gaming-remote-screen/r46h-drm-capture.c:229-269 | every file the writer makes is accepted by the validator, and its image is the picture |
| Assembler.Assembler.Label | mainline/gaming-mvp/build-r46h-nes-smoke.py:26-29 | a label is the current address, and only once |
| Assembler.Assembler.Emit | mainline/gaming-mvp/build-r46h-nes-smoke.py:31-34 | appends exactly the given bytes, or nothing if one is out of range |
| Assembler.Assembler.Reference | mainline/gaming-mvp/build-r46h-nes-smoke.py:36-42 | appends the opcode with room for the reference and records where it is |
| Assembler.Assembler.Patch | mainline/gaming-mvp/build-r46h-nes-smoke.py:45-57 | writes no byte but the reference's own; succeeds exactly if label and target allow |
| Assembler.Assembler.Finish | mainline/gaming-mvp/build-r46h-nes-smoke.py:44-58 | succeeds exactly when every label exists and every target fits; then each absolute reference decodes to its label and each branch leads to its label; all other bytes and the length are kept |
| Assembler.DisplacementRoundTrip | mainline/gaming-mvp/build-r46h-nes-smoke.py:53-57 | a displacement read back with its sign is the displacement |
| Assembler.Assemble | mainline/gaming-mvp/build-r46h-nes-smoke.py:16-58 | a list of calls gives a program exactly if its bytes are in range, no label is set twice and every reference names a label it can reach; the program is then the calls' bytes in order with every reference leading to its label |
| Assembler.ProgramUnique | mainline/gaming-mvp/build-r46h-nes-smoke.py:16-58 | and the calls leave no choice: no other bytes realize them |
| Network.ParseLine | mainline/gaming-shell/network.cpp:27-36 | the loop over a line computes its fields |
| Network.LineRoundTrip | mainline/gaming-shell/network.cpp:27-36 | reading an escaped row gives the row |
| Network.ScanRenders | mainline/gaming-shell/network.cpp:27-36 | whatever is read is the escaping of the row read |
| Network.RowsRender | mainline/gaming-shell/network.cpp:25-37 | the rows read from lines are the rows whose escapings the lines are |
| Network.ParseRows | mainline/gaming-shell/network.cpp:21-39 | accepts exactly what decodes and whose every line can be read, and gives its rows |
| Network.PrintThenParse | mainline/gaming-shell/network.cpp:21-39 | rows as nmcli prints them read back as themselves, exactly unless the very first field begins with U+FEFF |
| Network.MarkedRowIsLost | mainline/gaming-shell/network.cpp:21-39 | for instance a row with the one field U+FEFF "a": it reads back as "a" |
| Network.ParseThenPrint | mainline/gaming-shell/network.cpp:21-39 | accepted output is the rendering of its rows up to blank lines, between an optional mark and an incomplete last character |
| Network.AcceptedPrints | mainline/gaming-shell/network.cpp:21-39 | accepted output is the rendering of its rows up to blank lines exactly if it neither begins with a byte order mark nor ends within a character |
| Network.BrokenRowIsAccepted | mainline/gaming-shell/network.cpp:21-39 | the bytes 61 C3 are accepted as the row "a", although they are the rendering of no row |
| AccessPoints.ReadAll | mainline/gaming-shell/network.cpp:97-110 | every row is read in order; an invalid row or a repeated path gives no list |
| AccessPoints.Read | mainline/gaming-shell/network.cpp:97-110 | one row: hidden, invalid, or the access point that its seven fields say |
| AccessPoints.KeyInjective | mainline/gaming-shell/network.cpp:113 | the NUL-joined key tells networks apart |
| AccessPoints.ReadPlain | mainline/gaming-shell/network.cpp:97-110 | names read from rows without control characters contain no NUL |
| AccessPoints.StableSort | mainline/gaming-shell/network.cpp:111 | a stable sort by falling signal |
| AccessPoints.Unique | mainline/gaming-shell/network.cpp:112-113 | one entry per network, of maximal signal and earliest on ties, in falling order |
| AccessPoints.StrongestUnique | mainline/gaming-shell/network.cpp:111-113 | that characterisation leaves no choice: there is exactly one such list |
| AccessPoints.ParseAccessPoints | mainline/gaming-shell/network.cpp:94-115 | the list shown is exactly the strongest access points of the valid rows |
| CpuControl.Cpu.Write | mainline/gaming-shell/cpu-control.py:66-79 | a write that reports success has taken; a failed one may or may not have |
| CpuControl.Cpu.WriteProfile | mainline/gaming-shell/cpu-control.py:82-88 | for every pattern of failures the minimum is at most the maximum after every single write |
| CpuControl.Cpu.Apply | mainline/gaming-shell/cpu-control.py:91-135 | applied means an allowed profile within the scene's cap; write_failed means the previous profile; a refusal writes nothing; the limits stay in order throughout |
| CpuControl.Run | mainline/gaming-shell/device.cpp:323-331 | over any sequence of requests the limits are in order after every write |
| Backlight.Level | mainline/gaming-shell/device.cpp:222 | the level for a percentage is the nearest whole number, a half rounded up, but at least 1 and at most the maximum |
| Backlight.LevelUnique | mainline/gaming-shell/device.cpp:222 | there is one nearest level |
| Backlight.Device.SetBrightness | mainline/gaming-shell/device.cpp:218-228 | sets the user's level and ends dimming, or changes nothing; controls are given up exactly if the write and its undoing both fail |
| Backlight.Device.SetDimmed | mainline/gaming-shell/device.cpp:229-245 | dimming saves the user's level once; undimming restores it |
| Backlight.Device.SetScreenOff | mainline/gaming-shell/device.cpp:246-264 | switching off saves the user's level, even of a dimmed screen; waking restores it |
| Backlight.Device.Close | mainline/gaming-shell/device.cpp:139 | with controls enabled and no failure the destructor restores the user's level |
| Backlight.Run | mainline/gaming-shell/device.cpp:139-264 | after any sequence of changes, the level restored is the one the user chose last |

## Left out

- Package store: archive validation, catalogues and the package installer are inputs of an install (what was downloaded,
  whether it was unpacked); a runtime's name is taken as its file name, with the suffix already added; titles and other
  information are opaque; links and files among a package's directories are not modelled.
- Package store: a power loss is modelled as bringing back any index whose publication was not known to be durable;
  reordering of other writes is not.
- File operations: paths are canonical, so links on the way to a path are not resolved; a file copied through a temporary
  name appears in one step; a source that changes during the copy is a failure; the trash directory exists; reading a
  .trashinfo file is a lookup of the origin; progress reports and permissions are not modelled.
- Text documents: text is a sequence of Unicode scalar values, so unpaired surrogates are not modelled; paths are absolute;
  office documents are not modelled.
- FileOperations.Volume.Create: the temporary file of a copy, the cancellation between its blocks and the second look at the
  source's times are one step that succeeds or fails, because what is visible under the destination's name is the same.
- ZIP: libarchive is represented by the laws in `Zip.Returns`, and the bytes it writes are not modelled; the staging
  directory's own place on the disk and its removal after a failure are not modelled; a source is a tree of nodes, with a
  directory's listing as a list; paths are canonical.
- Zip.Pack: whether the destination exists is an input, and the published archive is the list of stored entries, because
  the bytes that libarchive writes are not part of this model.
- Zip.Unpacker.UnpackZip: the entries that libarchive reads from the file are an input; only their number is tied to the bytes, as
  the source itself does.
- Zip.PackThenUnpack: says what extraction makes of the stored entries; whether the file passes `ZipContainer.Check` depends on the
  bytes libarchive writes (a central directory above 16 MiB, or an archive that needs ZIP64, is refused).
- Zip.Packer.AddContent: any change of a file while it is read is taken to change its time of modification, as the source's own check assumes.
- Capture: thumbnails, input injection, frame metrics and the router's packets are not modelled, except that they may fail the
  session or ask for a new request; signal handlers that call back into the session during an emission are not modelled; the
  window's root object exists.
- Capture.Session.RouterMessage: a router packet is reduced to whether the router is ready and whether it broke the protocol,
  because sequence numbers and modes of the input channel do not enter a capture; only consistency is stated of it.
- Applications: manifests, environments, previews and handlers that call back during a signal are not modelled; a process
  identifier is never 0 or 1.
- Transfer server: sockets, headers, authentication, JSON and the monitor thread are not modelled; a lost connection, a stop of
  the server or a full disk is a choice at each step; random tokens are fresh; a folder is a number.
- PNG: CRC-32 and zlib are functions with the laws in `Png.Lawful`; finding and mapping the frame buffer is not modelled.
- Network: how a number is written is a parameter; profiles, single signals and connections would add only easy members.
- CPU control: the health checks and reading the nodes are inputs; a failed write is taken to leave the old or the new value
  for good, although the kernel may apply a limit later.
- Backlight: nothing else writes the node; the volume, statistics and storage parts of the device object are not modelled.
- User interfaces, D-Bus, Wayland, build and packaging scripts, bring-up probes and the single-counter control checks would add
  only easy members or are calls into code that is not part of this model.
