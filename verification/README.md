# Backuply: a verified model of the single-writer replication engine

Backuply keeps replicas of folders. A source scans a directory tree into a manifest of fixed 256 KiB
blocks; a receiver lists the manifest over a framed request/response protocol and applies it entry by
entry, reusing blocks it already has. This project models that engine in Dafny and proves what its
design relies on. `dafny verify dfyconfig.toml` checks all of it.

## How the model is built

- **Data** (`Model`, `Paths`, `Tree`, `Layout`, `Json`, `Canonical`, `Index`). A folder tree is a map from paths to
  files, directories and special objects. An index is a map from paths to entries. Byte strings hold one
  char per byte. The hash is a parameter: statements are about hashes, and where bytes have to be equal
  the statement names the collision that would be needed otherwise (`Collision`), or assumes that there
  is none among the contents in play (`InjectiveOn`).
- **Index database** (`Ledger`, `Transactions`, `Database`). The `entries` table and the `folder_usage`
  cache with their three triggers and CHECK constraints; runs of single row statements, transactions,
  rollbacks and reopenings from the empty database on; and the class `IndexDb` that executes them.
- **Apply, twice.** `Apply.Applied` is what an undisturbed Apply does, as one function, and the class
  `Store.FolderStore` is the imperative program that computes it. `Machine` is the same operation cut
  into phases, with local edits, arbitrary replies, failures and process crashes between any two phases.
  `Recovery.UndisturbedIsApply` connects the two, `Safety` says what no run can do, `Recovery` what a kill
  leaves behind, and `Retry` what any number of kills and retries amount to.
- **Scan and pass** (`Scan`, `Walk`, `Replicate`, `Convergence`, `Resume`, `Versions`, `Relay`). The
  snapshot a scan records, the walk under concurrent edits, the sorted pass, convergence from a quiet
  source, after any interrupted passes, and over any sequence of the source's versions, and provenance from
  the source's daemon through any network of receivers.
- **Wire** (`Frames`, `Transfer`, `Crowd`, `Session`, `Serve`). Frames over a byte stream, the list
  transfer and its budgets, a folder that falls between the budgets, one connection with its gate, and
  the server's shutdown.
- **Daemon** (`Status`, `Visibility`). The status that gates readers, and what a gated list can return.

## What the proofs brought to light

These are consequences of the code as it stands; each is a lemma with its exact condition or a concrete
instance.

- The wire admits less than the store: a valid index is transferred exactly if it leaves 24 bytes for
  each entry and 12 more (`Transfer.WireBudget`). There is a folder, with names of at most 255 bytes, that
  a scan records within the store's limits and no client ever receives (`Crowd.FullStoreIsUndeliverable`).
- A local change is overwritten if and only if a rename goes through over a destination that is neither
  what the last recheck found nor what the rename makes of it (`Safety.NoLocalEditIsLost`), and that takes
  an edit of this destination between the recheck and the rename (`Safety.OnlyLateEditsAreLost`). A file
  left there is overwritten (`Safety.LateEditIsLost`), and so is a deletion or a symbolic link. Modes are
  not protected: when the content is the announced one, its mode is set without asking
  (`Safety.StepIsGentle` says when).
- After a crash between rename and index commit, another version of the same file is refused as a local
  change, precisely when its hash differs (`Recovery.UncommittedRenameBlocksOthers`).
- Apply alone brings a deleted parent directory back; only the order of a whole pass prevents it
  (`Replicate.ChildAloneRecreatesParent`, `Replicate.DeletionsAreNotUndone`).
- Reopening the database repairs any ledger except a stale line of a folder that has no entries
  (`Ledger.ReopenRepairsExactly`); no run of the program makes such a line.
- Input that ends right behind a frame header is reported as a plain end of input, like input that ends
  between frames (`Frames.TruncationIsPrefix`). Both are errors for every caller.
- A directory that is a file at the moment it is looked at, and a directory again when it is entered, is
  recorded as a file. A scan is closed under directory parents if and only if no such directory has a
  recorded child (`Visibility.ClosedExactlyUnlessTurned`), and there is a run that commits one that is not
  (`Visibility.FlippedScanIsCommitted`).
- The index budget can stop a pass half-way even when old and new list fit by themselves: a pass succeeds
  exactly if every part of the list fits over the old rows (`Convergence.RoomDecides`).
- The byte totals of the status fall short of the bytes reported by exactly what failed passes reported
  (`Status.TotalsOmitFailures`).

## Model

| member | source | states |
|---|---|---|
| Model.ValidHashIsHex | internal/store/files.go:61-67 | A digest is admitted if and only if it is 64 characters of lower-case hexadecimal. |
| Layout.ValidateEntry | internal/store/files.go:31-59 | The pass over the blocks with a running offset accepts exactly the valid entries. |
| Layout.LayoutIsTiling | internal/store/files.go:47-58 | A block list is accepted if and only if it tiles [0, size) without gap or overlap into full blocks and a non-empty last one. |
| Layout.FingerprintFile | internal/store/files.go:172-218 | The reading loop returns the entry whose blocks are the slices of the content with their hashes, or refuses a file over the size limit. |
| Layout.FingerprintValid | internal/store/files.go:172-218 | Whatever is fingerprinted under a valid path is an entry that validation accepts. |
| Layout.UnchangedSourceServesSlices | internal/store/scan.go:111-160 | While a file is unchanged, every block its row lists is served and is exactly that slice of the content. |
| Layout.ServedBlockIsListed | internal/store/scan.go:111-160 | Whatever happens to the folder between any two checks, served bytes have the requested size and hash, belong to the row that the lookup found, and are that slice of any content the row was made from, or collide with it. |
| Layout.ServedFromPlainFolder | internal/store/scan.go:132-155 | Bytes are served only if the folder's own marker was in place, the path led over directories to a file of the announced size, each at the moment of its check, and they are the bytes at the requested offset. |
| Tree.CheckComponents | internal/store/files.go:149-170 | The walk over the components accepts exactly the paths without special objects or non-directory parents. |
| Paths.AcceptedPaths | internal/store/files.go:18-28 | A path is accepted if and only if it has at most 4096 bytes, none of the forbidden ones and no reserved element, and following it element by element stays below the root and leads just where it says. |
| Paths.PathExamples | internal/store/files.go:18-28 | Hidden names, names with spaces or dots are accepted; the empty path, dot, dot-dot, absolute paths, trailing slashes and ways up are not. |
| Paths.TempNotValid | internal/store/files.go:18-28 | No temporary name, and nothing below one, is ever an admissible entry path. |
| Paths.AncestorSortsFirst | internal/daemon/daemon.go:272-274 | In byte order a directory comes before everything inside it. |
| Paths.LessIsByteOrder | internal/daemon/daemon.go:274 | The order of a pass and of a listing is that of the first differing byte, a prefix before what it begins. |
| Json.EntryMessageLength | internal/transport/transport.go:104-110 | The list frame of an entry is exactly 25 bytes longer than its row. |
| Json.EscapeAtMostSixfold | internal/transport/transport.go:104-110 | JSON escaping makes a string at most six times as long. |
| Canonical.EscapeIsSafe | internal/transport/transport.go:104-110 | Escaped strings hold no control byte, no markup byte and no line or paragraph separator. |
| Json.ValidEntryFitsFrame | internal/transport/transport.go:104-110 | No entry that validation accepts can exceed the 4 MiB control frame. |
| Canonical.EncodingIsInjective | internal/store/store.go:132-139 | The stored form of an entry determines it, field by field and block by block. |
| Canonical.FrameIsInjective | internal/transport/transport.go:104-110 | So does its list frame. |
| Ledger.CapacityIsExact | internal/store/store.go:143-160 | With a correct ledger, checkCapacity says yes exactly when the following put passes the constraints, and exactly when the resulting index is within both limits. |
| Ledger.PutKeepsLedger | internal/store/store.go:71-77 | An upsert keeps the ledger equal to a recount and moves no other folder's line. |
| Ledger.DeleteKeepsLedger | internal/store/store.go:78-80 | Deleting a row never fails a constraint, keeps the ledger equal to a recount and moves no other folder's line. |
| Ledger.ReopenIsIdentity | internal/store/store.go:81-83 | On a consistent database the recount on opening changes nothing. |
| Ledger.ReopenRepairsExactly | internal/store/store.go:81-83 | The recount restores consistency if and only if no folder without entries has a stale line. |
| Transactions.ScanTxDecides | internal/store/scan.go:82-107 | Deleting a folder's rows in any order and inserting a list, row by row with triggers, goes through exactly when the list is distinct and within the limits; then the folder has exactly those rows, the ledger is a recount, and no other folder has moved. |
| Transactions.RunKeepsLedger | internal/store/store.go:65-84 | From the empty database, after every statement of every run of puts, row deletions, insertions, commits, rollbacks and reopenings on many folders, inside transactions too, the ledger equals a recount within its constraints and all rows are valid. |
| Transactions.OtherFoldersNeverMove | internal/store/store.go:71-83 | Rows and ledger line of a folder that no statement names stay the same, through rollbacks and reopenings as well. |
| Transactions.ScanIsARun | internal/store/scan.go:82-107 | A scan's transaction is a run of these statements. |
| Transactions.UnfinishedIsUndone | internal/store/scan.go:82-107 | Rolling back, or losing the process and opening again, undoes every statement of a transaction. |
| Database.IndexDb.Put | internal/store/store.go:132-139 | Put succeeds exactly when the folder's new index is within the limits, then changes that one row, and otherwise changes nothing. |
| Database.IndexDb.HasCapacity | internal/store/store.go:143-160 | The pre-check answers whether the put will succeed. |
| Database.IndexDb.DeleteFolder | internal/store/scan.go:87-89 | The cursor meets every row of the folder once, a trigger each, and leaves it empty, other folders as they were, and the ledger a recount. |
| Database.IndexDb.ReplaceFolder | internal/store/scan.go:82-107 | The program executes the scan's transaction row by row: it installs exactly the given entries if they are distinct and within the limits, and otherwise leaves the whole database as it was. |
| Database.IndexDb.Reopen | internal/store/store.go:81-83 | Opening recounts every folder with rows, folder by folder, and fails without a change exactly when a folder is over the limits. |
| Database.IndexDb.List | internal/store/store.go:92-119 | List succeeds exactly on listable rows and then returns every row once, in path order. |
| Database.ConsistentIndexIsListable | internal/store/store.go:92-119 | A consistent ledger over valid rows makes every folder listable: the limits of commit, pre-check, scan and list are one bound. |
| Database.EveryRunIsListable | internal/store/store.go:92-119 | No run of the store ever reaches an index that List refuses. |
| Assembly.AddBlockFaithful | internal/store/apply.go:145-174 | Whatever the old file and the peer deliver, a turn that succeeds extends the part that equals the announced blocks, and bytes received plus reused are the bytes written. |
| Assembly.TurnFails | internal/store/apply.go:149-169 | A turn fails exactly if nothing local can be used and the peer has no answer, or one of another size or hash. |
| Assembly.AssembleFaithful | internal/store/apply.go:140-174 | The same after any number of turns. |
| Assembly.FaithfulIsDescribed | internal/store/apply.go:175-177 | A finished file with the announced hash has exactly the announced fingerprint. |
| Assembly.DeltaIsExact | internal/store/apply.go:140-174 | With a stable old file whose blocks agree with the entry's in size where they agree in hash, the bytes fetched are exactly the sizes of the blocks whose hash no old block has, in spite of the last-wins map and of repeated blocks. |
| Assembly.NoCollisionSizesAgree | internal/store/apply.go:150-151 | Freedom from collisions among two contents and their slices gives that agreement. |
| Apply.ReceivedIsFresh | internal/store/apply.go:75-174 | What a successful Apply reports as received is exactly the total size of the entry's blocks whose hash no block of the present file has, unless hashes collide: nothing for the announced content, everything when there is no file. |
| Assembly.NothingToReuse | internal/store/apply.go:140-174 | Without an old file everything is fetched. |
| Assembly.AssembleDelivers | internal/store/apply.go:145-177 | If the peer answers with the slices of a content and hashes do not collide, assembly succeeds and yields that content. |
| Store.FolderStore.AssembleFile | internal/store/apply.go:140-177 | The map-building loop and the block loop compute the specified assembly. |
| Store.FolderStore.Apply | internal/store/apply.go:22-225 | The program changes tree and index to exactly the specified outcome on every branch, returns the specified result, and touches no other folder's rows or line. |
| Store.FolderStore.Walk | internal/store/scan.go:26-71 | The walk with its running totals succeeds exactly if everything visible is scannable and the whole snapshot is within the limits. |
| Store.FolderStore.Scan | internal/store/scan.go:16-108 | A scan of a quiet tree makes the index the snapshot or changes nothing, and touches no other folder. |
| Store.FolderStore.ReadBlock | internal/store/scan.go:111-160 | The sequence of checks, each meeting the folder as it is by then, serves exactly the specified answer. |
| Apply.SuccessIsExact | internal/store/apply.go:22-225 | After success the destination is what the entry describes, the row is the entry, received plus reused is the size, and the index is within its limits. |
| Apply.FailureIsHarmless | internal/store/apply.go:22-225 | Failure changes no content and no row; at most missing parent directories remain. |
| Apply.OnlyDestination | internal/store/apply.go:22-225 | Nothing but the destination changes; nothing new but its parent directories, for the owner alone, appears. |
| Apply.KeepsWellFormed | internal/store/files.go:229-238 | Every outcome keeps parents of present objects directories. |
| Apply.DirectoryModes | internal/store/apply.go:63-73 | A directory that is made has each of the nine permission bits exactly if it is announced or is the owner's; a directory that is there keeps its mode. |
| Apply.NoMarkerNoChange | internal/store/files.go:112-133 | Without the folder's own marker an Apply fails and changes nothing. |
| Apply.NothingLocalIsLost | internal/store/apply.go:75-126 | A file whose hash the index does not name keeps its content, and a locally deleted indexed path is brought back at most as a directory above the entry. |
| Apply.NoTornContent | internal/store/apply.go:140-177 | Whatever replies arrive block by block, an undisturbed success installs the bytes of any content that has the entry's hash, or an explicit collision with it. |
| Machine.StepInv | internal/store/apply.go:22-225 | Every event, the program's as well as crashes, failures and edits at any moment, keeps the invariant: rows name what was verified, every phase knows what it will replace, and a temporary file under construction is faithful. |
| Safety.StepIsGentle | internal/store/apply.go:22-225 | In one event of the program, every file under any name but the temporary one at work keeps its bytes unless the index knows them, and its mode unless its content is the announced one; a directory stays; a directory appears only where the entry needs one and with the bits it should have, and a new file only complete and only where none was indexed; if and only if the event is not a rename over a destination that has changed since its recheck. |
| Safety.NoLocalEditIsLost | internal/store/apply.go:75-126 | The same if and only if, at every point of every run of applies, failures, crashes and edits at every moment. |
| Safety.OnlyLateEditsAreLost | internal/store/apply.go:196-216 | Whatever is overwritten, an earlier event of the run was an edit that changed the destination between its recheck and its rename. |
| Safety.RenameWasRechecked | internal/store/apply.go:187-210 | In every run that is about to rename, an earlier event was the recheck that found the marker in place, a plain way to the destination, and the destination unchanged. |
| Safety.EndCleansUp | internal/store/apply.go:139 | However an Apply ends, its temporary file is gone, unless the process was killed; and a failed one leaves every row. |
| Safety.LocalContentPersists | internal/store/apply.go:105-110 | A content that no offered version has is never overwritten, in any run, under any name, with edits elsewhere at every moment. |
| Safety.DeletionPersists | internal/store/apply.go:117-126 | A locally deleted indexed file is never restored, in any run, with edits elsewhere at every moment. |
| Safety.VerifiedWasOnDisk | internal/store/apply.go:85-108 | A hash enters the history only at a moment when the disk holds a content with that hash at that path. |
| Safety.RowsWereOnDisk | internal/store/apply.go:19-21 | In every run of a folder that starts with an empty index, every file row names the hash of a file, and every directory row a directory, that the disk held at that path at an earlier moment of the run. |
| Safety.NoTornAssembly | internal/store/apply.go:140-177 | In every run, whatever the source and the old file deliver block by block and whatever is edited, even in the last window, a rename installs the bytes of any content with the announced fingerprint, or an explicit collision with it. |
| Safety.LateEditIsLost | internal/store/apply.go:196-216 | Whatever file an edit leaves between the last recheck and the rename is overwritten. |
| Recovery.UndisturbedIsApply | internal/store/apply.go:22-225 | The undisturbed run of the phases ends, after at most ten events and one for each block, with the tree, the index and the counts or failure of the specified Apply. |
| Recovery.RepeatIsSilent | internal/store/apply.go:85-104 | Repeating a successful Apply, with or without its index commit, changes nothing more and receives nothing. |
| Recovery.CrashLeavesOldOrNew | internal/store/apply.go:19-21 | A kill after any event leaves the complete old or the complete new content, the old or the new row, the new row only over the new content, and besides parent directories at most the one temporary file. |
| Retry.RetryAfterKills | internal/store/apply.go:19-21 | After any number of attempts, each killed after any number of events or failed, with any replies each, one more attempt with any replies ends as if none had been made, or silently completes, without a fetch, one that had got as far as its rename; only temporary files may remain. |
| Retry.LeftoversDoNotMatter | internal/store/apply.go:134-139 | Orphaned temporary files change nothing about an Apply, and it changes nothing about them. |
| Recovery.NoFetchAfterRename | internal/store/apply.go:85-104 | If the kill came after the rename, the retry fetches nothing. |
| Recovery.UncommittedRenameBlocksOthers | internal/store/apply.go:105-108 | Between rename and commit, a retry with another version is refused as a local change if and only if its hash differs. |
| Scan.WalkGivesSnapshot | internal/store/scan.go:26-71 | The entries of a complete walk are, as an index, one row for every visible object, and their paths are distinct. |
| Scan.SnapshotIsExact | internal/store/scan.go:36-42 | An object is recorded if and only if it is there and no element of its path is the marker's name or starts like a temporary one. |
| Scan.RecordedModes | internal/store/scan.go:51-53 | The recorded mode is the nine permission bits of what is there, and the mode itself when it has no others. |
| Scan.PartWithinLimits | internal/store/scan.go:65-68 | The running totals reject a walk exactly when the whole snapshot is over the limits. |
| Scan.SnapshotIsClosed | internal/store/scan.go:26-71 | Every ancestor of a recorded path is recorded, as a directory. |
| Scan.SnapshotIsValid | internal/store/scan.go:47-60 | Everything a successful scan records is accepted by validation. |
| Walk.QuietWalkIsSnapshot | internal/store/scan.go:26-71 | Read and visited name by name, a complete walk of a folder that is left alone records exactly its snapshot. |
| Walk.VisitInv | internal/store/scan.go:26-71 | Every visit keeps recorded rows valid, within limits, and with all their ancestors recorded. |
| Walk.ClosedUnlessFlipped | internal/store/scan.go:40-60 | Whatever is edited meanwhile, what a walk records is closed under directory parents if and only if no directory that was recorded as a file, but entered as a directory, has a recorded child. |
| Replicate.SortSorts | internal/daemon/daemon.go:272-274 | Sorting yields the same entries in path order. |
| Replicate.ReplicateFolder | internal/daemon/daemon.go:269-286 | The loop applies the sorted list until the first error as specified and touches no other folder; on success, received plus reused is the total size of what is listed, received is the sum over the entries, and files are those it had to put in place. |
| Replicate.PassTotals | internal/daemon/daemon.go:283-285 | These totals, for every part of a pass. |
| Replicate.DeletionsAreNotUndone | internal/daemon/daemon.go:272-286 | A pass recreates no manifest path that was indexed but absent: it fails, having applied only entries that sort before every such path. |
| Replicate.ChildAloneRecreatesParent | internal/store/files.go:229-238 | A single entry below a deleted directory recreates it exactly if the entry itself is not indexed. |
| Convergence.OnePassConverges | internal/daemon/daemon.go:269-288 | From a quiet source, without local edits and with room for every part of the list over the old rows, one pass applies every entry; files then have the source's bytes and permission bits, directories exist, other paths are untouched, and the index is the old one overridden by the manifest. |
| Convergence.RoomDecides | internal/store/store.go:143-160 | Otherwise unhindered, the pass succeeds if and only if there is this room. |
| Index.LongestIsRoom | internal/store/store.go:143-160 | There is room if the limits admit, for every path of either index, its longer row. |
| Convergence.PassReceivesFresh | internal/store/apply.go:140-174 | A converging pass receives exactly the listed blocks whose hash no block of the receiver's file at that path has, summed over the files. |
| Convergence.SortOfListing | internal/daemon/daemon.go:272-274 | Sorting any arrangement of a listing gives that listing. |
| Convergence.ReplicateQuiet | internal/daemon/daemon.go:269-288 | The program's own loop, given a quiet source's list in any order, applies all of it, receives exactly what is new, and leaves the receiver with the source's files and the overridden index, and other folders alone. |
| Convergence.SecondPassIsSilent | internal/daemon/daemon.go:269-288 | A second pass, whatever the peer would answer, changes nothing and receives zero bytes. |
| Resume.OnePassAfterKillsConverges | internal/daemon/daemon.go:253-300 | However many passes over one quiet source were cut short by errors or killed, at any entry and event, with any replies of known contents, one complete pass with the source's own replies succeeds and converges, and everything outside the list is as it was. |
| Versions.NewFolderIsInStep | internal/store/files.go:71-101 | A folder that holds only its marker is in step with an empty index. |
| Versions.InStepIsReady | internal/daemon/daemon.go:253-288 | A receiver whose disk and index agree is ready for any version of a quiet source that leaves room along its list and changes no path's kind. |
| Versions.EveryVersionIsReached | internal/daemon/daemon.go:253-300 | An unedited receiver that starts in step reaches every version of a sequence in turn, whatever was added, changed, dropped or brought back before, and is in step after each. |
| Relay.InstalledWasScanned | internal/store/apply.go:145-177 | In any network of receivers behind a source daemon, with edits, scans, restarts and readers at the source, edits everywhere and unconstrained replies, a rename installs only content that an earlier visit found at that path on the source's disk, in a walk committed later, with the recorded mode, or an explicit collision with it. |
| Relay.RowsWereScanned | internal/daemon/daemon.go:269-279 | Every file row of every receiver was made by such a visit, in a walk that was committed. |
| Relay.ListedMayBegin | internal/daemon/daemon.go:269-276 | Every row of a folder that a list is taken from can be applied next. |
| Relay.ServedMayBegin | internal/daemon/daemon.go:269-276 | Every row served to a reader that is valid and fits the receiver can be applied next. |
| Frames.Reader.ReadFull | internal/transport/transport.go:60-72 | The outcome depends only on the bytes, not on how they arrive in pieces. |
| Frames.Reader.ReadFrame | internal/transport/transport.go:60-72 | One frame, or the specified error, and the input left behind it. |
| Frames.Reader.ReadFrames | internal/transport/transport.go:60-72 | Reading until an error gives the specified frames and error. |
| Frames.Writer.WriteFrame | internal/transport/transport.go:74-90 | A refused payload writes nothing, a broken connection gets a proper prefix of the frame, and success appends exactly the frame. |
| Frames.FrameRoundTrip | internal/transport/transport.go:60-90 | A written frame is read back and nothing behind it is touched. |
| Frames.FramesAreCanonical | internal/transport/transport.go:60-72 | On arbitrary bytes, the frames that are read are the encodings that stand at the head of the input. |
| Frames.StreamRoundTrip | internal/transport/transport.go:60-90 | Writing any list of admissible payloads and reading to the end of input returns the list. |
| Frames.TruncationIsPrefix | internal/transport/transport.go:60-90 | Every truncation returns exactly the whole frames before the cut and then an error, which is a plain end of input exactly at a frame boundary or right behind a header. |
| Transfer.ServeList | internal/transport/transport.go:237-259 | The server's loop sends the whole list and its end, or a rejection, or stops within the list and closes, each exactly under the stated limits. |
| Transfer.ClientList | internal/transport/transport.go:359-394 | The client's loop accepts exactly the bounded responses with an end frame within its total, and then returns their entries and has consumed just them. |
| Transfer.TransferIsExactOrFails | internal/transport/transport.go:237-259 | Of whatever part of the reply arrives, the client accepts only the whole list, and accepts it if and only if the list is deliverable. |
| Transfer.WireBudget | internal/transport/transport.go:25-27 | A list of valid entries is deliverable if and only if it is within the store's limits with 24 bytes for each entry and 12 more to spare. |
| Transfer.RoomyIndexIsDelivered | internal/transport/transport.go:237-259 | Every index that leaves this room arrives whole. |
| Crowd.FullStoreIsUndeliverable | internal/store/store.go:19-25 | There is a folder in order, with names of at most 255 bytes, that a scan records within the store's limits and whose list no client accepts, wherever the reply is cut. |
| Crowd.CrowdSnapshot | internal/store/scan.go:26-71 | What a scan of that folder records are the rows that were counted. |
| Session.JudgeIsClientList | internal/transport/transport.go:364-388 | Judging frame by frame comes to a success exactly where the client's loop accepts. |
| Session.RepliesEndWithTheirLastFrame | internal/transport/transport.go:232-286 | A reply is a success only when complete and from a server that stays, and a complete one is always decided. |
| Session.StepInv | internal/transport/transport.go:330-357 | Every send, receive, cancellation, error, close and server event keeps the session invariant. |
| Session.Lockstep | internal/transport/transport.go:330-357 | In every run, an open session with a free gate has no frame under way in either direction and no reply in the making. |
| Session.OwnFramesOnly | internal/transport/transport.go:330-357 | No call consumes a frame of another call. |
| Session.FailureCloses | internal/transport/transport.go:330-357 | A call that failed after sending has closed the session for good. |
| Session.ListIsExact | internal/transport/transport.go:359-394 | A successful List got the whole list that the backend gave for this very request. |
| Session.BlockIsExact | internal/transport/transport.go:396-432 | A successful ReadBlock got the backend's bytes for this very request, with the announced size and hash. |
| Session.HandleRequest | internal/transport/transport.go:232-286 | The server's checks and branches make exactly the specified reply for every request and answer. |
| Session.AnsweredIsAccepted | internal/transport/transport.go:359-432 | A reply is accepted frame by frame to its end exactly if it is the list, within both ends' limits, or the block, with the announced size and hash, that was asked for. |
| Session.CallIsAnswered | internal/transport/transport.go:330-432 | From every reachable state with an open session, a free gate and a waiting server, a call in order whose frames travel in any order is over with success if and only if the backend gave what was asked for, and the session stays open exactly then. |
| Session.CallEnds | internal/transport/transport.go:330-432 | Once a reply that keeps the server has been sent and received frame by frame, the call is over. |
| Session.GreetingSucceeds | internal/transport/transport.go:296-326 | A new connection is greeted. |
| Session.WithdrawalIsHarmless | internal/transport/transport.go:333-341 | A call withdrawn before it has sent anything leaves the session open and free. |
| Session.CloseIsFinal | internal/transport/transport.go:328 | After Close no further event opens the session again, whatever came before. |
| Session.NoStall | internal/transport/transport.go:187-230 | A call waiting for a server that waits for requests has its answer already on the way. |
| Serve.NothingIsForgotten | internal/transport/transport.go:148-185 | At every moment at most 32 sessions are active, and every accepted connection is closed, active, or in the accept loop's hands. |
| Serve.AdmissionIsExact | internal/transport/transport.go:172-186 | In every run, a connection in hand becomes a running session if and only if fewer than 32 are active and the context has not ended when the loop looks; otherwise it is closed. |
| Serve.NewConnectionIsTaken | internal/transport/transport.go:164-171 | A free loop of an open listener takes any new connection in hand. |
| Serve.NoEntryAfterPass | internal/transport/transport.go:152-175 | After the closer's pass no connection enters the active set and all of it is closed, even when the context ended just after the loop looked at it. |
| Serve.ReturnMeansDone | internal/transport/transport.go:163-187 | When Serve returns, all accepted connections are closed and all sessions have finished. |
| Serve.ShutdownAdvances | internal/transport/transport.go:148-185 | Once the listener is closed, every event that has an effect brings the return nearer. |
| Serve.ShutdownIsNeverStuck | internal/transport/transport.go:148-185 | From cancellation until the return some event is due, first the one that closes the listener, so shutdown completes. |
| Status.Board.Update | internal/daemon/daemon.go:95-119 | Exactly one folder's line changes: an error sets the message and nothing else; a success clears it, shows the count and adds the bytes. |
| Status.Board.Authorize | internal/daemon/daemon.go:302-329 | Access is granted exactly to a configured peer of a marked folder whose local scan, if it has one, last succeeded in this process. |
| Status.TotalsOmitFailures | internal/daemon/daemon.go:95-105 | Over any reports, the totals differ from the bytes of all reports by exactly those of the failed ones. |
| Status.GateFollowsLastReport | internal/daemon/daemon.go:318-325 | After any reports a local folder is served exactly if the last one is a success, and its count is shown. |
| Visibility.ListsAreWholeScans | internal/daemon/daemon.go:302-336 | In any interleaving of scans, failures, updates, restarts and readers, a list that was let through is the whole outcome of one committed scan of this process, valid, within the limits and closed under parents. |
| Visibility.ListIsLastCommit | internal/daemon/daemon.go:331-336 | Whenever an admitted reader reads, it gets exactly the rows of the last scan committed before that moment since the process started. |
| Visibility.ListStays | internal/daemon/daemon.go:331-336 | What a reader has got stays until it reads again. |
| Visibility.QuietWalkGoesOn | internal/store/scan.go:26-71 | A walk over a folder that is left alone, can be scanned and fits always has a next event that brings it nearer to its end. |
| Visibility.FailureShutsGate | internal/daemon/daemon.go:95-133 | A failed scan, once reported, shuts the gate and leaves the index. |
| Visibility.SuccessOpensGate | internal/daemon/daemon.go:95-133 | A complete scan over a folder with its marker, once reported, opens the gate and has replaced the index. |
| Visibility.ScanNeedsMarker | internal/store/scan.go:19-25 | Without the marker no scan starts and none commits. |
| Visibility.StepInv | internal/store/scan.go:26-108 | Every event of scans, edits, updates, readers and restarts keeps drafts and committed scans in order. |
| Visibility.ScansAreSnapshots | internal/store/scan.go:26-108 | A committed scan of a folder left alone is its snapshot, and any committed scan is closed under directory parents if and only if no directory recorded as a file has a recorded child. |
| Visibility.ClosedExactlyUnlessTurned | internal/store/scan.go:40-60 | In terms of events: a scan is closed under directory parents if and only if no name with a recorded child was, when the walk visited it, a file that its listing had called a directory. |
| Visibility.FlippedScanIsCommitted | internal/store/scan.go:26-108 | A run of one scan and two edits, from a folder with one directory, commits an index that is not closed. |
| Visibility.OnlyCommitMovesIndex | internal/store/scan.go:76-107 | A scan that does not commit leaves the index as it was; a commit moves it all at once. |
| Visibility.GateIsExact | internal/daemon/daemon.go:302-329 | After any run of scans, failures, updates and restarts, a reader is admitted if and only if it is a peer, the marker is in place, and the last outcome this process has reported is a success. |

## Left out

- Hashing: the hash is any function with 64 lower-case hexadecimal digits as its value; SHA-256 itself is not modelled.
- JSON decoding: decoding is assumed to invert the canonical encoding; only the encoded length is computed, and path bytes that are not valid UTF-8 are not told apart.
- validPath: the UTF-8 test inside fs.ValidPath is not modelled, nor are file system limits on the length of one name.
- fingerprint: taken as one snapshot or an error, which is what its stat comparison before and after is for; modification times and file identity are not modelled.
- Visit of one name in a walk: the checks and the fingerprint of one name happen at one moment; edits fall between names, listings and the commit.
- Walk order: names are visited in any order in which a directory comes before its content; the scan of a quiet tree takes any complete walk without repetition.
- Symbolic link races, hard links and mounts swapped underneath: os.Root and the second check of the marker by path are represented by the tree and its marker only.
- Power loss: crashes are process crashes; file and directory syncing has no effect in the model.
- Permissions: modes are stored but never make an open or a write fail; the process umask is ignored, as are set-id bits of scanned files.
- Temporary names: the random part is a parameter; edits by people do not forge or rewrite the temporary file of an Apply in progress, though they may remove it. Orphaned temporary files are never collected, as in the code.
- Store.FolderStore.Apply: cancellation and I/O errors inside one call are not modelled here; they are the Fail events of the machine. The byte counts that the code returns beside an error are not modelled; the caller ignores them.
- Store.FolderStore: one folder with its tree; the mutex is represented by running one method at a time.
- Relay: what a receiver hands on is its own index, which no scan gates. Replies are unconstrained, which includes every interleaving of the upstream's ReadBlock with its own Apply; a list is taken from the upstream's index at one moment, as Session.ListIsExact and the single database connection justify.
- Session: frames travel whole or not at all, as Frames.TruncationIsPrefix justifies; times, deadlines and buffering are events that may come at any moment.
- Serve: Accept and Close of the listener do not overlap: no connection is accepted once the closer has closed the listener.
- Visibility.OnlyCommitMovesIndex: the scan's transaction is one event here, so that it moves the index all at once is part of the model; Database.IndexDb.ReplaceFolder and Transactions have its row-by-row form, and the single database connection keeps readers out of its middle.
- replicate's outer loop: dialling, redialling after an error, the ticker and the order of folders.
- SQLite: pragmas, schema versions, write-ahead log and busy time-outs; a failing commit is taken to leave nothing behind.
- TLS, certificates, peer pinning and the device identity: the peer is an authenticated value.
- Configuration parsing, path-overlap checks, the admin socket, logging, the command line and service files.
- InitFolder and the state lock: process plumbing that would only add easy members.
