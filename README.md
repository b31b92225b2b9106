# minuteman core, modelled in Dafny

minuteman is a terminal tool for cloning and wiping external drives. This
project models its core:

- **Drive discovery** (`src/disk/linux.rs`). Entries of `/sys/block` are kept
  when their `device` link resolves below a USB bus and an ancestor directory
  holds the `manufacturer`, `product` and `serial` attributes. Each kept entry
  becomes a `Disk` whose space figures come from `statvfs`.
- **The device records** (`src/disk/mod.rs`): `Disk`, `Partition`, and the
  closed enum `DiskType` with its `Display`.
- **The raw cloner** (`src/clone/mod.rs`, `create_disk_backup`). It copies a
  device, up to a byte limit, in 1 MiB chunks over the front of `backup.iso`.
- **The cursors of the text UI** (`src/util/mod.rs`): the circular tab index
  `TabsState` and the optional selection of `StatefulList`.
- **The application state** (`src/app/app.rs`): `App::new` and `App::on_key`.

Modules (one file each):

- `Wrappers` holds `Option`, `Result` and a single `IoError`.
- `Disk` holds the records.
- `Linux` holds discovery.
- `Clone` holds the cloner.
- `Util` holds the cursors.
- `App` holds the application state.

Pure Rust code is modelled as functions with lemmas. Code that mutates state
is modelled as classes and methods:

- `TabsState`, `StatefulList`, `App`.
- The device reader (`SourceReader`) and the image file (`ImageFile`) of the
  copy loop.
- The accumulation loop of `find_external_disks`.

Each method is proved against a specification function:

- `Transfer` gives the chunks the copy loop produces.
- `Collect` over `Steps` gives the disks found.
- `NextTab`, `PreviousTab`, `NextSelection` and `PreviousSelection` give the
  new cursor positions.

Lemmas then establish what the source promises about those functions.

Every interaction with the operating system is an input to the model:

- path existence and file reads under sysfs (`SysFs`);
- the `/sys/block` listing and each entry's canonical device path and
  `statvfs` result (`BlockEntry`);
- the lines of the mount table (`MountLine`);
- the device's bytes and whether the device opens (`DeviceNode`), and whether
  the image opens (`CreateDiskBackup`'s `imageOpens`);
- the answers of successive `read` calls (`ReadEvent` script).

A Rust panic becomes a `requires`: division by zero, `usize` underflow, an
out-of-bounds index, `u64` overflow (as in a debug build, see "Left out"),
or `unwrap` on an error. A `?` error
becomes `Result.Err`.

Two behaviours of the code worth knowing, both modelled as written:

- **Read errors in the copy loop are swallowed.** A read error other than
  `Interrupted` ends the loop, and the call still answers `Ok("COOL DONE")`
  (src/clone/mod.rs:72-75, 82). `Transfer` records such an ending as
  `failed`; `CreateDiskBackup` still answers "COOL DONE".
- **The `Disk` built by `find_external_disks` does not match its type.**
  At src/disk/linux.rs:120-131 the code fills fields `file_system` and
  `mount_point` and uses `DiskType::Unknown(-1)`. The `Disk` of
  src/disk/mod.rs:34-44 has neither field but a `partitions` one, and its
  `Unknown` (src/disk/mod.rs:57) takes no value. The model builds the `Disk`
  of src/disk/mod.rs with type `Unknown` and no partitions.

## Model

| member | source | states |
|---|---|---|
| Disk.Ordinal | src/disk/mod.rs:51-58 | every `DiskType` has a position below six in the declaration |
| Disk.FromOrdinal | src/disk/mod.rs:51-58 | each of the six positions is taken by a variant, so the enum has exactly six variants, in declaration order |
| Disk.OrdinalIsInjective | src/disk/mod.rs:51-58 | distinct variants have distinct positions, and position-to-variant inverts variant-to-position |
| Disk.Display | src/disk/mod.rs:60-64 | the displayed text of a variant is exactly its name, from the list of the six names in order |
| Disk.DisplayIsInjective | src/disk/mod.rs:60-64 | distinct variants display as distinct strings |
| Linux.AncestorsSplitPath | src/disk/linux.rs:44-45 | a path other than `/` is its parent followed by its file name, and the ancestor ending at component k has file name component k, so the `ancestors()` walk sees every component as a file name |
| Linux.StartsWithUsb | src/disk/linux.rs:47 | the name begins with the three characters "usb" |
| Linux.IsExternalDevice | src/disk/linux.rs:43-54 | true iff some ancestor of the path, the path included, has a file name starting with "usb"; false for `/` |
| Linux.HasAttributeFiles | src/disk/linux.rs:59-61 | the directory holds `manufacturer`, `product` and `serial` |
| Linux.DiskAttributes | src/disk/linux.rs:57-67 | the result is an ancestor of the path that holds manufacturer, product and serial, and no nearer ancestor holds all three; None iff no ancestor does |
| Linux.CalculateDiskUsage | src/disk/linux.rs:30-41 | a failed statvfs is the error and only then; used + blocks_free·frsize = blocks·frsize, free = blocks_available·frsize, total_space = used + free; requires the u64 products and sums not to overflow and used not to underflow |
| Linux.UsageTotalExcludesReserved | src/disk/linux.rs:32-39 | the reported total never exceeds the filesystem size when available ≤ free blocks, and equals it exactly when no block is reserved for root |
| Linux.IsWhitespace | src/disk/linux.rs:115 | the Unicode White_Space set that `str::trim` cuts |
| Linux.TrimStartIndex | src/disk/linux.rs:115 | everything before the cut is whitespace and the first character kept is not |
| Linux.TrimEndIndex | src/disk/linux.rs:115 | everything after the cut is whitespace and the last character kept is not |
| Linux.Trim | src/disk/linux.rs:115 | the result is a slice of the value with only whitespace cut off on either side, and neither starts nor ends with whitespace |
| Linux.TrimIsIdempotent | src/disk/linux.rs:115 | trimming twice is trimming once |
| Linux.ScanMounts | src/disk/linux.rs:17-26 | never `Ok(None)`; the first line whose first token is the path has at least three tokens and gives (token 1, token 2); with no such line the answer is ("Unknown", "Unknown"); an error exactly when an unreadable line is reached before any match |
| Linux.ScanMountsCases | src/disk/linux.rs:17-26 | the scan has exactly these outcomes: every line passes over the path, or a first matching line, or a first unreadable line |
| Linux.DiskInfo | src/disk/linux.rs:13-27 | a mount table that cannot be opened is an error; success always carries an answer |
| Linux.ExamineEntry | src/disk/linux.rs:78-132 | an entry is skipped iff it has no device link, or its canonical path is not external, or (usage computable) it has no attribute directory; it panics iff it reaches `calculate_disk_usage(...).unwrap()` with a failing statvfs or overflowing arithmetic; it aborts iff the listing entry, `canonicalize` or one of the product/serial/version reads fails; an emitted disk is named `/dev/<entry>`, its model, serial and version are the trimmed reads from the attribute directory, its type Unknown, no partitions, and its space fields those of `calculate_disk_usage` |
| Linux.EntryFails | src/disk/linux.rs:79-125 | the entry's `entry?`, `canonicalize()?` or one of its `read(..)?` calls fails |
| Linux.Steps | src/disk/linux.rs:78-132 | one step per listing entry, in listing order; a step aborts exactly when its entry fails, and every disk emitted has type Unknown, no partitions and used + free = total |
| Linux.PanicFree | src/disk/linux.rs:79-107 | no entry panics before the first one whose `?` returns early |
| Linux.Collect | src/disk/linux.rs:77-134 | the accumulation loop as a function: the emitting entries' disks in order, or the error of the first aborting entry; its properties are the lemmas below |
| Linux.EmittedFrom | src/disk/linux.rs:120 | the positions of the emitting entries, strictly increasing, and all of them |
| Linux.CollectFailsIffSomeStepAborts | src/disk/linux.rs:78-125 | the call fails iff some entry's step aborts |
| Linux.AbortShieldsLaterEntries | src/disk/linux.rs:79-125 | an aborting entry with no panic before it makes the call fail, whatever the entries after it are |
| Linux.CollectKeepsEntryOrder | src/disk/linux.rs:120-131 | on success the disks are the emitting entries' disks, one each, in entry order, and no more than there are entries |
| Linux.CollectedDisksAreEmitted | src/disk/linux.rs:120-131 | every disk returned is the disk of some emitting entry |
| Linux.ScanGuarantees | src/disk/linux.rs:76-135 | over a whole listing: failure iff some entry cannot be read from the listing, has its `device` link fail to resolve, or has an attribute read fail (a single failing device aborts the whole call); at most one disk per entry; each disk has type Unknown, no partitions and used + free = total |
| Linux.FindExternalDisks | src/disk/linux.rs:76-135 | the accumulation loop over the steps of the entries (`Steps`) returns exactly `Collect`; a failed listing is an error; it requires only that no entry panics before the loop would return |
| Clone.ChunkLength | src/clone/mod.rs:65 | a read is empty only at the end, never longer than what may be read, and any length in range can be returned |
| Clone.TakeRead | src/clone/mod.rs:61-65 | `Take::read` with no allowance left returns 0 without asking the OS; otherwise at most min(1 MiB, allowance, bytes left); empty only at the limit or the end of the device; an interrupted or failed OS answer with allowance left gives an interrupted or failed read |
| Clone.Transfer | src/clone/mod.rs:63-80 | the whole copy loop as a function: the chunk lengths written, in order, and whether a read error ended it; its properties are `ChunksFitTheBuffer`, `TransferCopiesUpToLimit` and `OnlyFailuresStopEarly` |
| Clone.TransferUnfolds | src/clone/mod.rs:63-80 | one pass of the loop: an interruption retries, a non-empty read is the next chunk, an empty read or other error ends the copy |
| Clone.ChunksFitTheBuffer | src/clone/mod.rs:59-65 | every chunk written is between 1 byte and 1,048,576 bytes |
| Clone.TransferCopiesUpToLimit | src/clone/mod.rs:61-80 | the bytes copied never exceed min(size, device length), and equal it when no read fails |
| Clone.OnlyFailuresStopEarly | src/clone/mod.rs:71-75 | interruptions alone never make the copy fail |
| Clone.Overwrite | src/clone/mod.rs:41-44 | data written from offset 0 over a file opened without truncation; stated by `OverwriteKeepsTail` |
| Clone.Splice | src/clone/mod.rs:78 | data written at an offset of a file; stated by `SpliceExtendsOverwrite` |
| Clone.OverwriteKeepsTail | src/clone/mod.rs:41-44 | writing over a file without truncation yields the data, then whatever of the old contents lies beyond it; the length is the larger of the two |
| Clone.SpliceExtendsOverwrite | src/clone/mod.rs:78 | writing the next chunk at the end of what was written extends the overwrite |
| Clone.WriteExtendsCopy | src/clone/mod.rs:78 | writing the device's next bytes after the copied prefix gives the longer copied prefix |
| Clone.TransferAfterRead | src/clone/mod.rs:65-76 | how the loop's account of the remaining chunks changes with one read, on each kind of read result |
| Clone.SourceReader.constructor | src/clone/mod.rs:36-61 | the device opened at offset 0 behind `take(size)`: position 0, allowance `size` |
| Clone.SourceReader.Read | src/clone/mod.rs:61-65 | the read answers `TakeRead`, consumes one OS answer when asked, advances position and allowance by the length read, and the buffer's front holds the device's next bytes |
| Clone.ImageFile.constructor | src/clone/mod.rs:41-56 | `backup.iso` opened for writing without truncation, its cursor at 0 and its contents kept |
| Clone.ImageFile.WriteAll | src/clone/mod.rs:78 | the chunk replaces the bytes at the cursor and the cursor moves past it |
| Clone.WriteChunk | src/clone/mod.rs:78 | after writing the chunk just read, the image holds the longer copied prefix over its prior contents |
| Clone.CopyStep | src/clone/mod.rs:64-79 | one pass keeps the loop invariant, or ends the loop with the whole transfer done; each continuing pass uses up an OS answer or allowance |
| Clone.CopyChunks | src/clone/mod.rs:63-80 | the chunks written are exactly `Transfer`'s, in order from offset 0, and the image is the copied prefix over its prior contents |
| Clone.CreateDiskBackup | src/clone/mod.rs:32-104 | a missing device answers "NOT FOUND" and writes nothing; an open failure is an error; otherwise "COOL DONE", with at most min(size, device length) bytes copied over the front of the image and the rest kept |
| Clone.SumAppend | src/clone/mod.rs:78 | the bytes written grow by each chunk's length |
| Util.NextTab | src/util/mod.rs:23-25 | the next index is in range, and wraps from the last title to the first |
| Util.PreviousTab | src/util/mod.rs:27-33 | the previous index is in range; that it is one back, or the last title from the first, follows from `TabStepsAreInverse` |
| Util.TabStepsAreInverse | src/util/mod.rs:23-33 | `next` and `previous` undo each other on every valid index |
| Util.NextTabTimes | src/util/mod.rs:23-25 | any number of `next` calls stays in range |
| Util.NextTabTimesAdvances | src/util/mod.rs:23-25 | before the wrap, n calls advance the index by n |
| Util.NextTabTimesCompose | src/util/mod.rs:23-25 | a calls followed by b calls are a + b calls |
| Util.NextTabTimesCycles | src/util/mod.rs:23-25 | as many calls of `next` as there are titles return to the start |
| Util.NextSelection | src/util/mod.rs:58-70 | always selects; nothing selected goes to the first item; a valid selection stays valid |
| Util.PreviousSelection | src/util/mod.rs:72-84 | always selects; nothing selected goes to the first item, not the last; a valid selection stays valid |
| Util.SelectionMovesLikeTabs | src/util/mod.rs:58-84 | on a selected item the list moves exactly like the tab index |
| Util.SelectionStepsAreInverse | src/util/mod.rs:58-84 | `next` and `previous` undo each other on a selected item; from no selection, `previous` after `next` selects the last item |
| Util.TabsState.constructor | src/util/mod.rs:20-22 | keeps the titles and starts at index 0 |
| Util.TabsState.Next | src/util/mod.rs:23-25 | moves to `NextTab` and keeps the titles |
| Util.TabsState.Previous | src/util/mod.rs:27-33 | moves to `PreviousTab` and keeps the titles |
| Util.StatefulList.Empty | src/util/mod.rs:44-49 | no items, nothing selected |
| Util.StatefulList.WithItems | src/util/mod.rs:51-56 | exactly the given items, nothing selected |
| Util.StatefulList.Next | src/util/mod.rs:58-70 | selects `NextSelection` and keeps the items |
| Util.StatefulList.Previous | src/util/mod.rs:72-84 | selects `PreviousSelection` and keeps the items |
| Util.StatefulList.Unselect | src/util/mod.rs:87-89 | selects nothing and keeps the items |
| App.App.constructor | src/app/app.rs:44-56 | the seven wizard titles in order at index 0; not quitting, not deleting, progress 0.0; two fresh distinct lists holding exactly the given drives and methods, nothing selected |
| App.App.OnKey | src/app/app.rs:58-65 | 'q' sets the quit flag whatever else holds (so repeating it changes nothing more); any other key leaves the flag as it was; deletion state is never touched |

## Left out

- Filesystem, device and terminal I/O are inputs to the model, not performed:
  sysfs, `/proc`, `statvfs`, the device node, `backup.iso`, and key events.
- Debug output (`println!`) is not modelled; it has no effect on results.
- `File::metadata().unwrap()` and `src_size` in `create_disk_backup` are not
  modelled (src/clone/mod.rs:37-40): the size read is only printed. The
  `seek(0)` calls, whose results are ignored, are modelled as starting both
  files at offset 0.
- Clone.CreateDiskBackup: `write_all(...).unwrap()` is taken to succeed, so
  the panic on a failed write is not modelled.
- Clone.Transfer: the OS's answers to `read` are a finite script; once it is
  used up, every read is as long as it may be. This bounds how often reads
  can be interrupted so the loop terminates. An OS that interrupts forever,
  under which the Rust loop never ends, is not modelled.
- Clone.ChunkLength: the length of a successful read is chosen by the OS,
  given here by the script; a `Grant(0)` answer with bytes left is read as 1
  byte, because `read` returns 0 only at the end.
- Linux.DiskInfo: the source opens `/proc/mount` (not `/proc/mounts`) and is
  never called by `find_external_disks`. Whether the file opens is the
  `mounts` input. Lines are taken as already split on whitespace.
- Linux.ExamineEntry: `version` is read although `disk_attributes` never
  checks that it exists; a failed read of it aborts the whole call, like the
  others. Entry file names that are not UTF-8 are not modelled.
- Linux.Trim: whitespace is the Unicode White_Space set of
  `char::is_whitespace`; UTF-8 decoding is not modelled (`read_to_string`
  fails on invalid UTF-8, which is part of the `read` input).
- Linux.FindExternalDisks: `calculate_disk_usage(...).unwrap()` panics when
  statvfs fails or the arithmetic overflows. Such an entry is a `Panic` step,
  and the model requires that no `Panic` step comes before the first entry
  that aborts (`PanicFree`); entries after an abort are never examined.
- Overflow and underflow are modelled as panics, as in a debug build with
  overflow checks. A release build wraps instead, and that behaviour is not
  modelled. This concerns `u64` arithmetic in `calculate_disk_usage`
  (src/disk/linux.rs:32-39), `len() - 1` on an empty list with a selection
  in `StatefulList::next` and on `Some(0)` in `StatefulList::previous`
  (src/util/mod.rs:61, 76), and `len() - 1` in `TabsState::previous`
  (src/util/mod.rs:31). Each is a `requires` in the model.
- App.App.OnKey: `deletion_progress` is an `f32` modelled by its bit
  pattern (`Float32`); no floating-point arithmetic is modelled.
- `usize` bounds on indices and lengths are not modelled; they are unbounded
  naturals.
- `DriveAccessor` (src/disk/mod.rs:14-20) is an interface with no
  implementation in the core, and is not modelled.
- `DiskDisplay`, `handle_app`, `burn_disk`, `memory_is_available`,
  `resolve_disk_type` and `WritePath` are empty stubs, or unused by the
  core's operations, and are not modelled. The commented-out copy loop of
  `create_disk_backup` is not modelled.
- `tui`'s `ListState` is modelled by its selected index only; its scroll
  offset is not.
