# backup — a Dafny model

This project models the core of `backup`, a repository that holds two backup
engines side by side.

- **The `.backup` container (Rust).**
  - `create_backup_file` writes the container. It holds a 16-byte header: the magic `BKUP`, the version 1 as a little-endian u32, and the manifest length as a little-endian u64. The manifest JSON follows, then one frame per file. A frame is a u16 path length, the path, a u64 size, a 32-byte SHA-256 digest and the data.
  - Three readers parse the container. `verify_backup_file` walks every frame and counts digest matches. `restore_backup` recreates every frame as a file at `restore_dir.join(path)`: below the restore directory for a relative stored path without `..`, but at the stored path itself when that is absolute, and outside the directory when `..` climbs out of it. `inspect_backup` summarises the manifest and never looks at the frames.
- **The directory mirror (C).**
  - `copy_file`, `fs_ensure_directory` and `copy_tree_recursive` (in `fs.c`) run over an abstract POSIX filesystem.
  - `backup_run` (in `backup.c`) sits on top of them. It either mirrors the source into `destination/name`, or runs `tar` to make `destination/name.tar.gz`.
- **The small Rust helpers.**
  - `BackupConfig::from_args`, the argument parser.
  - `PathFilter`, the include/exclude glob decision.
  - `validate_paths`, the source/backup-directory checks.
  - `hash_to_hex` and the manifest's `files` list.

Everything the core calls but does not define becomes a parameter:

- SHA-256 is a function `seq<Byte> -> Digest`.
- The JSON parser is a function returning `Option<Manifest>`.
- The glob library is a `Globs` record: validity, set building and matching.
- The `tar` child is a function from its argument vector to how it ended.
- Re-opened source files and the output device are small datatypes (`SourceFile`, `Sink`).
- The restore directory is a `RestoreEnv`.
- Each `read`, `write`, `open`, `opendir` and `mkdir` outcome of the C code is an `Io` record of oracles.
- What `validate_paths` sees of the filesystem is an `Env`.

The C engine's filesystem is a map from locations to nodes (`Dir`, `File`,
`Symlink`, `Other`). Paths are resolved from the working directory. `stat` and
`open` follow symbolic links with the Linux bound of 40 link expansions.
`mkdir` does not follow the last component.

Each directory entry is classified with `stat` (`src/fs.c:141`), so
symbolic links are followed, although the loop has a branch that would print
"skipping symlink" for them:

- a link to a file is copied as a file;
- a link to a directory is recursed into;
- a dangling link or a link loop aborts the copy;
- the `S_ISLNK` branch (`src/fs.c:162-163`) can never be taken.

The model follows the code, and `Posix.StatNeverSymlink` proves that the
branch is dead. `copy_file` hands the source's permission bits to `open` with
`O_CREAT | O_TRUNC` (`src/fs.c:33-35`). `open` only applies them to a file it
creates: an existing destination file keeps its own mode.
`FsCopy.CopyFileEffect` states this as the code does it.

Modules, in dependency order:

- `Wrappers`, `Bytes`, `Utf8`, `RustPath`: the shared pieces.
  - `Bytes` covers little-endian integers.
  - `Utf8` covers well-formedness and `to_string_lossy`.
  - `RustPath` covers component-wise paths, `join` on bytes and lexical resolution.
- `Container`, `Entries`, `BackupFile`, `VerifyArchive`, `Restore`, `Inspect`, `ManifestBuilder`, `RoundTrip`: the archive format.
- `Posix`, `FsCopy`, `BackupRun`, `FsMirror`: the C engine.
- `Config`, `Filter`, `Validation`: the Rust helpers.

## Model

| member | source | states |
|---|---|---|
| Bytes.ToLE | src/backup_file.rs:18-22 | a value below 256^width is written as exactly `width` bytes, lowest byte first |
| Bytes.FromLE | src/verify_archive.rs:45-47 | a little-endian field of n bytes reads as a value below 256^n |
| Bytes.FromLEToLE | src/verify_archive.rs:45-47 | a little-endian field reads back as the value that was written into it |
| Bytes.ToLEFromLE | src/verify_archive.rs:88-90 | every byte string is the encoding of the value it reads as, so reading loses nothing |
| Bytes.FromLEInjective | src/verify_archive.rs:88-90 | two fields of equal width that read as the same value are the same bytes |
| Utf8.LossyLength | src/backup_file.rs:36 | `to_string_lossy` gives an empty string exactly for an empty input, and at most three bytes per input byte |
| Utf8.LossyIsValid | src/backup_file.rs:36 | `to_string_lossy` always yields well-formed UTF-8 |
| Utf8.LossyOfValid | src/backup_file.rs:36 | on well-formed UTF-8, `to_string_lossy` changes nothing |
| RustPath.StartsWith | src/validation.rs:48 | `starts_with` holds exactly when the path is the base followed by zero or more whole components |
| RustPath.Join | src/restore.rs:121 | `base.join(rel)` is `rel` itself when `rel` is absolute; otherwise it starts with `base` and `rel`'s components follow |
| RustPath.StripPrefix | src/backup_file.rs:31-35 | `strip_prefix` succeeds exactly when the root is a whole-component prefix; the remainder is relative and joins back onto the root to give the path |
| RustPath.StripJoin | src/manifest.rs:38-42 | stripping the root from `root.join(rel)` gives back `rel` |
| RustPath.StartsWithAntisymmetric | src/validation.rs:44-50 | two paths that each start with the other are equal |
| RustPath.Parse | src/restore.rs:121 | a byte path is absolute exactly when it begins with `/` |
| RustPath.ParseRender | src/backup_file.rs:36 | a path written out as bytes parses back to the same path |
| RustPath.PushBytes | src/restore.rs:121 | `dir.join(path)` on bytes is `path` when `path` is absolute; otherwise it starts with `dir` and ends with `path` |
| RustPath.PushJoins | src/restore.rs:121 | the joined bytes name the path that joining the parsed paths gives |
| RustPath.Resolve | src/restore.rs:121 | where a path leads, read lexically, stays at or below its starting point when it has no `..` |
| RustPath.ResolveAppend | src/restore.rs:121 | resolving `a + b` is resolving `a`, then `b` from there |
| RustPath.PushStaysBelow | src/restore.rs:121 | a relative stored path without `..` leads to the restore directory or below it |
| RustPath.DotDotClimbsOut | src/restore.rs:121 | `"/r".join("../x")` leads to `/x`, outside `/r` |
| Entries.StoredPath | src/backup_file.rs:31-37 | the stored path is well-formed UTF-8; it is the components after the root when the file is under the root, else the whole path, each unchanged when already UTF-8 |
| Container.EncodeHeader | src/backup_file.rs:17-23 | the header is `BKUP`, LE32 1, LE64 of the manifest length, then the manifest: 16 + length bytes |
| Container.EncodeFrame | src/backup_file.rs:47-52 | a frame is LE16 path length, path, LE64 size, the 32-byte digest, then the data |
| Container.EncodeFrames | src/backup_file.rs:30-75 | the frames written back to back take at least 42 bytes each, and the first frame's encoding comes first |
| Container.ReadExact | src/verify_archive.rs:49-50 | `read_exact` of n bytes yields the next n bytes, and fails with `UnexpectedEof` exactly when fewer remain |
| Container.ReadHeader | src/verify_archive.rs:26-57 | a parsed header ends between byte 16 and the end of the archive; its only errors are `UnexpectedEof` and `InvalidData` |
| Container.ReadHeaderSpec | src/verify_archive.rs:26-57 | the header parses exactly when the magic and version are right, the declared manifest is all there and it parses. A wrong magic or version is `InvalidData`. A short archive is `UnexpectedEof`. Frames start right after the declared manifest |
| Container.ReadHeaderPrefix | src/inspect.rs:44-56 | the header parse depends only on the bytes up to the end of the declared manifest |
| Container.ReadEncodedHeader | src/verify_archive.rs:26-57 | the writer's header followed by anything parses back to the manifest, with frames starting at 16 + its length |
| Container.ReadFrameHeader | src/verify_archive.rs:74-93 | a read frame header has a UTF-8 path taken from the archive, a u64 size, and data starting 42 + path length bytes on |
| Container.ReadFrameHeaderSpec | src/verify_archive.rs:74-93 | field by field what the frame header reads; a present but non-UTF-8 path is `InvalidData`; success exactly when 42 + length bytes remain and the path is UTF-8 |
| Container.ReadFrameHeaderOf | src/verify_archive.rs:74-93 | fields laid out as the format says read back as those fields |
| Container.EncodedFrameFields | src/backup_file.rs:49-52 | where each field of a frame written at an offset lies in the archive |
| Container.ReadEncodedFrame | src/verify_archive.rs:74-93 | a frame written at an offset reads back as the header it was written with, and its data follows |
| Container.ReadFrameHeaderLocal | src/verify_archive.rs:66-93 | reading a frame header looks only at the bytes from its offset on |
| Container.ReadFrameHeaderShift | src/restore.rs:91-119 | two archives with equal suffixes read equal frame headers from them |
| BackupFile.Drain | src/backup_file.rs:63-74 | the copy loop yields the first `size` bytes the source offers, fewer if it ends early; a read error aborts |
| BackupFile.FrameData | src/backup_file.rs:54-74 | a frame's data is at most `size` bytes, a prefix of what the source offers; none when the reopen fails; an error exactly when a read fails before `size` bytes |
| BackupFile.Kept | src/backup_file.rs:39-45 | every entry that gets a frame is one of the input entries, and its stored path fits in 65535 bytes |
| BackupFile.KeptAll | src/backup_file.rs:39-45 | every entry gets a frame exactly when every stored path fits |
| BackupFile.WriteFrames | src/backup_file.rs:30-75 | the frame loop's only error is an OS error |
| BackupFile.WriteFramesFails | src/backup_file.rs:54-74 | the frame loop fails exactly when re-reading some kept entry fails |
| BackupFile.WriteFramesSpec | src/backup_file.rs:30-75 | a successful loop writes one frame per kept entry, in order, with its stored path, size and digest and at most `size` data bytes |
| BackupFile.CreateBackupFile | src/backup_file.rs:7-80 | the output starts with the header and the manifest; a failed create is an error; with room for everything, success exactly when no re-read fails; a successful output fits in the sink |
| BackupFile.CreateBackupFileFits | src/backup_file.rs:17-75 | on a bounded sink, success exactly when no re-read fails and the whole archive fits, and then it is that archive; anything larger is a write error |
| BackupFile.CreateBackupFileLayout | src/backup_file.rs:17-75 | a successful run writes exactly the header, the manifest and the kept entries' frames, back to back |
| BackupFile.LongPathWritesNothing | src/backup_file.rs:39-45 | an entry whose stored path is too long contributes nothing: the run is as if it were absent |
| BackupFile.SkipLongHead | src/backup_file.rs:39-45 | a too-long first entry is passed over |
| VerifyArchive.Intact | src/verify_archive.rs:115-120 | the intact frames are frames of the input whose data hashes to their digest |
| VerifyArchive.ReadFrames | src/verify_archive.rs:66-121 | the record loop's only errors are `UnexpectedEof` and `InvalidData` |
| VerifyArchive.ReadFramesWellFormed | src/verify_archive.rs:74-111 | every frame read back carries all `size` data bytes and a UTF-8 path |
| VerifyArchive.Count | src/verify_archive.rs:113-120 | one `checked` per frame, and `checked = ok + mismatched` |
| VerifyArchive.CountOk | src/verify_archive.rs:113-120 | `ok` counts exactly the intact frames and `mismatched` the rest |
| VerifyArchive.VerifyBackupFile | src/verify_archive.rs:22-139 | header errors pass through. The run succeeds exactly when the header and every frame read. The counters account for every frame. The manifest-count warning is raised exactly when the counts differ, and the result is still `Ok` |
| VerifyArchive.ReadFramesNext | src/verify_archive.rs:74-111 | a frame whose data is present is followed by the rest of the loop, or the rest's error |
| VerifyArchive.ReadEncodedFrames | src/verify_archive.rs:66-121 | complete frames with UTF-8 paths, written back to back, read back exactly |
| VerifyArchive.VerifyEncoded | src/verify_archive.rs:22-139 | verifying a written header and complete frames reads exactly those frames, counts the intact ones, and warns exactly when their number differs from the manifest's |
| VerifyArchive.CleanEnd | src/verify_archive.rs:66-72 | the loop ends cleanly with no frame exactly when fewer than two bytes remain |
| VerifyArchive.TruncatedDataIsEof | src/verify_archive.rs:99-107 | data running past the end of the archive is `UnexpectedEof` |
| VerifyArchive.NonUtf8PathIsInvalidData | src/verify_archive.rs:78-86 | a present but non-UTF-8 path is `InvalidData` |
| VerifyArchive.ReadFramesFirst | src/verify_archive.rs:74-111 | the first frame consumes 42 + path length + size bytes, and the loop resumes right after them |
| Restore.Skip | src/restore.rs:126-129 | the intended skip over a frame's data moves the reader forward, strictly when the size is positive; the seek as written is `Restore.SkipAsWritten` (see Findings) |
| Restore.DestinationJoins | src/restore.rs:121 | a frame is written at `restore_dir.join(path)`: the stored path itself when it is absolute, and in general the path that joining the parsed paths names |
| Restore.HandleOutcome | src/restore.rs:121-178 | one frame gives one action for its path first. It fails exactly when the parent directory or the file cannot be created at the destination. It is restored only when all its data is present, with those bytes, and intact exactly when their digest matches. The loop goes on after a restored or failed frame and stops with an error after any other |
| Restore.RestoreFramesSettled | src/restore.rs:91-179 | the loop's only errors are `UnexpectedEof`, `InvalidData` and OS errors; a loop that ended cleanly only restored or skipped files, with the intended forward skip (see Findings) |
| Restore.Count | src/restore.rs:130-177 | the counters never exceed the number of actions |
| Restore.Report | src/restore.rs:77-188 | a non-directory target is `InvalidInput` and a failed create an error, both before any frame. The target is created exactly when missing and creatable. On success the counters count the actions and add up to their number |
| Restore.RestoreBackup | src/restore.rs:28-189 | header errors pass through with nothing created; the target checks come next; on success `restored + mismatched + failed` is the number of frames handled |
| Restore.CountSettled | src/restore.rs:130-177 | on a clean loop every action adds to exactly one counter |
| Restore.RestoreFramesUnfold | src/restore.rs:99-179 | one pass of the loop at a frame header, and where the loop resumes: `size` bytes after the header |
| Restore.RestoredFrame | src/restore.rs:148-178 | a creatable file with all its data present receives exactly its `size` bytes and is intact exactly when they hash to the digest; the loop goes on after them |
| Restore.RestoreFramesShift | src/restore.rs:91-179 | the loop reads only the bytes from its position on |
| Restore.RestoreBackupOf | src/restore.rs:77-91 | once the header is read, the run is the target check and then the loop from the first frame |
| Restore.RestoreIgnoresManifest | src/restore.rs:69-188 | the manifest's content plays no part: archives whose frames agree restore the same files with the same counters |
| Restore.FailedSkipsData | src/restore.rs:123-146 | a file whose directory or file cannot be created is counted as failed, and the loop resumes after its data |
| Restore.SkippedTruncationEndsClean | src/restore.rs:126-131 | a skipped frame whose data runs past the end lands past the end, and the loop ends cleanly |
| Restore.TruncatedDataIsEof | src/restore.rs:152-160 | a created file whose data runs past the end aborts the run with `UnexpectedEof` |
| Restore.NonUtf8PathIsInvalidData | src/restore.rs:103-112 | a non-UTF-8 path aborts the run with `InvalidData` before any file is touched |
| Restore.CleanEnd | src/restore.rs:91-97 | the loop ends cleanly with nothing done exactly when fewer than two bytes remain |
| Restore.AsI64 | src/restore.rs:127 | `size as i64` is the value in the i64 range that agrees with the size modulo 2^64 |
| Restore.SkipAsWritten | src/restore.rs:126-129 | the seek as written either leaves the reader in place or moves it by `size as i64` |
| Restore.SkipAsWrittenAgrees | src/restore.rs:139-142 | below 2^63, and for targets an i64 holds, the seek as written is the intended skip |
| Restore.SkipAsWrittenRewinds | src/restore.rs:127 | a declared size of 2^64 − k moves the reader k bytes back where the intended skip moves it forward |
| Restore.RewindRereadsFrame | src/restore.rs:135-146 | with size 2^64 minus the header length, the seek as written lands back on the frame's own header; the intended skip ends the loop cleanly |
| Inspect.TotalSizeAppend | src/inspect.rs:59 | the total size of two lists is the sum of their totals |
| Inspect.TotalSize | src/inspect.rs:59 | no file is larger than the total, and the total is 0 exactly when every file is empty |
| Inspect.SumSizes | src/inspect.rs:59 | the running sum, front to back, is the total size |
| Inspect.InspectBackup | src/inspect.rs:21-77 | success exactly when the header and manifest parse. On success: the file count is the manifest's, the sample is its first min(10, n) files in order, and "N more" is printed exactly when n > 10, with N = n − 10 |
| Inspect.InspectHeader | src/inspect.rs:25-59 | a wrong magic or version is `InvalidData`; on success the declared manifest is present, parses, and gives the count and total size |
| Inspect.InspectIgnoresFrames | src/inspect.rs:21-76 | whatever follows the manifest leaves the result unchanged |
| Inspect.InspectHeaderOnly | src/inspect.rs:44-56 | the archive cut right after its manifest inspects the same |
| ManifestBuilder.HexDigit | src/manifest.rs:25 | a nibble becomes a lowercase hexadecimal digit |
| ManifestBuilder.DigitValue | src/manifest.rs:25 | a lowercase hexadecimal digit stands for the nibble that prints as it |
| ManifestBuilder.ByteHex | src/manifest.rs:25 | `{:02x}` prints exactly two lowercase hexadecimal digits |
| ManifestBuilder.ByteHexValue | src/manifest.rs:25 | the two digits are the high nibble then the low one |
| ManifestBuilder.HashToHex | src/manifest.rs:20-28 | two characters per byte: 64 for a digest |
| ManifestBuilder.HashToHexDigits | src/manifest.rs:24-26 | every character is a lowercase digit, and byte i is spelled at 2i, high nibble first |
| ManifestBuilder.FromHex | src/manifest.rs:20-28 | the reference reading of pairs of digits as bytes takes two characters per byte |
| ManifestBuilder.FromHexToHex | src/manifest.rs:20-28 | the hexadecimal form reads back as the bytes it was made from |
| ManifestBuilder.ToHexFromHex | src/manifest.rs:20-28 | a string that reads as bytes is exactly their hexadecimal form |
| ManifestBuilder.HashToHexInjective | src/manifest.rs:24-26 | distinct digests have distinct hexadecimal forms |
| ManifestBuilder.ManifestEntry | src/manifest.rs:37-49 | an entry's path is UTF-8 and its `sha256` is 64 characters that read back as the file's digest |
| ManifestBuilder.ManifestFiles | src/manifest.rs:35-50 | one entry per hashed file, same order, with the stored path, the size unchanged and the digest in hexadecimal |
| ManifestBuilder.ManifestEntryIn | src/manifest.rs:35-50 | every hashed file's entry is in the list |
| ManifestBuilder.ManifestCoversFrames | src/manifest.rs:35-50 | each frame written for the same files has a manifest entry with its path, size and digest |
| RoundTrip.Restorations | src/restore.rs:148-178 | restoring frames into an accepting directory records one action per frame |
| RoundTrip.RestorationsOf | src/restore.rs:148-178 | action i restores frame i's path and data, marked intact exactly when its digest matches |
| RoundTrip.RestoreMatchesRead | src/restore.rs:91-179 | into a directory that accepts every file, restore walks the frames verify reads, and stops with verify's error |
| RoundTrip.CountRestorations | src/restore.rs:169-178 | restore's `restored` and `mismatched` are verify's `ok` and `mismatched`; `failed` is 0 |
| RoundTrip.LaxerHeader | src/restore.rs:8-17 | a reader whose manifest struct asks for less reads every header a stricter one reads, with the same frame start and file count; where the laxer one fails both fail alike, and only the stricter one can fail alone, with `InvalidData` |
| RoundTrip.RestoreAgreesWithVerify | src/restore.rs:28-189 | into an accepting directory, and with restore's laxer manifest struct: past the header, restore's loop succeeds exactly when verify's frame loop does, fails with its error, and recreates exactly its frames; when verify succeeds, restore does with the same counts and nothing failed; once verify's header reads, the two succeed together or fail with the same error; when restore's header fails, verify fails with the same error |
| RoundTrip.RestoreAcceptsWhatVerifyRejects | src/restore.rs:8-17 | an archive with no frames whose manifest only restore's struct accepts restores with all counters 0, while verify and inspect fail with `InvalidData` |
| RoundTrip.StoredEntryLandsBelow | src/restore.rs:121 | an entry stored relative to its root is restored below the restore directory, at its path relative to the root |
| RoundTrip.OutsideEntryEscapes | src/backup_file.rs:31-35 | an absolute entry outside the root is stored whole and restored at that absolute path, not below the restore directory |
| RoundTrip.FramesComplete | src/backup_file.rs:63-74 | when every source still holds its hashed size, every written frame is complete |
| RoundTrip.NoReadFails | src/backup_file.rs:54-74 | when every source still holds its hashed size, no re-read fails |
| RoundTrip.KeptFrames | src/backup_file.rs:39-74 | then each written frame carries all `size` bytes of its entry, under its stored path |
| RoundTrip.CreateThenVerify | src/backup_file.rs:17-74 | a written archive verifies, reading back one complete frame per kept entry in order; the count warning fires exactly when the manifest lists another number |
| RoundTrip.CreateThenRestore | src/restore.rs:91-179 | a written archive restores one file per kept entry, in order, under its stored path, with exactly its `size` bytes, and none failed |
| RoundTrip.CreateThenVerifyWarns | src/verify_archive.rs:125-131 | when the manifest lists one file per hashed file, verify warns exactly when some stored path was too long for a frame |
| RoundTrip.CreateThenInspect | src/inspect.rs:58-74 | inspecting a written archive reports one file per entry and lists the first entries' stored paths and sizes, in order |
| RoundTrip.ReadersShareHeaderChecks | src/inspect.rs:25-56 | with inspect's manifest struct the strictest and restore's the laxest: a header restore rejects gives all three readers the same error and restore creates nothing; one verify rejects gives inspect and verify the same error; when inspect succeeds both other headers read, with the same frame start; when inspect and verify both succeed they count the same manifest files; when verify succeeds restore's header reads |
| Posix.ModeKinds | src/fs.c:148-163 | `S_ISDIR`, `S_ISREG` and `S_ISLNK` of `st_mode` tell exactly the node's kind |
| Posix.SegmentsChild | src/fs.c:126-138 | `dir + "/" + name` resolves one component further than `dir` |
| Posix.Walk | src/fs.c:141 | resolution ends where it starts for no components, uses up at most its link budget, and fails only with `ENOENT`, `ENOTDIR` or `ELOOP` |
| Posix.Locate | src/fs.c:141 | an empty path is `ENOENT`; the only errors are `ENOENT`, `ENOTDIR` and `ELOOP` |
| Posix.Stat | src/fs.c:141 | `stat` succeeds exactly when the path resolves to an existing node; the only errors are `ENOENT`, `ENOTDIR` and `ELOOP` |
| Posix.WalkAppend | src/fs.c:126-141 | resolving `a + b` is resolving `a`, following links, then `b` from there with the links left |
| Posix.ChildPathLeadsToChild | src/fs.c:126-141 | `dir/name` leads to the entry `name` of the directory `dir` leads to, when that entry is not a link |
| Posix.WalkStable | src/fs.c:94-176 | a resolution that ends on an existing node resolves the same after nodes are only added or filled |
| Posix.StatStable | src/fs.c:94-176 | what `stat` finds stays found, with the same kind, after nodes are only added or filled |
| Posix.AddNode | src/fs.c:94 | creating an entry adds exactly that location, lists it in its parent, and changes nothing else |
| Posix.Mkdir | src/fs.c:94 | a successful `mkdir` adds one empty directory with the given mode at a location that did not exist |
| Posix.OpenRead | src/fs.c:20 | an opened file exists |
| Posix.OpenWrite | src/fs.c:35 | `O_WRONLY\|O_CREAT\|O_TRUNC` empties an existing regular file and keeps its mode, or creates a new one with the given mode in an existing directory; nothing else changes |
| Posix.ReadDir | src/fs.c:107-117 | `readdir` yields `.`, `..`, then the directory's entries; it succeeds only on what `stat` finds to be a directory |
| Posix.WalkAvoidsLinks | src/fs.c:141 | a resolution that follows every link never ends on a link |
| Posix.StatNeverSymlink | src/fs.c:140-163 | `stat` never reports a symbolic link, so the `S_ISLNK` branch is dead |
| Posix.StatAfterMkdir | src/fs.c:94-103 | after a successful `mkdir`, `stat` of the path finds the new empty directory |
| Posix.AddNodeExtends | src/fs.c:94 | adding an entry keeps every node and well-formedness |
| Posix.SetFileExtends | src/fs.c:45-67 | writing a file's data keeps every node and well-formedness |
| Posix.MkdirExtends | src/fs.c:94 | `mkdir` keeps every node and well-formedness |
| Posix.OpenWriteExtends | src/fs.c:35 | opening for writing keeps every node and well-formedness |
| FsCopy.WriteAll | src/fs.c:55-66 | the short-write loop stays within the chunk, and when it reports success it has reached the chunk's end |
| FsCopy.CopyLoop | src/fs.c:45-67 | the read loop copies a number of bytes between its start and the end of the source |
| FsCopy.CopyData | src/fs.c:45-67 | what the destination receives is always a prefix of the source's bytes; its length and the error flag are those of the read loop |
| FsCopy.WriteChunk | src/fs.c:55-66 | the inner loop extends the destination by a longer prefix of the source, up to the chunk's end on success |
| FsCopy.WriteAllStep | src/fs.c:58-65 | one successful `write` advances by the count it returned |
| FsCopy.CopyLoopStops | src/fs.c:47-53 | a failed `read` ends the loop with an error, and a `read` of 0 ends it cleanly, where it stands |
| FsCopy.CopyLoopWriteFails | src/fs.c:58-63 | a failed `write` ends the loop with an error where the writing stopped |
| FsCopy.WriteAllCompletes | src/fs.c:57-66 | with writes that never fail, the inner loop writes the whole chunk, however short each write |
| FsCopy.HonestCopyLoop | src/fs.c:45-67 | with reads and writes that never fail, every byte is copied, however short each read and write |
| FsCopy.CopyFile | src/fs.c:15-79 | `copy_file` returns 0 or -1; a failed source open, `fstat` or destination open returns -1 with nothing changed |
| FsCopy.CreationMode | src/fs.c:33 | `st_mode & 0777` of a regular file is its mode without the set-user-ID, set-group-ID and sticky bits |
| FsCopy.CopyFileEffect | src/fs.c:20-69 | after the opens the destination is a regular file holding a prefix of the source's bytes. A new file gets the source's permission bits and an existing one keeps its mode. Nothing else changes. Success exactly when no read or write failed |
| FsCopy.CopyFileHonest | src/fs.c:15-79 | onto another file, with no read or write failing, `copy_file` succeeds and the destination holds exactly the source's bytes |
| FsCopy.CopyOntoItself | src/fs.c:35-47 | copying a file onto itself empties it: the read follows the truncating open |
| FsCopy.CopyFileExtends | src/fs.c:15-79 | `copy_file` keeps every node and well-formedness |
| FsCopy.EnsureDirectory | src/fs.c:81-104 | 0 exactly when `stat` then finds a directory at the path; -1 changes nothing |
| FsCopy.EnsureDirectoryIdempotent | src/fs.c:83-89 | ensuring a directory a second time returns 0 and changes nothing |
| FsCopy.EnsureDirectoryCreatesOne | src/fs.c:94-98 | an existing path is never changed; otherwise the only change is one new empty 0755 directory inside an existing one, and parents are never created |
| FsCopy.EnsureDirectoryConflict | src/fs.c:90-91 | an existing non-directory, or a link to one, is -1 and nothing changes |
| FsCopy.EnsureDirectoryExtends | src/fs.c:81-104 | ensuring a directory keeps every node and well-formedness |
| FsCopy.ChildPath | src/fs.c:126 | `"%s/%s"` is the directory, a slash and the name |
| FsCopy.CopyTree | src/fs.c:106-172 | the tree copy returns 0 or -1; what a 0 leaves behind is `FsMirror.CopyTreeMirrors` |
| FsCopy.CopyEntries | src/fs.c:117-168 | the entry loop returns 0 or -1 |
| FsCopy.CopyEntriesAppend | src/fs.c:117-168 | fail-fast: walking `a + b` walks `a`, then `b` from where `a` left off, unless `a` failed, and then nothing of `b` happens |
| FsCopy.DotsSkipped | src/fs.c:120-121 | `.` and `..` change nothing and fail nothing |
| FsCopy.PathTooLongFails | src/fs.c:126-138 | an entry whose source or destination path does not fit in `PATH_MAX` stops the walk with -1 before any `stat` |
| FsCopy.UnresolvedEntryFails | src/fs.c:141-146 | an entry `stat` cannot resolve, such as a dangling link, stops the walk with -1 and changes nothing |
| FsCopy.SpecialFileSkipped | src/fs.c:164-167 | a FIFO, socket or device is passed over without error or change |
| FsCopy.RegularFileCopied | src/fs.c:157-161 | a regular file, or a link to one, is copied with `copy_file` to `dst/name`; the walk goes on only if that succeeded |
| FsCopy.DirectoryRecursed | src/fs.c:148-156 | a directory, or a link to one, is ensured at `dst/name` and copied into before the walk goes on; either failure stops it with -1 |
| FsCopy.UnlistableFails | src/fs.c:107-112 | a directory that cannot be opened is -1 with nothing changed |
| FsCopy.CopyTreeExtends | src/fs.c:174-176 | the tree copy, whatever its outcome, only adds nodes and fills files, and keeps the filesystem well-formed |
| FsCopy.CopyEntriesExtends | src/fs.c:117-168 | the same for the entry loop |
| FsMirror.MirrorsMono | src/fs.c:148-161 | a mirror holds when the source is read in an earlier state and the destination in a later one, nodes being only added or filled in between |
| FsMirror.CopyFileLands | src/fs.c:157-161 | a `copy_file` that returns 0 leaves a regular file at the destination path |
| FsMirror.CopyTreeMirrors | src/fs.c:106-176 | when the tree copy returns 0, every directory and regular file the source listed (links followed), all the way down, has a directory or regular file at the same relative path below the destination |
| FsMirror.CopyEntriesMirrors | src/fs.c:117-168 | when the entry loop returns 0, every listed name other than `.` and `..` has its counterpart |
| BackupRun.ExitedZeroExactly | src/backup.c:71-74 | the success test on the status word holds for a child that exited with 0 and for no other exit code or signal |
| BackupRun.BackupPath | src/backup.c:15-16 | the target is destination, `/`, name |
| BackupRun.ArchivePath | src/backup.c:40-41 | the archive is the directory target followed by `.tar.gz` |
| BackupRun.TarArgs | src/backup.c:59-60 | `tar -czf <archive> -C <source> .` |
| BackupRun.RunDirectory | src/backup.c:13-36 | directory mode never runs `tar` and returns 0 or -1 |
| BackupRun.RunCompressed | src/backup.c:38-81 | archive mode returns 0 or -1 and succeeds only after running `tar -czf <destination/name.tar.gz> -C <source> .`; it makes no change of its own, and what `tar` writes is not modelled |
| BackupRun.Run | src/backup.c:83-118 | `backup_run` returns 0 or -1 |
| BackupRun.ChecksComeFirst | src/backup.c:84-111 | missing options, or a source or destination that `stat` cannot find or that is not a directory, give -1 before any change and before `tar` |
| BackupRun.ModeSelection | src/backup.c:113-117 | past the checks, the compress flag alone picks archive or directory mode |
| BackupRun.ArchiveOutcome | src/backup.c:52-80 | archive mode succeeds exactly when the path fits and `tar` exited normally with 0; an exec failure (exit 127) is -1 |
| BackupRun.TargetTooLong | src/backup.c:15-20 | a target that does not fit in `PATH_MAX` is -1 with nothing changed |
| BackupRun.ExistingTargetReused | src/backup.c:27-35 | an existing target directory is reused as it is: the run is the tree copy into it |
| BackupRun.NewTargetCreated | src/backup.c:27-35 | a missing target is made with `mkdir(target, 0755)`: a failure is -1 with nothing changed; otherwise the target is a new empty directory and the run is the tree copy into it |
| BackupRun.TargetConflict | src/backup.c:27-28 | an existing non-directory target is -1 with nothing changed |
| BackupRun.RunExtends | src/backup.c:83-118 | a run only adds nodes and fills files, and keeps the filesystem well-formed |
| FsMirror.RunDirectoryMirrors | src/backup.c:13-36 | a directory-mode run that returns 0 leaves `destination/name` a directory that mirrors the source as listed when the run began |
| Config.ParseUsize | src/config.rs:35-39 | a parsed thread count is below 2^64 |
| Config.ParseDecimal | src/config.rs:35-39 | every number below 2^64 reads back from its decimal spelling, with or without `+`; larger ones are rejected |
| Config.LeadingZero | src/config.rs:35-39 | leading zeros do not change the value |
| Config.ParseUsizeRejects | src/config.rs:35-39 | an empty value, a lone `+` and a negative number are rejected |
| Config.ParseOptions | src/config.rs:29-59 | the option loop keeps source and destination and only appends patterns |
| Config.FromArgs | src/config.rs:15-70 | `Err("missing <backup-dir> path")` exactly when there is no second argument; otherwise source and destination are the first two arguments |
| Config.ParseOptionsErrors | src/config.rs:29-59 | the loop's only messages are the four missing or invalid value messages and `unknown argument: ` followed by an argument given |
| Config.ParseOptionsMeaning | src/config.rs:29-59 | the loop succeeds exactly when the arguments spell a list of options, and then leaves the configuration that list describes |
| Config.LastThreadsIsLast | src/config.rs:31-40 | the thread count is that of the last `--threads`/`-j`, and none when there is none |
| Config.FromArgsMeaning | src/config.rs:15-70 | `from_args` is the options applied to the defaults: no thread count, no flags, no patterns |
| Config.UnknownArgument | src/config.rs:55-57 | any other word, a second positional argument included, is rejected by name |
| Config.PatternTakenVerbatim | src/config.rs:42-53 | the value after `--include` or `--exclude` is appended as it is, even when it looks like an option |
| Filter.FirstInvalid | src/filter.rs:15-18 | the first pattern the glob library rejects, and none exactly when every pattern is valid |
| Filter.BuildSet | src/filter.rs:11-25 | an empty list builds no set and a non-empty one a set of exactly its patterns |
| Filter.FromPatterns | src/filter.rs:10-44 | succeeds exactly when both sets build; an include error wins over any exclude error |
| Filter.AnyMatch | src/filter.rs:50 | a set matches exactly when one of its patterns does |
| Filter.SlashesForward | src/filter.rs:47 | each backslash becomes a slash, every other byte is kept |
| Filter.MatchString | src/filter.rs:47 | the string the globs see contains no backslash |
| Filter.SlashesForwardIdempotent | src/filter.rs:47 | replacing backslashes twice is replacing them once |
| Filter.FromPatternsErrors | src/filter.rs:10-44 | empty lists give no sets. The first invalid include pattern is reported before any exclude is looked at, and then the first invalid exclude. Success means every pattern is valid |
| Filter.Allow | src/filter.rs:46-60 | an exclude match refuses the path, a missing include match refuses it, and with no sets every path is allowed |
| Filter.AllowPatterns | src/filter.rs:46-60 | a path is allowed exactly when no exclude pattern matches it and, if there are include patterns, one of them does |
| Filter.ExcludeWins | src/filter.rs:49-53 | an exclude match refuses the path whatever the includes say |
| Validation.ValidatePaths | src/validation.rs:11-56 | the backup directory is created exactly when the source is a directory and the backup directory is missing; on success the canonical paths differ and the backup directory is not inside the source |
| Validation.ValidateOkExactly | src/validation.rs:35-55 | success exactly when every check passes and the canonical backup directory is neither the canonical source nor under it; it then returns the canonical forms |
| Validation.SourceChecked | src/validation.rs:15-21 | a missing or non-directory source is refused before anything is created |
| Validation.BackupNotDirectoryRefused | src/validation.rs:23-28 | an existing non-directory backup destination is refused before anything is created |
| Validation.CreatedBeforeOverlapChecks | src/validation.rs:30-46 | a missing backup directory is created even when the overlap checks then refuse |
| Validation.SameDirectoryRefused | src/validation.rs:44-46 | equal canonical paths are refused |
| Validation.InsideSourceRefused | src/validation.rs:48-50 | a backup directory under the source, component-wise, is refused |
| Validation.SourceInsideBackupAccepted | src/validation.rs:48-55 | a source under the backup directory is accepted |
| Validation.Message | src/validation.rs:15-50 | every message is non-empty; the ones that go on to format a path or an error end in a space before it, the two fixed sentences do not |

## Left out

- SHA-256, the JSON serialiser and parser, and glob syntax and matching are parameters. Nothing is assumed about them beyond their types; a digest is 32 bytes.
- The `fork`, `execlp` and `waitpid` of `tar` are one oracle from the argument vector to the outcome. What `tar` writes is not modelled.
- `hash_files_parallel` and the other rayon code, the `walkdir` scan, the command-line front ends (`main.rs`, `main.c`), progress bars and every diagnostic printed to stdout or stderr are left out. So are the `verbose` flag's messages.
- The clock: the timestamped names and the manifest's `created_at` are left out.
- Operating-system error causes: in the writer, the C mirror and the restore target, every failure of `open`, `read`, `write`, `mkdir`, `opendir`, `create_dir_all` or `canonicalize` is an oracle result, without its `errno`. The three readers take the archive as a byte string instead, so only the end of that string can fail a read there (see the reader lines below).
- Container.ReadHeader: the archive is a byte string, so a failing `File::open` and a read error other than end of file are not modelled; nor is the abort of `vec![0u8; manifest_len]` when a huge declared manifest length cannot be allocated, which the model reports as `UnexpectedEof` at the end of the data.
- Container.ReadHeaderSpec: states the header checks on a byte string; the failed open, the non-end-of-file read errors and the allocation abort for a huge `manifest_len` are not part of it.
- Container.ReadFrameHeader: read errors other than end of file are not modelled; the path buffer is at most 65535 bytes, so its allocation cannot abort.
- VerifyArchive.ReadFrames: the frame loop reads a byte string, so read errors other than end of file are not modelled.
- VerifyArchive.VerifyBackupFile: a failing `File::open` and read errors other than end of file are not modelled.
- Inspect.InspectBackup: a failing `File::open` and read errors other than end of file are not modelled.
- Restore.RestoreBackup: opening the archive and reading it are not oracles; only the target checks, `create_dir_all`, `File::create` and the writes are.
- Restore.RestoreFramesSettled: the loop reads a byte string, so it stops on `Os` only for a failed write, never for a failed read.
- Restore.Skip: states the intended forward skip, not the `size as i64` seek of `src/restore.rs:127`; the seek as written is `Restore.SkipAsWritten`, and the gap is under Findings.
- Restore.HandleOutcome: whether a frame's write fails is one oracle per destination, consulted after the data is found complete, so a truncated frame always reports `UnexpectedEof`. With `BufWriter` a write error of an earlier chunk could surface first; chunking is not modelled.
- BackupRun.RunCompressed: `tar` is an oracle on its arguments; the archive it writes is not added to the filesystem, which is returned unchanged.
- FsCopy.CopyTree: its own contract gives only the return code; the structure it leaves is `FsMirror.CopyTreeMirrors` (directories and regular files by kind, all the way down). File contents are not promised at the tree level, because a link inside the source or a destination inside the source lets one copy overwrite another; what one `copy_file` writes is `FsCopy.CopyFileHonest`.
- Posix.OpenWrite: a FIFO, socket or device at the path is refused with `EACCES`, while a real FIFO would block until a reader opens it and a device would accept the write; hard links cannot be expressed in the tree, so two paths never share one file.
- RustPath.Resolve: resolves `.` and `..` lexically; it does not follow symbolic links below the restore directory.
- The text of messages that format a path with `{:?}` or an `io::Error` with `{e}`: `Validation.Message` and the `FilterError` cases keep only the fixed part.
- Buffering (`BufReader`/`BufWriter`) and the buffer sizes do not change what is read or written, so reads and writes are modelled on whole byte strings. The C loop's 64 KiB buffer is kept, because it bounds each read.
- Sums of sizes are unbounded integers: the u64 overflow of `.sum()` is left out.
- Closing descriptors and `closedir` have no effect on the modelled filesystem.
- The `umask` is taken to be 0, and trailing slashes in paths are not given their special meaning.
- `readdir` is taken to list the directory as it was at `opendir`; entries added during the walk are not seen.
- `PATH_MAX` is compared with the number of characters of a path, not of its bytes.
- FsCopy.WriteAll: a `write` returning 0 is excluded by the type of the oracle (`Positive`), because the inner loop would spin forever on it.
- BackupFile.CreateBackupFile: write errors are one capacity bound on the whole output (`BackupFile.CreateBackupFileFits`), so a write that fails for another reason before the sink is full is not modelled; the partly written file left behind after an error is not modelled either.
- Validation.ValidatePaths: `canonicalize` is one oracle read after any creation. `exists()` and `is_dir()` are read once each, so races between the checks are not modelled.

## Findings

| source | as written | input that shows it | evidently intended | confidence | as-written member | corrected member |
|---|---|---|---|---|---|---|
| src/restore.rs:123-146 | the skip over a frame whose directory or file cannot be created is `seek(SeekFrom::Current(size as i64))`; a `size` of 2^63 or more turns negative and moves the reader back | a frame whose file cannot be created and whose declared size is 2^64 minus its header length (42 + path length): the seek lands on the frame's own header, which is read again and fails again forever | skip `size` bytes forward, ending the loop when that passes the end of the archive | not executed | Restore.RewindRereadsFrame | Restore.Skip |
