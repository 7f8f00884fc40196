# CC2 camera maintenance: verified model

This Dafny project models the byte-level and state-machine core of the camera maintenance tools and proves
what they promise. `dafny verify dfyconfig.toml` checks all of it.

- **JFFS2 config engine** (`Jffs2*.dfy`, `Crc32*.dfy`, `Lists.dfy`): the scanner, fragment replay, serial recovery
  and both builders. What a log means is stated apart from the code and proved to be what it computes:
  `Jffs2Layout` (bytes of a node), `Jffs2Decode` (fragments and bytes of a file), `Jffs2Extract` (live files),
  `Jffs2Serial` and `Jffs2Meaning` (the whole extraction); `Jffs2Written` does the same for what the builders write,
  and `Jffs2Pieces` reads stored pieces back. `Jffs2Compaction` proves that compaction preserves the files of every
  accepted log. `Jffs2Log` says exactly when the scan of a written log sees only the written nodes; a phantom is a
  node that the scan accepts inside a written one. `Jffs2Phantoms` decides compaction for every accepted log, whatever
  phantoms there are, from `Jffs2Dictionary` (entries) and `Jffs2PhantomData` (bytes); `Jffs2Phantom`,
  `Jffs2PhantomScan`, `Jffs2PhantomInode` and `Jffs2PhantomEntry` give simpler conditions for simpler cases.
  `Jffs2MinimalRoundTrip` shows that the serial-only partition has none, `Jffs2Replay` gives each byte its meaning, and
  `Jffs2Obsolete` proves that clearing the accurate bit removes a node, from the CRC's linearity and injectivity on
  bit-vectors.
- **Firmware transfer** (`BootFrame`, `Updater*`, `Transfer*`, `Chunks`): the U-Boot updater as a class with its
  buffers, a value-level transition function for each handler, invariants over all runs, the exact condition for
  bounded retries, the digest gate over every run (`UpdaterDigest`), and the host's loop stepping the device over a
  link that may damage data reports.
- **Linux uploader** (`Crc16`, `NormalReport`, `Report*`, `CStrings`, `Uploader*`, `Upload*`): report building
  and checking with the parity theorem and published values, the five-state daemon as a class, invariants over all
  command sequences, the host's upload against the daemon, once and in series, and what a lost packet does.
- **Key/value config file** (`UvcConfig`, `UvcFields`): GET and SET as loops over the text, refined to lookup and
  update, and stated for arbitrary files.
- **XZ container and system patch** (`XzVli`, `XzReader`, `XzStream`, `XzFields`, `SystemPatch*`, `SystemFiles`): the
  builder against a reader written from The .xz File Format, exactly when the patch succeeds, and every file of the
  patched file system read back through its fragment table.
- **Readers and whole runs** (`Squash*`, `Jpeg*`, `StreamIdentify`, `Mjpeg*`, `Acquire`, `Recovery*`, `RestoreGates`):
  the SquashFS reader with its caches, JPEG and multipart framing, the camera family a stream shows, stable
  acquisition, a recovery image from the dump it is built from to its own analysis, and a restore from its gates
  through the transfer to the verified readback.

The `...Fields` modules and the `...Exactly` lemmas state a component's meaning by offsets and numbers rather than
through the functions that compute it.

Bytes are integers from 0 to 255; 32-bit arithmetic wraps explicitly where the C code's does. Python exceptions
and C error returns are `Result` values. The environment is a parameter: memory allocation, file system outcomes,
flash reads, the link between host and device, the MD5 function, zlib inflation and the LZMA2 codec.

Where code and documentation disagree the model follows the code. `usb-maintenance/PROTOCOL.md` (line 335) says
that a rejected data packet frees the uploader's buffer; `upload_append` and its caller in
`usb-maintenance/source-reconstruction/hid_update_reconstructed.c` (lines 315-333 and 456-466) keep the buffer, and only a failed
commit frees it. `NormalReport`'s CRC shifts right with the non-reflected polynomial 0x1021, as both sides do.

Requirements on callers that stand for C undefined behaviour (reads past a report, zero divisors, writes past a
buffer) are the `...InBounds` predicates; the run theorems prove that they hold whenever the traffic is the host's.

## Model

| member | source | states |
|---|---|---|
| Jffs2Meaning.ExtractExactly | cc2camera/image.py:818-943 | extraction of a node list succeeds with a serial and files if and only if the log says them: every name known or allowed, no tie of newest entries, the serial of the newest complete live copy or else the one all complete copies agree on, and in preserve mode one file for each live name of the root directory with every byte and field from the fragments that govern it, completed by the serial |
| Jffs2Extract.LiveFilesExactly | cc2camera/image.py:712-815 | a log gives a list of files if and only if no newest entries tie, only the root directory has live names, and the files are in name order those that the live names hold, each with its own inode |
| Jffs2Decode.RebuildExactly | cc2camera/image.py:736-815 | a live name becomes a given file if and only if the name is 1 to 255 bytes without slash and NUL, its type and inode are a file's, the inode is new, one fragment is newer than all others and has the file's metadata with regular-file mode and a size within the partition, every fragment unpacks, and each byte is the unpacked byte of the newest fragment over it, or zero |
| Jffs2Decode.DecodeExactly | cc2camera/image.py:659-709 | a fragment decodes exactly when its size is at most 0x20000 and it is stored plainly with that length, as zeros without payload, or as one complete zlib stream that inflates to that length; it decodes to the payload, to zeros, or to what the stream inflates to |
| Jffs2Pieces.PiecesReadBack | cc2camera/image.py:659-815 | a log that stores a file in successive pieces of ascending version, each plain, zero or zlib, gives back exactly that file from its bytes when no phantom is inside a record |
| Jffs2Serial.SerialExactly | cc2camera/image.py:856-905 | the serial is the text of the one newest complete live copy under the live name serial.cfg, refused when no copy is newer than all others; without a live copy it is the text that all complete copies in the log, live or not, agree on |
| Jffs2Meaning.CompletedExactly | cc2camera/image.py:911-943 | the live files stay as they are when serial.cfg among them holds the recovered serial, and are refused when it differs; without one exactly that file is added in name order, with mode 0x81A4, times 18 and the smallest free inode from 2 |
| Jffs2Layout.NodeExactly | cc2camera/image.py:529-652 | bytes at an offset are accepted as a node if and only if they have the magic 85 19, a fitting length, and header, node and name or data CRCs, taken with the live bit set again for an obsolete node; every field is the little-endian word at its offset |
| Jffs2Layout.AcceptedExactly | cc2camera/image.py:529-652 | the scan lists a node if and only if it is accepted at its offset and that offset is a multiple of four |
| Jffs2Layout.ScanRises | cc2camera/image.py:529-652 | the scan lists nodes in the order of their offsets |
| Jffs2Written.DirentBytes | cc2camera/image.py:1065-1082 | a written entry starts 85 19 01 E0, has its length, all fields and three CRCs at their offsets, and zeros in the reserved bytes |
| Jffs2Written.InodeBytes | cc2camera/image.py:1091-1121 | a written data record starts 85 19 02 E0 and has its length, all fields, three CRCs and the payload at their offsets |
| Jffs2Written.CleanBytes | cc2camera/image.py:979-981 | the clean marker starts 85 19 03 20, has length 12 and its CRC |
| Jffs2Written.PartitionLies | cc2camera/image.py:1059-1130 | every byte of a written partition belongs to a record, which starts at the next multiple of four after the one before, or is FF |
| Jffs2Written.PreservedAt | cc2camera/image.py:1064-1128 | each file is written as a root entry of version 1 and one uncompressed data node of version 1 with its metadata |
| Jffs2Written.FitsExactly | cc2camera/image.py:1083-1128 | the records fit exactly when each ends within the first 0x4000 bytes |
| Jffs2Written.MinimalLies | cc2camera/image.py:977-1030 | the serial-only partition holds a clean marker at 0, the entry of serial.cfg at 12 and its data at 64 |
| Jffs2Compaction.CompactionPreservesFiles | cc2camera/image.py:1047-1178 | the form without phantoms: every field is in range for the builder; if the records do not fit the first 0x4000 bytes the builder refuses; if they fit and the written nodes hold no phantom, the builder succeeds and extraction returns exactly the same files (all twelve fields) and the same serial, now live, with no obsolete node |
| Jffs2Phantoms.CompactionDecided | cc2camera/image.py:1047-1178 | for every log that preserve-mode extraction accepts, with no hypothesis on phantoms: its files are rebuilt if and only if their records fit, nothing in the new partition is obsolete, and the newest entries in it name exactly these files, each reading byte for byte as written, or all but a serial.cfg that recovery writes again as it was; what is rebuilt reads back as exactly those files |
| Jffs2Phantoms.AnyPhantoms | cc2camera/image.py:1047-1178 | the same if-and-only-if for any files the builder is entitled to get and any phantoms in their partition |
| Jffs2PhantomData.RebuildIntact | cc2camera/image.py:757-798 | a written file is reconstructed as it was if and only if every fragment of its inode decodes, one fragment is newer than all others and has its metadata, and the newest fragment to cover each byte, by version and then by log order, has the file's byte there |
| Jffs2PhantomData.CopiesNewest | cc2camera/image.py:861-883 | the newest complete serial.cfg inode is unambiguous if and only if one copy is newer than all others |
| Jffs2Dictionary.CollectExactly | cc2camera/image.py:838-849 | collection refuses exactly the logs in which some current entry comes with the version of the newest entries of its key so far; otherwise the dictionary holds the newest entry of each key |
| Jffs2PhantomScan.CompactionExactly | cc2camera/image.py:1047-1178 | a simpler form when the phantoms in the rebuilt partition are clean markers, unknown types, inodes no file has, or obsolete: the builder succeeds if and only if the scan of what was written finds no obsolete node, and extraction then returns exactly those files and that serial |
| Jffs2PhantomScan.BuildsExactly | cc2camera/image.py:1047-1178 | the same simpler form for any files the builder is entitled to get |
| Jffs2PhantomInode.InodePhantom | cc2camera/image.py:757-798 | one current phantom data node of a file: the builder succeeds if and only if the node decodes and is older than the file's own, or is newer with the file's metadata and writes the bytes the file already has there |
| Jffs2PhantomEntry.EntryPhantom | cc2camera/image.py:838-943 | one current phantom directory entry: with a key no file has, the builder succeeds if and only if it is a deletion; with the key of a file, if and only if it is older, or newer with the same inode, type and time, or deletes a serial.cfg that recovery writes again exactly as it was |
| Jffs2PhantomScan.ExtractSame | cc2camera/image.py:818-970 | extraction from two node lists is the same when they agree on the current directory entries and on the data nodes of the files' inodes |
| Jffs2PhantomScan.ScanWritten | cc2camera/image.py:529-652 | with any phantoms, the scanned nodes at the written offsets are exactly the written nodes, in order |
| Jffs2Compaction.BuiltReadsBack | cc2camera/image.py:1047-1178 | with no hypothesis on phantoms: whatever the builder returns reads back as exactly the given files sorted by name, with no obsolete node |
| Jffs2Compaction.ExtractedFilesAreGood | cc2camera/image.py:712-943 | reconstruction's own checks establish every builder precondition: safe distinct names in order, inodes above 1 and all different, sizes in the partition, exactly one valid serial.cfg, also when it was recovered under a fresh inode |
| Jffs2Compaction.ExtractBack | cc2camera/image.py:818-970 | from any node list that represents such files, extraction returns those files and the live serial |
| Jffs2Compaction.BuildSucceeds | cc2camera/image.py:1047-1178 | a phantom-free layout of such files passes the builder's final self-check and reads back as those files |
| Jffs2Compaction.WithSerialGood | cc2camera/image.py:911-943 | adding a recovered serial.cfg under the smallest free inode keeps names and inodes distinct and the list sorted |
| Jffs2Config.FreshInode | cc2camera/image.py:919-922 | the inode chosen for a recovered serial.cfg is at least 2, unused, and the smallest such |
| Jffs2Compaction.CollectKeepsKeys | cc2camera/image.py:838-849 | the dictionary of current entries never holds two entries for one parent and name |
| Jffs2Log.ScanExactly | cc2camera/image.py:529-652 | the scan of a compact log lists exactly the written nodes if and only if no aligned offset strictly inside a written node is accepted as a node |
| Jffs2Phantom.ObsoletePhantomRefused | cc2camera/image.py:1174-1178 | one obsolete phantom anywhere in the rebuilt partition makes the builder refuse |
| Jffs2Phantom.EmbeddedNodeRefused | cc2camera/image.py:1092-1128 | a concrete failing family: a live file whose content starts with an obsolete clean-marker image is always refused, so the condition on obsolete nodes cannot be dropped |
| Jffs2MinimalRoundTrip.MinimalRoundTrip | cc2camera/image.py:973-1044 | for every valid serial the minimal builder succeeds, and strict extraction returns that serial from exactly what it wrote |
| Jffs2MinimalRoundTrip.MinimalScans | cc2camera/image.py:973-1044 | the scan of the minimal partition finds exactly three current nodes: the clean marker, the serial's entry and its data |
| Jffs2MinimalRoundTrip.MinimalPhantomFree | cc2camera/image.py:973-1030 | no aligned offset inside the three records is accepted as a node, whatever the serial: in particular its data CRC is never a header, as the constant node CRC after it would be too long a length |
| Crc32Values.StoredCancels | cc2camera/image.py:366-367 | data followed by its own stored CRC, least significant byte first, returns the register to zero |
| Jffs2Minimal.BuildMinimalConfig | cc2camera/image.py:973-1044 | the builder's buffer writes produce exactly the three-record partition, then its self-check decides |
| Jffs2Build.BuildPreservedConfig | cc2camera/image.py:1047-1178 | sorting, acceptance checks, cursor writes with the first-block limit and self-check together compute the specified partition or the refusal |
| Jffs2Build.WriteNode | cc2camera/image.py:1083-1128 | one record written at the cursor: refused without any change when it would pass 0x4000, else the buffer is the log extended by the padded record and the cursor is its aligned end |
| Jffs2Build.WriteFile | cc2camera/image.py:1064-1128 | the entry and the data record of one file, written in order |
| Jffs2Build.WriteFiles | cc2camera/image.py:1059-1130 | the loop over the files succeeds exactly when all records fit, and then leaves their log and erased flash after it |
| Jffs2Node.ParseJffs2 | cc2camera/image.py:529-652 | the loop over every aligned offset lists exactly the accepted nodes in offset order |
| Jffs2Node.ParseAgree | cc2camera/image.py:529-652 | whether and what an offset parses to depends only on the bytes that the parse reads |
| Jffs2Record.DirentParses | cc2camera/image.py:1065-1082 | a written directory record is read back with every field, as current, and the parse reads exactly the record |
| Jffs2Record.InodeParses | cc2camera/image.py:1091-1121 | a written inode record is read back with every field and its payload, as current, and the parse reads exactly the record |
| Jffs2Record.CleanParses | cc2camera/image.py:1060-1061 | the clean marker is read back as one |
| Jffs2Config.CollectDirents | cc2camera/image.py:838-849 | the loop keeps for each parent and name the newest current entry and refuses equal versions |
| Jffs2Config.ReplayFragments | cc2camera/image.py:787-798 | the in-place loop over decoded fragments equals replaying them one after another on a zeroed file, or the first decoding error |
| Jffs2Config.ReconstructLiveConfigFiles | cc2camera/image.py:712-815 | the loop over live names returns the rebuilt file for each name in order, or the first refusal |
| Jffs2Replay.FileByteMeaning | cc2camera/image.py:764-798 | each byte of a reconstructed file is the byte of the newest covering fragment, by version and then by log order, and zero when no fragment covers it |
| Jffs2Replay.LogOrderIrrelevant | cc2camera/image.py:712-849 | when versions are distinct per inode and per parent and name, any reordering of the nodes gives the same live files |
| Jffs2Replay.CollectNewest | cc2camera/image.py:838-849 | the collected dictionary holds exactly the newest entries seen |
| Jffs2Obsolete.ObsoletingRemovesNode | cc2camera/image.py:521-652 | clearing only the accurate bit of a current node, when no other node accepted before or after the clearing reads the changed byte, makes the scan report the same fields as obsolete, leaves every other node alone, and leaves exactly the live files of the log without that node |
| Jffs2ObsoleteLog.ObsoletingInLog | cc2camera/image.py:521-652 | the same for any node of a written log whose nodes hold no magic inside, a check on the bytes alone |
| Jffs2ObsoleteLog.AloneInLog | cc2camera/image.py:529-652 | in a written log that is phantom-free before and after the clearing, no other accepted node reads the cleared byte |
| Jffs2Obsolete.ClearedHeaderFails | cc2camera/image.py:542-551 | after clearing the bit the header CRC no longer matches as current |
| Jffs2Obsolete.ObsoleteIgnored | cc2camera/image.py:757-763 | an obsolete node contributes nothing to the live files |
| Crc32.Jffs2IsBareRegister | cc2camera/image.py:366-367 | the way zlib is called leaves CRC-32 with initial value 0 and no final xor |
| Crc32.Jffs2Linear | cc2camera/image.py:366-367 | the CRC of the xor of two equal-length strings is the xor of their CRCs |
| Crc32.FeedInjective | cc2camera/image.py:366-367 | a difference in the register survives any further data |
| Crc32.OneByteChangesCrc | cc2camera/image.py:366-367 | two strings that differ in exactly one byte have different stored CRCs |
| Crc32Vector.CheckValue | cc2camera/image.py:366-367 | CRC-32 of the nine digits has the published value CBF43926, which fixes polynomial, direction, start and inversion |
| Jffs2Log.MagicFreeIsPhantomFree | cc2camera/image.py:533-535 | a check on the bytes alone: when no aligned offset inside a written node starts with the JFFS2 magic, there is no phantom, whatever the CRCs |
| SystemPatch.PatchBashrc | cc2camera/image.py:441-459 | succeeds exactly when the audits pass and the copy block occurs once and is long enough; the script keeps its length and only that block changes |
| SystemPatch.ReplaceOne | cc2camera/image.py:446-454 | replacing a text that occurs once changes that place only |
| SystemPatch.PatchFragment | cc2camera/image.py:468-493 | succeeds exactly when the stock stream decompresses to the audited fragment and the script and the result pass their audits; the fragment keeps its size and only its script section changes |
| SystemPatch.WriteWindow | cc2camera/image.py:505-513 | the new stream and its size are written into the stock window and every other byte is kept |
| SystemPatch.BuildSystemPatchWindow | cc2camera/image.py:462-518 | succeeds exactly when every audit on the way passes; then the window is the stock one with the XZ stream of the patched fragment and its size in place |
| SystemPatch.ApplySystemPatch | cc2camera/image.py:1501-1507 | a stock window is patched, a patched one is returned as it is so that the image does not change, and any other state is refused |
| SystemPatch.PatchedOnce | cc2camera/image.py:1405-1418 | an image with an audited patched window is classified as patched, the two reference hashes being different, so a second application changes nothing |
| SystemPatchFields.PatchExactly | cc2camera/image.py:462-518 | a window is built from a stock image if and only if all eight audits, the sizes 26268, 100167 and 25564 and the single copy block hold; the window's bytes are the stream at 0x600, its size at 0x711A and the stock bytes elsewhere |
| SystemPatchFields.CountOnce | cc2camera/image.py:441-454 | the copy block is counted once exactly when it occurs at one place and not again after its end, and replacing it changes that place only |
| SystemFiles.SystemPatchIsLocal | cc2camera/image.py:462-518 | read through the file system with the built window installed, the script file is the stock script with its one block replaced, and every file stored elsewhere, also one that shares the fragment, reads exactly as before or is refused as before |
| SystemFiles.OtherFilesUnchanged | usb-maintenance/tools/squashfs_extract.py:233-273 | data blocks, other fragments of the same table block or of another, and the rest of the patched fragment give every other file the same contents |
| SystemFiles.ScriptReads | usb-maintenance/tools/squashfs_extract.py:233-273 | the script file reads as the stock script before and as the patched script after |
| SystemFiles.PatchedEntry | usb-maintenance/tools/squashfs_extract.py:222-231 | whatever its index, the fragment's table entry names the same place with the new stream's size |
| SystemFiles.PatchedFragmentReads | usb-maintenance/tools/squashfs_extract.py:233-242 | reading that fragment through the fragment table returns exactly the patched fragment |
| Transfer.PerfectLink | cc2camera/hid_transport.py:227-258 | a link that changes nothing satisfies the link hypothesis and carries every frame intact, so a transfer over it can only fail for a bad range or want of memory |
| Transfer.Update | cc2camera/hid_transport.py:227-258 | building the blob and running the host against the updater over a link that damages data reports detectably: the host returns exactly when the range is valid, the buffer is allocated and every data frame arrived intact; then the flash range equals the image and all else is unchanged, and whenever it raises the flash is untouched |
| Transfer.RestoreBlob | cc2camera/hid_transport.py:227-258 | the same for a blob and its plan, from any earlier device state |
| Transfer.SendAll | cc2camera/hid_transport.py:236-258 | the loop over data frames stops at the first reply that is not the expected one, with the flash untouched until the last frame |
| Transfer.Exchange | cc2camera/hid_transport.py:236-256 | one data report and its reply: accepted exactly when the frame was intact |
| Transfer.BuildUpdateBlob | cc2camera/protocol.py:195-214 | succeeds exactly for a non-empty range inside the 8 MiB device, with the 128-byte header before the image and the plan's sizes and packet count |
| Transfer.BlobSound | usb-maintenance/source-reconstruction/uboot_updater_reconstructed.c:228-257 | the device reads back from the blob the offset, the digest and the image that the host put in |
| Transfer.BuildMetadataRequest | cc2camera/commands.py:926-953 | builds the type-1 frame exactly for plans with nonzero in-range fields and a consistent packet count |
| Transfer.MetadataReads | usb-maintenance/source-reconstruction/uboot_updater_reconstructed.c:186-225 | the device decodes the metadata report to the plan's own fields, with no zero divisor |
| Transfer.MetadataStep | usb-maintenance/source-reconstruction/uboot_updater_reconstructed.c:197-225 | from any earlier state the metadata report puts the device at packet 0 with the flash unchanged, or sends nothing when allocation fails |
| Transfer.DataStep | usb-maintenance/source-reconstruction/uboot_updater_reconstructed.c:260-286 | an intact data report advances the device by one packet or completes the transfer; a damaged one only asks for the same packet again |
| Transfer.AckRead | cc2camera/commands.py:989-997 | the host decodes an acknowledgement report to its packet number and refuses it as a terminal status |
| Transfer.TerminalRead | cc2camera/commands.py:1000-1013 | the host decodes a terminal report to its status |
| Transfer.NextFrame | cc2camera/protocol.py:230-235 | packet k is framed with its number and blob[k * 3060 : (k + 1) * 3060], within one report |
| Transfer.HidReceive | usb-maintenance/source-reconstruction/uboot_updater_reconstructed.c:339-346 | a report reaches the updater exactly when it carries the report ID |
| Updater.Device.RequestBatchRetry | usb-maintenance/source-reconstruction/uboot_updater_reconstructed.c:168-183 | the new state: one more error, then either rewound to the batch start and acknowledged, or failed on the fifth error |
| Updater.Device.AcceptMetadata | usb-maintenance/source-reconstruction/uboot_updater_reconstructed.c:197-225 | the new state, whatever the checksum: counts in 32-bit arithmetic, a fresh stream and reset counters, or only the counts when allocation fails |
| Updater.Device.AppendData | usb-maintenance/source-reconstruction/uboot_updater_reconstructed.c:273-278 | the stream and counters after the copy, with 32-bit wrap-around |
| Updater.Device.VerifyAndProgram | usb-maintenance/source-reconstruction/uboot_updater_reconstructed.c:228-257 | a wrong MD5 fails the transfer; a right one is acknowledged first and then the range is erased and programmed in place |
| Updater.Device.AcceptData | usb-maintenance/source-reconstruction/uboot_updater_reconstructed.c:260-286 | validation, packet order, copy, final packet and batch acknowledgement take the branches of the specified transition |
| Updater.Device.Receive | usb-maintenance/source-reconstruction/uboot_updater_reconstructed.c:291-311 | only host frames of types 1 and 3 have an effect |
| Updater.ErasedThenProgrammed | usb-maintenance/source-reconstruction/uboot_updater_reconstructed.c:252-254 | programming an erased range, where programming can only clear bits, leaves exactly the data there and the rest alone |
| UpdaterRuns.StepKeepsInv | usb-maintenance/source-reconstruction/uboot_updater_reconstructed.c:168-286 | for any nonzero packet and batch size: a good, repeated, out-of-order or damaged data frame keeps the batch, position and received-prefix invariant, or fails with the flash untouched, or programs the whole image |
| UpdaterRuns.RunKeepsInv | usb-maintenance/source-reconstruction/uboot_updater_reconstructed.c:168-286 | the same over every run of such frames: programming is reached only with the whole blob |
| UpdaterRuns.MiddlePacket | usb-maintenance/source-reconstruction/uboot_updater_reconstructed.c:260-286 | the expected packet before the last advances by one, clears the error count and is acknowledged exactly at the end of a batch |
| UpdaterRuns.FinalPacket | usb-maintenance/source-reconstruction/uboot_updater_reconstructed.c:260-286 | the expected last packet completes the stream and programs the image |
| UpdaterRuns.RetryKeeps | usb-maintenance/source-reconstruction/uboot_updater_reconstructed.c:168-183 | a rewind keeps the invariant at the batch start, and the fifth error ends the transfer |
| UpdaterRuns.RetriesEnd | usb-maintenance/source-reconstruction/uboot_updater_reconstructed.c:168-286 | with one packet in each batch, or one packet in all, every sequence of data frames ends within five frames for each remaining packet less the errors already counted |
| UpdaterRuns.RetriesGoOn | usb-maintenance/source-reconstruction/uboot_updater_reconstructed.c:168-286 | with two or more packets in a batch and in the blob, a good frame and a bad frame alternating keep the device running for any number of cycles |
| UpdaterRuns.RetriesBoundedExactly | usb-maintenance/source-reconstruction/uboot_updater_reconstructed.c:168-286 | for a freshly started transfer a bound on the retries exists if and only if a batch or the blob is a single packet, and then five frames for each packet are enough |
| UpdaterDigest.LastPacketDecides | usb-maintenance/source-reconstruction/uboot_updater_reconstructed.c:228-286 | whoever sent it, the last expected packet programs the received image when its MD5 is the one in the received header, and otherwise fails the transfer with terminal status 0 and the flash as it was, also after damage that the additive checksum misses |
| UpdaterDigest.RunVerified | usb-maintenance/source-reconstruction/uboot_updater_reconstructed.c:168-286 | over every run of data frames that stays in bounds either the flash is untouched and no success was reported, or the flash holds an image whose MD5 is the one its own header names |
| UpdaterDigest.AnyFrameVerified | usb-maintenance/source-reconstruction/uboot_updater_reconstructed.c:291-311 | whatever frame arrives changes the flash only as a completing data frame, and then to a verified image |
| UpdaterDigest.OtherFramesIgnored | usb-maintenance/source-reconstruction/uboot_updater_reconstructed.c:291-311 | frames without the magic 80 00 EE, and host frames of other types than 1 and 3, have no effect |
| UpdaterFields.MetadataExactly | usb-maintenance/source-reconstruction/uboot_updater_reconstructed.c:186-225 | metadata fields by offset, packet and batch counts in wrapping 32-bit arithmetic, and the reset counters |
| UpdaterFields.CountCovers | usb-maintenance/source-reconstruction/uboot_updater_reconstructed.c:186-225 | without wrap-around the packet count is the least that holds the transfer |
| UpdaterFields.RefusedExactly | usb-maintenance/source-reconstruction/uboot_updater_reconstructed.c:260-286 | a data frame is refused for its magic, byte sum or packet number and for nothing else; any other is copied and advances the counters |
| UpdaterFields.RetryExactly | usb-maintenance/source-reconstruction/uboot_updater_reconstructed.c:168-183 | the fifth error ends the transfer with status 0; any other rewinds to the batch and acknowledges its first packet |
| UpdaterFields.NeverStalls | usb-maintenance/source-reconstruction/uboot_updater_reconstructed.c:168-286 | over every run the stalled counter keeps its value |
| UpdaterFields.ProgramClears | usb-maintenance/source-reconstruction/uboot_updater_reconstructed.c:252-254 | programming clears bits in its range, byte by byte, and leaves the rest |
| UpdaterFields.EraseSets | usb-maintenance/source-reconstruction/uboot_updater_reconstructed.c:252-254 | erasing sets every byte of its range to FF and leaves the rest |
| TransferFields.BlobExactly | cc2camera/protocol.py:195-214 | the blob byte by byte: four zeros, offset and length lowest byte first, the digest, a hundred zeros, the image |
| TransferFields.PlanExactly | cc2camera/protocol.py:195-214 | the plan has the least number of 3060-byte packets that hold header and image, each acknowledged |
| TransferFields.AckExactly | cc2camera/commands.py:989-997 | an acknowledgement is decoded exactly from type 2 and four bytes, the lowest first |
| TransferFields.TerminalExactly | cc2camera/commands.py:1000-1013 | a terminal status is decoded exactly from type 5 and the byte 0 or 1 |
| BootFrame.AdditiveChecksum | cc2camera/protocol.py:122-124 | the loop computes the sum of the bytes modulo 256 |
| BootFrame.BuildBootFrame | cc2camera/protocol.py:133-145 | builds the frame exactly when it fits the 3071-byte report body |
| BootFrame.FrameFields | cc2camera/protocol.py:133-145 | where magic, type, total length, payload and checksum lie in a frame |
| BootFrame.ParseFrame | cc2camera/protocol.py:148-162 | a frame followed by any padding parses back to its type, payload and length |
| BootFrame.ParseHidReport | cc2camera/protocol.py:165-175 | wrapping a device frame in a padded report and unwrapping it gives the frame back |
| BootFrame.OneByteDamageDetected | usb-maintenance/source-reconstruction/uboot_updater_reconstructed.c:111-123 | any change of one byte after the length field of a host frame is detected |
| BootFrame.ParseExactly | cc2camera/protocol.py:148-162 | the host parses exactly the frames that start 80 00 EE or 81 00 EE, with a total length from 7 to the data's and the right byte sum, to their type and payload |
| BootFrame.ValidExactly | usb-maintenance/source-reconstruction/uboot_updater_reconstructed.c:111-123 | the device validates exactly the magic 80 00 EE and the byte sum up to the given length |
| BootFrame.DamagedReplyRefused | cc2camera/protocol.py:148-162 | a device frame with any one byte after its length changed is refused by the host |
| BootFrame.MetadataVector | cc2camera/commands.py:926-953 | the metadata frame of the plan in the repository's own tests, byte by byte |
| Crc16.Crc16Normal | cc2camera/protocol.py:39-52 | the host's loop computes the specified register |
| Crc16.Cc2Crc16 | usb-maintenance/source-reconstruction/hid_update_reconstructed.c:96-108 | the device's loop computes the specified register from any start value |
| Crc16.FeedAppend | usb-maintenance/source-reconstruction/hid_update_reconstructed.c:549-555 | feeding two pieces one after the other equals a single pass over both |
| Crc16.CrcParity | cc2camera/protocol.py:39-52 | for every byte string the bit parity of the CRC equals the bit parity of the input |
| ReportVectors.CheckValue | cc2camera/protocol.py:39-52 | the CRC of the nine digits is 0x1DBA, which fixes its polynomial, direction and start |
| ReportVectors.UpgradeReport | cc2camera/protocol.py:63-88 | the request for the update mode byte by byte, CRC included |
| ReportLayout.ParseExactly | cc2camera/protocol.py:91-113 | bytes, with the report ID put back if missing, are parsed to a frame exactly when ID, magic, words and payload are the frame's at their offsets and the CRC is that of the header, and of the payload in types 1 and 2 |
| ReportLayout.ReplyReads | usb-maintenance/source-reconstruction/hid_update_reconstructed.c:116-142 | a reply with a payload is read back as sent with type 1, and without one with type 0 |
| NormalReport.BuildNormalReport | cc2camera/protocol.py:63-88 | builds exactly for 16-bit commands, types 1 and 2 and payloads up to 1010 bytes, and fills the buffer with the specified report |
| NormalReport.ReportFields | cc2camera/protocol.py:63-88 | what each header field, the CRC field and the payload window of a report read as |
| NormalReport.ParseReport | cc2camera/protocol.py:91-113 | parsing undoes building for every frame type, with and without the report ID byte |
| NormalReport.CheckReport | usb-maintenance/source-reconstruction/hid_update_reconstructed.c:539-557 | the device accepts exactly the reports with ID, magic and matching CRC, and names ID and magic errors in that order; these are the reports the host's parser accepts, but for uncovered payload lengths beyond the report, which the host refuses and the device does not read |
| NormalReport.AcceptedIsEven | cc2camera/protocol.py:91-113 | header, CRC and covered payload of every accepted report hold an even number of one bits |
| NormalReport.OddDamageRejected | cc2camera/protocol.py:91-113 | every corruption that flips an odd number of covered or CRC bits and leaves type and length alone is rejected |
| Upload.UploadNormalFile | cc2camera/hid_transport.py:134-165 | from a daemon at rest, whatever the system does at each request: returns exactly for safe paths and contents of 1 to 0x01000200 bytes when init can allocate the buffer and commit can write the file; then the path holds exactly the content, every other file is unchanged and the daemon is at rest again; refused arguments change nothing |
| Upload.SeriesRun | cc2camera/hid_transport.py:134-165 | any series of uploads leaves each path with its last content and every other file as it was |
| Upload.CommandsRun | cc2camera/hid_transport.py:148-165 | the command sequence of one upload, run from rest, writes that file and returns to rest |
| Upload.DataStep | usb-maintenance/source-reconstruction/hid_update_reconstructed.c:315-333 | each data packet in turn extends the buffer by its chunk, and the last completes it |
| Upload.OpenStep | usb-maintenance/source-reconstruction/hid_update_reconstructed.c:299-312 | initialising and naming a safe path opens an empty receiving session, or reports that allocation failed |
| Upload.CommitStep | usb-maintenance/source-reconstruction/hid_update_reconstructed.c:336-372 | the commit writes exactly the content and returns to rest, or fails touching no other path |
| Upload.SafeTarget | usb-maintenance/source-reconstruction/hid_update_reconstructed.c:431-443 | a safe path is the destination the device derives from it |
| Upload.BuildTargetRequest | cc2camera/commands.py:775-808 | a literal target request is built exactly for 1 to 127 safe path bytes |
| Upload.ExchangeNormal | cc2camera/hid_transport.py:105-131 | the request takes effect on the device and the exchange succeeds exactly on an echoed zero status |
| Upload.SendChunks | cc2camera/hid_transport.py:155-164 | the loop sends every chunk with its sequence number and ends with the whole content accepted |
| UploadLoss.LosingOnePacket | cc2camera/hid_transport.py:134-165 | one data packet lost from an upload: nothing is written whichever it is, unless it is the first of several; sequence number 1 is always taken, so the file without its first chunk is then written |
| UploadFields.CommandsExactly | cc2camera/hid_transport.py:134-165 | the commands of one upload by place: 0x3000, 0x3110 with the path, 0x3200 with numbered chunks of 1010 bytes of which the last has type 2, 0x3300 |
| UploadFields.SafeExactly | cc2camera/commands.py:775-808 | a safe path is 1 to 127 letters, digits, underscores, dots, slashes and dashes |
| UploaderFields.PacketExactly | usb-maintenance/source-reconstruction/hid_update_reconstructed.c:315-333 | while receiving, a packet whose number is above 1 and does not follow the last, or that does not fit, puts the session into the error state and is answered with failure; any other extends the buffer |
| UploaderFields.WrongState | usb-maintenance/source-reconstruction/hid_update_reconstructed.c:413-484 | each of the 13 known commands acts in its one state, or two, and is else answered with success without effect; an unknown one is not answered |
| UploaderFields.InitExactly | usb-maintenance/source-reconstruction/hid_update_reconstructed.c:299-312 | init opens an empty session of 0x01000200 bytes, or fails for want of memory |
| UploaderFields.TargetExactly | usb-maintenance/source-reconstruction/hid_update_reconstructed.c:425-454 | a target names the payload up to its first NUL or space; the sensor commands name the path of the system, or fail |
| UploaderFields.CommitCases | usb-maintenance/source-reconstruction/hid_update_reconstructed.c:336-372 | a commit without a final packet fails and drops the buffer; with one it removes, then fails, writes short or writes the file, by what the disk does |
| UploaderFields.ResponseExactly | usb-maintenance/source-reconstruction/hid_update_reconstructed.c:116-142 | a status reply by bytes |
| Uploader.Daemon.constructor | usb-maintenance/source-reconstruction/hid_update_reconstructed.c:54-65 | idle, with no buffer and no destination |
| Uploader.Daemon.UploadInit | usb-maintenance/source-reconstruction/hid_update_reconstructed.c:299-312 | reuses or allocates the buffer and resets the counters, or changes nothing |
| Uploader.Daemon.UploadAppend | usb-maintenance/source-reconstruction/hid_update_reconstructed.c:315-333 | sequence 0 and 1 always pass, others must follow the last one in 32-bit arithmetic; a packet that fits extends the received bytes, and type 2 makes the session ready |
| Uploader.Daemon.CutAtSpace | usb-maintenance/source-reconstruction/hid_update_reconstructed.c:437-439 | the C string is cut at its first space |
| Uploader.Daemon.SetTarget | usb-maintenance/source-reconstruction/hid_update_reconstructed.c:434-441 | the destination is the payload up to its first NUL or space |
| Uploader.Daemon.UploadCommit | usb-maintenance/source-reconstruction/hid_update_reconstructed.c:336-372 | without a final packet nothing happens; otherwise the file is removed, written and the buffer released, or left missing or short |
| Uploader.Daemon.DispatchUpload | usb-maintenance/source-reconstruction/hid_update_reconstructed.c:413-484 | every command takes the specified transition: commands in the wrong state are answered with success and no effect, and states 3 and 5, or 4 and 5, share a guard |
| Uploader.Daemon.Dispatch | usb-maintenance/source-reconstruction/hid_update_reconstructed.c:539-572 | an upload report that passes the checks takes its transition, one of a group above 4 is answered with status 5, groups 0, 1, 2 and 4 are passed on, and each failed check has its own status, 2, 3 or 4 |
| UploaderRuns.StepKeepsInv | usb-maintenance/source-reconstruction/hid_update_reconstructed.c:299-484 | every command without a failed commit keeps: an open session has a buffer within capacity, and a final packet was seen exactly in the ready state |
| UploaderRuns.RunKeepsInv | usb-maintenance/source-reconstruction/hid_update_reconstructed.c:299-484 | over every command sequence with in-report lengths and no failed commit: the invariant holds, the buffer is the concatenation of the payloads accepted since the last init, and files change only by such concatenations |
| UploaderRuns.CommitExactly | usb-maintenance/source-reconstruction/hid_update_reconstructed.c:468-482 | although the guard admits the error state, only a ready session writes, and any other commit leaves every file alone |
| UploaderRuns.FailedCommitIsFinal | usb-maintenance/source-reconstruction/hid_update_reconstructed.c:468-479 | after a failed commit no sequence of later commands that stays in bounds, refused data packets included, opens another session or changes a file |
| UploaderRuns.RefusedPacket | usb-maintenance/source-reconstruction/hid_update_reconstructed.c:456-466 | in the error state a data packet refused by its sequence or size is answered with failure and changes nothing, whether or not a buffer is held |
| UvcConfig.ConfigGet | usb-maintenance/source-reconstruction/hid_update_reconstructed.c:184-215 | the line loop with 127-byte reads returns the value of the first line that matches |
| UvcConfig.ConfigSet | usb-maintenance/source-reconstruction/hid_update_reconstructed.c:226-283 | the cursor loop and the buffer rewrite compute the specified file, between the old size and the buffer size |
| UvcConfig.Write | usb-maintenance/source-reconstruction/hid_update_reconstructed.c:259-275 | prefix, value and tail are copied, and zeros fill up to the old size |
| UvcConfig.GetDocument | usb-maintenance/source-reconstruction/hid_update_reconstructed.c:184-215 | on a well-formed document GET returns the first setting of the key, at most 63 bytes |
| UvcConfig.SetDocument | usb-maintenance/source-reconstruction/hid_update_reconstructed.c:226-283 | on a well-formed document SET produces the file of the document with that one value replaced, or fails exactly when no line has the key |
| UvcConfig.GetAfterSet | usb-maintenance/source-reconstruction/hid_update_reconstructed.c:184-283 | SET succeeds exactly for the keys GET finds; GET then returns the new value, every other key reads as before and the file is never shorter |
| UvcConfig.IndentedKey | usb-maintenance/source-reconstruction/hid_update_reconstructed.c:193-199 | GET skips leading spaces and SET does not: they agree on a line exactly when it is not indented |
| UvcFields.GetExactly | usb-maintenance/source-reconstruction/hid_update_reconstructed.c:184-215 | for any file, cut into lines of at most 127 bytes as fgets cuts it, GET gives the value of the first line that has one for the key |
| UvcFields.LineValueExactly | usb-maintenance/source-reconstruction/hid_update_reconstructed.c:193-206 | a line up to its NUL has a value exactly when the first word before its colon, at most 63 bytes, is the key; the value is at most 63 bytes up to the newline |
| UvcFields.EveryFileCut | usb-maintenance/source-reconstruction/hid_update_reconstructed.c:192 | every file has such a cut |
| UvcFields.RewrittenExactly | usb-maintenance/source-reconstruction/hid_update_reconstructed.c:226-275 | for any file of newline-separated lines SET replaces what follows the colon of the first line whose left side, up to 95 bytes, a NUL or a space, is the key, and finds nothing exactly when there is none |
| XzVli.XzVli | cc2camera/image.py:381-391 | negative values are refused and the loop writes seven bits at a time |
| XzVli.VliReadBack | cc2camera/image.py:381-391 | the section 1.2 decoder reads an encoding back if and only if the value has at most 63 bits |
| XzVli.VliCanonical | cc2camera/image.py:381-391 | whatever the decoder accepts is the very encoding the writer produces, so none is shorter |
| XzVli.VliSize | cc2camera/image.py:381-391 | an encoding takes at most one byte for each seven bits |
| XzStream.BuildSquashfsXzFragment | cc2camera/image.py:394-438 | the assembled bytes are exactly the specified stream header, block, index and footer |
| XzStream.FragmentRoundTrip | cc2camera/image.py:394-438 | for every byte string and every codec whose decoder inverts its encoder with non-empty output, a reader of the format accepts the built stream and returns the bytes |
| XzStream.BuildBlockHeader | cc2camera/image.py:412-420 | the size byte patched in last, the padding and the CRC agree with the fields |
| XzStream.BlockHeaderReads | cc2camera/image.py:412-420 | the reader of section 3.1 takes sizes and filter from the built block header and finds its end |
| XzStream.BlockReads | cc2camera/image.py:412-426 | the reader of sections 3.2 to 3.4 takes the data, and its record has the builder's Unpadded Size |
| XzStream.IndexReads | cc2camera/image.py:427-430 | the reader of section 4 finds the index repeating the block's sizes |
| XzStream.FooterReads | cc2camera/image.py:432-437 | Backward Size, flags, CRC and magic of the footer agree with the index (section 2.1.2) |
| XzStream.DictionaryIs128KiB | cc2camera/image.py:396-415 | the property byte 0x0A names the dictionary size the encoder was given (section 5.3.1) |
| XzFields.StreamEnds | cc2camera/image.py:394-438 | the stream starts FD 37 7A 58 5A 00 00 01 69 22 DE 36 and ends 00 01 59 5A |
| SquashFs.SquashFS.MetadataBlock | usb-maintenance/tools/squashfs_extract.py:103-118 | with any cache contents the answer is the block in the image, and the cache stays truthful |
| SquashFs.SquashFS.ReadMetadata | usb-maintenance/tools/squashfs_extract.py:120-132 | the loop over blocks returns the specified bytes or the first refusal |
| SquashFs.CollectIsSlice | usb-maintenance/tools/squashfs_extract.py:120-132 | a successful metadata read is the requested slice of the concatenated decompressed blocks |
| SquashFs.TakeAgrees | usb-maintenance/tools/squashfs_extract.py:120-147 | whenever the metadata read succeeds, taking as many bytes from the metadata stream gives the same bytes |
| SquashFs.CollectExactly | usb-maintenance/tools/squashfs_extract.py:120-147 | the metadata read succeeds if and only if the stream does and every block visited has bytes at the reading position |
| SquashFs.MetadataStream.NextByte | usb-maintenance/tools/squashfs_extract.py:134-143 | the generator yields the next byte, skipping blocks without one |
| SquashFs.MetadataStream.Take | usb-maintenance/tools/squashfs_extract.py:145-147 | taking n bytes is n steps of the generator |
| SquashFs.SquashFS.FragmentEntry | usb-maintenance/tools/squashfs_extract.py:222-231 | the table pointer and the entry inside its block |
| SquashFs.SquashFS.FragmentData | usb-maintenance/tools/squashfs_extract.py:233-242 | with any cache contents the answer is the fragment in the image, and the cache stays truthful |
| SquashFs.SquashFS.ReadFile | usb-maintenance/tools/squashfs_extract.py:244-273 | output and remaining length always add up to the file size; the result is the blocks and the tail the image holds, or the first refusal |
| SquashFs.FileSize | usb-maintenance/tools/squashfs_extract.py:244-273 | a file that can be read has exactly its declared size, so the final length check never fails |
| SquashFs.BlockMeaning | usb-maintenance/tools/squashfs_extract.py:250-263 | logical block k is what its own size word says, read at the sum of the stored sizes before it |
| SquashBytes.FileByte | usb-maintenance/tools/squashfs_extract.py:244-263 | as far as the blocks reach, byte k of a file is byte k modulo the block size of its block's stored data, plain or decompressed as the size word says, or zero in a hole |
| SquashBytes.FileTailByte | usb-maintenance/tools/squashfs_extract.py:264-273 | behind the blocks, byte k is the fragment's byte at the inode's fragment offset plus the distance from their end |
| SquashBytes.FragmentIs | usb-maintenance/tools/squashfs_extract.py:233-242 | a fragment is the stored data, plain or decompressed, at the start and of the size that its table entry gives |
| SquashBytes.FileExactly | usb-maintenance/tools/squashfs_extract.py:244-273 | a file can be read exactly when it is regular, its blocks can be read, and a fragment holds what they do not cover |
| SquashTables.BlockExactly | usb-maintenance/tools/squashfs_extract.py:103-118 | a metadata block has a 15-bit size, bit 15 for plain data, and at most 8192 bytes of data |
| SquashTables.EntryExactly | usb-maintenance/tools/squashfs_extract.py:222-231 | a fragment's entry is found through 8-byte pointers to blocks of 512 entries of 16 bytes, with the start in the first eight and the size word in the next four |
| Jpeg.FingerprintJpeg | cc2camera/stream_identify.py:71-153 | the marker loop terminates and returns the fingerprint the frame specifies, or the first refusal |
| Jpeg.FrameFingerprint | cc2camera/stream_identify.py:71-153 | for any list of well-formed segments with any fill bytes, a scan segment and any scan data: the result is what the segments say up to SOS, and succeeds exactly when they give a size and a table |
| Jpeg.WalkSegments | cc2camera/stream_identify.py:83-136 | the walk collects from rendered segments exactly what they say, wherever they lie |
| Jpeg.MarkersInOrder | cc2camera/stream_identify.py:94-105 | the recorded markers are those of the segments, in order |
| JpegExact.FingerprintExactly | cc2camera/stream_identify.py:71-153 | a byte string has a fingerprint if and only if it is a start of image, marker segments, a scan segment and bytes up to the end of the image, with sound headers, a size and a table; the fingerprint is then the segments' markers in order, the tables in order, the last of each header, and the number of restart markers |
| JpegExact.LiesExactly | cc2camera/stream_identify.py:83-106 | a segment's bytes: fill bytes FF, the marker, and unless it stands alone a big-endian length that counts itself and the payload |
| JpegFields.FrameReads | cc2camera/stream_identify.py:71-153 | the fingerprint by the bytes of the segments: the last frame header gives height, width and components, the last JFIF segment its fields, the last restart interval the interval, and the tables come in order; there is one exactly when all headers have their length and there are a size and a table |
| JpegFields.WrittenFrameReads | cc2camera/stream_identify.py:107-136 | a frame with a written size, component list, JFIF data, restart interval and tables has a fingerprint with exactly these values |
| JpegFields.FrameMarkers | cc2camera/stream_identify.py:94-105 | the fingerprint's markers are those of the segments in order, the scan's last |
| JpegFields.RestartsCounted | cc2camera/stream_identify.py:138-153 | the restarts are the places in the scan data where FF is followed by one of D0 to D7 |
| StreamIdentify.NamesDistinct | cc2camera/stream_identify.py:54-68 | no two of the 256 marker codes share a printed name |
| StreamIdentify.SomeNames | cc2camera/stream_identify.py:54-68 | the listed markers have their names, E1 to EF are APP1 to APP15, and any other is printed in hexadecimal |
| StreamIdentify.FlatJoins | cc2camera/stream_identify.py:149 | the tables are hashed joined in their order |
| StreamIdentify.ClassifiedExactly | cc2camera/stream_identify.py:156-180 | a printed fingerprint is classified as a family exactly when the frame's own markers, headers, tables and restarts are that family's: the names lose nothing |
| StreamIdentify.IdentifyFrames | cc2camera/stream_identify.py:183-190 | fails exactly for no frames or one that cannot be parsed; names a family exactly when the first frame shows it and every other frame has the same fingerprint |
| StreamIdentify.FamilyDependsOn | cc2camera/stream_identify.py:71-153 | fill bytes, Huffman tables, the scan header and scan data with as many restart markers never change a fingerprint |
| Mjpeg.ByteStream.ReadExact | cc2camera/stream_identify.py:200-209 | short reads are joined: the next length bytes, or an error exactly when there are fewer |
| Mjpeg.ByteStream.ReadPartHeaders | cc2camera/stream_identify.py:231-245 | the header loop with its size bound, blank line and duplicate rule |
| Mjpeg.ByteStream.ReadMjpegFrames | cc2camera/stream_identify.py:212-265 | however the transport cuts its reads, the frames returned are those of the remaining bytes |
| MjpegStream.FramesExactly | cc2camera/stream_identify.py:212-265 | any byte stream gives count frames if and only if it starts with so many parts in the format: lines that are no delimiter, within 32 KiB in all and never reset, a delimiter line, header lines with colons within 32 KiB, a blank line, and as many bytes as the last Content-Length says for a JPEG of up to 2 MiB; the frames are these bytes |
| MjpegFields.PartExactly | cc2camera/stream_identify.py:241-258 | headers announce a length exactly when the last Content-Type, without parameters, blanks and case, is image/jpeg and the last Content-Length is a number from 1 to 2 MiB |
| MjpegFields.IntExactly | cc2camera/stream_identify.py:250-256 | a number is an optional sign and digits with single underscores between them, blanks around it dropped, with its value from left to right |
| Mjpeg.StreamReads | cc2camera/stream_identify.py:212-265 | from a serialised stream, whatever the frames contain, the first count frames are returned if and only if the bytes between the parts stay within the preamble bound, which is never reset |
| Mjpeg.StandardPart | cc2camera/stream_identify.py:247-258 | the usual two headers announce every frame of 1 byte to 2 MiB |
| Mjpeg.DecimalParses | cc2camera/stream_identify.py:250-256 | the decimal form of a length is parsed back to it |
| Acquire.AcquireStable | cc2camera/adb_backup.py:353-411 | for every sequence of reads it succeeds exactly when some attempt within five ends three identical reads in a row, at the first such attempt and with its image, and the counters it records pass the later checks |
| Acquire.MajorityIsNotEnough | cc2camera/adb_backup.py:358-366 | three of five identical reads that alternate with another image are refused |
| Acquire.StableExactly | cc2camera/adb_backup.py:353-411 | the deciding read is the first from the third to the fifth that repeats the two before it |
| RestoreGates.ValidateFullRestoreImage | cc2camera/protocol.py:238-246 | accepts exactly 8 MiB images without the upgrade word |
| RestoreGates.ValidateReplacementAgainstBackup | cc2camera/adb_backup.py:615-643 | accepts exactly images equal to the backup outside the patch window and the config partition, and names the first differing offset |
| RestoreGates.ValidatePostRestoreReadback | cc2camera/adb_backup.py:646-677 | accepts exactly readbacks equal below the config partition, and returns whether the config is equal too |
| RestoreGates.PrepareRestore | cc2camera/restore_prepare.py:73-92 | succeeds exactly when the live camera yields a stable supported image of the backup's unit |
| RestoreGates.CommandRestore | cc2camera/cli.py:363-471 | with the updater at the other end of the link: reports success exactly when every gate passed and the whole image got through, a byte-exact config exactly when the stable readback is the image; the flash holds the image exactly when the gates before the transfer passed and every frame arrived, and the transfer leaves it untouched otherwise |
| RestoreGates.PassGates | cc2camera/cli.py:363-384 | the gates before the transfer, in order, pass exactly for a flashable image of the backup's unit with the live camera agreeing |
| RestoreGates.VerifyReadback | cc2camera/cli.py:449-458 | the stable readback is accepted exactly when it equals the image below the config partition |
| RestoreGates.PerfectRestore | cc2camera/cli.py:363-471 | over an undamaged link, with the flash then read as it is, a restore that is ready reports success with an exact config |
| RestoreGates.RestoreKeepsUnit | cc2camera/cli.py:363-471 | after reported success every byte below 0x7E0000 outside the patch window is the byte read from the live camera before the flag write |
| RestoreGates.BuildRegions | cc2camera/image.py:1670-1698 | in both config modes the result is the input with its two windows replaced and passes both local gates; in serial-only mode it exists exactly for valid serials |
| RestoreGates.SerialOnlyBuilds | cc2camera/image.py:973-1044 | the serial-only partition is built exactly for valid serials |
| RecoveryFields.RecoveryExactly | cc2camera/image.py:1612-1718 | build_recovery gives an image if and only if that image is the input up to 0x463000, its patched or newly patched window, the input from 0x46B000 to 0x7E0000, and the partition rebuilt from what extraction says of the input's, with all audits passed |
| RecoveryFields.UnitExactly | cc2camera/adb_backup.py:615-643 | two images are of one unit exactly when both are 8 MiB and equal up to 0x463000 and from 0x46B000 to 0x7E0000 |
| RecoveryFields.FlashableExactly | cc2camera/protocol.py:238-246 | an image is flashable exactly when it is 8 MiB and does not have 54 44 50 55 at 0x7F8000 |
| Recovery.BuildRecovery | cc2camera/image.py:1612-1718 | with the image's own analysis: success exactly for the specified image, which is flashable and keeps the unit; none of the checks repeated on the generated image ever refuses |
| Recovery.RecoveryRevalidates | cc2camera/image.py:1700-1718 | analysing the generated image succeeds, finds the known patched state, and extracts exactly the files and the serial extracted from the input, with nothing obsolete; in serial-only mode its config is canonical and the serial live |
| Recovery.RecoveryIsFixed | cc2camera/image.py:1612-1718 | building again from the generated image gives that very image |
| Recovery.SerialOnlyExactly | cc2camera/image.py:1612-1698 | in serial-only mode a recovery image is built exactly when the input is accepted and its window is patched or passes the patch audits |
| Recovery.PreserveExactly | cc2camera/image.py:1612-1698 | in preserve mode exactly when besides that the extracted files fit, nothing rebuilt is obsolete and they survive every phantom |
| RestoreGates.AssembleRecovery | cc2camera/image.py:1670-1698 | the assembled image changes only the two allowed windows, which hold the new contents, so the internal check cannot fail |
| RestoreGates.BuiltConfigErased | cc2camera/image.py:1032-1130 | both builders leave everything from partition offset 0x4000 on erased |
| RestoreGates.RecoveryPassesGates | cc2camera/image.py:1670-1698 | in both config modes the assembled image has the input's length, no upgrade word, and passes both local gates against its own input |

## Left out

- Jffs2Compaction.CompactionPreservesFiles: for layouts without phantoms; Jffs2Phantoms.CompactionDecided has no such hypothesis.
- Jffs2PhantomScan.CompactionExactly: for phantoms that extraction ignores, and obsolete ones; Jffs2Phantoms.CompactionDecided covers all.
- Jffs2Compaction.BuildSucceeds: for a layout without phantoms; Jffs2Phantoms.AnyPhantoms covers all.
- Jffs2Obsolete.ObsoletingRemovesNode: that no other accepted node reads the byte is asked of the log before and after the clearing, since a changed byte might complete another node; Jffs2ObsoleteLog.ObsoletingInLog discharges it for logs whose nodes hold no magic inside.
- Jffs2Pieces.PiecesReadBack: for one file and layouts without phantoms.
- Jffs2Config.ReconstructLiveConfigFiles: zlib inflation is an abstract function; error texts and report fields of the extraction (counts, printable names) are not modelled.
- Transfer.Update: the metadata report and the device's replies arrive undamaged, the reply queue is empty at the start, and flash driver failures do not occur.
- Updater.Device.RequestBatchRetry: the stalled counter is never used, because no code path passes it.
- UpdaterRuns.RetriesEnd: speaks of data frames only; a new metadata frame restarts the transfer.
- Upload.UploadNormalFile: the shell commands of a commit are modelled as remove, write, done.
- Uploader.Daemon.Dispatch: payload lengths of recognised reports stay inside the report and the path buffer, and a packet that is taken has a buffer; command groups other than 0x3xxx are only recognised.
- UvcConfig.ConfigSet: files up to 2048 bytes and values up to 1010, the sizes of the device's buffers; the table from commands to keys is not modelled.
- UvcConfig.GetAfterSet: documents whose keys are single unindented words and whose lines fit a 127-byte read; UvcFields.GetExactly and UvcFields.RewrittenExactly are for any file.
- XzStream.BuildSquashfsXzFragment: sizes below 2^63, the format's own limit.
- XzReader: reads streams with CRC-32 checks whose block headers give the compressed size; stream padding and other filters are not modelled.
- SquashFs.SquashFS.ReadFile: inode and directory decoding, the superblock and extraction to disk are not modelled.
- Jpeg.FingerprintJpeg: returns marker codes and the tables themselves; StreamIdentify.Print turns them into names and a hash, the SHA-256 function and the two reference hashes being parameters.
- Mjpeg.ByteStream.ReadMjpegFrames: HTTP and boundary discovery are not modelled.
- SystemPatch.BuildSystemPatchWindow: the two shell texts and the comparisons with reference hashes are parameters, and so are the XZ decompressor and the LZMA2 encoder.
- SystemFiles.SystemPatchIsLocal: for a fragment-table block behind the stock stream whose entry, at any index, has its size word at the size field, as the patch writes it in place; such a block is stored uncompressed. A file that overlaps the script section without being the script is not described.
- RestoreGates.CommandRestore: the prompt, the USB steps before and after the transfer (among them the write of the 8-byte upgrade flag that enters the bootloader) and the live kernel checks are yes-or-no parameters, and the supported-image hash check is an abstract predicate.
- Recovery.BuildRecovery: the hash and field checks of everything outside the two windows are one predicate of those bytes; confirmation reads, manifests and output files are not modelled.
- RestoreGates.BuildRegions: takes files and serial as given; Recovery.BuildRecovery extracts them from the image.
- RestoreGates.PrepareRestore: the kernel and ADB checks are one yes-or-no parameter.
- NormalReport.CheckReport: a covered payload length that reaches beyond the report is excluded; the C code then reads past its buffer.
- Transfer.RestoreBlob: the same assumptions as Transfer.Update.
- HWCONFIG field patterns, the command catalogue and hash reference tables: finite tables.
- ADB processes, HID enumeration, timeouts, ZIP and rename publication, argument parsing, report text: input, output and presentation.
- The start of adbd through the upload command and shell payloads: foreign shell semantics.
- The heuristic disassembler tools: no stated correctness claim.
