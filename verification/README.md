# cryptpilot: a Dafny model of its integrity core

cryptpilot protects data at rest. `cryptpilot-verity` describes a directory by fs-verity
hashes, checks it against one printed root hash and serves it through a verifying FUSE
file system; `cryptpilot-crypt` and `cryptpilot-fde` set up encrypted volumes that must
survive a crash at any moment. This project models the code behind those promises and
proves them.

Files, in the order in which they build on each other:

| file | models |
|---|---|
| `Bytes.dfy`, `Ordering.dfy` | byte strings, powers, multiplication, division and slices in a structural form (`TimesIs`, `QuotIs`, `SliceIs`: they are `*`, `/` and Dafny's own slices), sorting by key |
| `Merkle.dfy` | the reference: fs-verity's Merkle tree as a recursive definition ("Merkle tree" in the Linux kernel's fs-verity document) |
| `Odometer.dfy` | the state of the streaming hasher as a function of its input, and what flushing that state yields |
| `RustDigest.dfy`, `GoDigest.dfy` | the two streaming hashers, as classes with the original loops |
| `Descriptor.dfy` | the 256-byte descriptor ("fs-verity descriptor" in the same document) and both encoders |
| `Tree.dfy` | stored leaves: block verification and rebuilding the root |
| `Binding.dfy` | what equal hashes say about files |
| `Metadata.dfy`, `Commands.dfy` | the metadata file; `format`, `verify` and the checks of `open` |
| `InodeTable.dfy`, `Stitching.dfy` | inode table; byte ranges put together from blocks |
| `FileHandles.dfy`, `Replies.dfy`, `ReadPath.dfy` | `pread` and the cache; what a reply is made of; `read_file` and whole runs of reads |
| `TruncatedRead.dfy` | a run in which bytes land in the wrong place |
| `Mounting.dfy` | `open`, and the whole way from `format` to the bytes read |
| `MkfsReplay.dfy` | page replay for mkfs on integrity volumes |
| `Luks2.dfy`, `VolumeInit.dfy`, `DeltaBoot.dfy` | the Ready marker, `init` and `open` with crashes, the delta volume over repeated boots |

How things are represented:

- The inner hash is an arbitrary function with a fixed output length (a field of
  `Merkle.Hash`). A running hash state is the bytes it has absorbed. Injectivity is never
  assumed, and since such a function always has some collision, none is merely claimed to
  exist: every binding result is "equal, or this pair has the same hash", with the pair
  given by a function of the data at hand (`RootCollision`, `FileCollision`,
  `MountCollision`, ...). For a reply the data at hand are the blocks it was copied from:
  `Backed` says, without any collision, that they hash to their leaves and that the reply
  is cut out of them, `Delivered` that they were put together from results of `pread`, and
  `BlockPair` computes the pair from such a block.
- A panic, an error return and `None` are results (`ok == false`, `Option`, `Result`).
- The kernel under the read path is a record of arbitrary functions of time: `open` may
  fail, `pread` may be interrupted, fail, come back short or return anything, and the
  cache may drop any entries at any time. `Serves` says that the file behind an inode is
  unchanged from one system call to another; only the parts of a contract that assume it
  for the calls of the read itself depend on it.
- `scale` and `total_size` of both hashers are 64-bit words that wrap around, as in a build
  without overflow checks; `SizesFitExactly` says when nothing wraps.
- The volume protocols are step machines whose steps are the single changes the code
  makes; runs are arbitrary sequences of steps, with process kills and power losses
  anywhere. The classes `Volume` and `DeltaVolume` hold the commands themselves, with any
  of their operations failing, and their `Valid()` says that the commands do nothing but
  steps of the machine.

Where the code and its comments differ, the model follows the code:

- verity-core/src/digest.rs:319-320 and verity-core/src/config.rs:10 say that the level
  limit lies beyond what 64 bits can count. For the default block size and SHA-256 it is
  exactly 2^61 bytes (`DefaultCapacity`), and `LevelLimit` gives it for every
  configuration.
- The Go constructor accepts any block size. Both hashers write the number of trailing zeros
  of the block size into the descriptor, which gives it back exactly for powers of two
  (`BlockSizeRoundTrip`); for others the Rust constructor panics and Go goes on (`MeasureBoth`).
- `verify_data_block` hashes without the salt that the leaves were made with. With a
  non-empty salt an original block passes exactly if two specific inputs collide
  (`SaltedBlocksVerifyOnlyByCollision`); with an empty one every original block passes.
- `verify_self` does not compare the number of leaves with the data size. In accepted
  metadata a leaf list may be replaced by exactly those that rebuild to the same root
  (`LeavesAcceptedExactly`), the root alone among them. In `format`'s own record that makes
  the read path serve a block of digests as the contents of a longer file
  (`CollapsedServesDigests`); an accepted entry describes the formatted file exactly if its
  number of leaves is right (`MountedEntriesDescribe`).
- A block that ends in zeros also passes verification without them, and `read_file` appends
  the next block directly. After a read during which the file was truncated, bytes can land
  in the wrong place (`ReadTruncatedThenWhole`); `BackedSafe` says exactly when they do not,
  and `LongCacheReply` gives a condition on the cached blocks that can be checked beforehand.
- The result of closing the temporary mapping during `init` is ignored: a volume can become
  Ready while the device stays in use (`PersistentDiskInit`).
- Creating the delta volume and zeroing its first 4096 bytes are two steps. A boot cut
  between them lets the next one reuse a Ready header left from earlier use of the disk
  (`ReuseCompleteExactly`).
- An empty block event overlaps no page and still collects one when it lies strictly
  inside it (`VisitedExactly`).

## Model

| member | source | states |
|---|---|---|
| `Merkle.NewConfigValid` | verity-core/src/digest.rs:131-145 | the constructor accepts exactly a salt of at most 32 bytes and a block size that is a power of two and at least two digests, keeps them as they are, and then digests tile blocks exactly |
| `Merkle.BlockHashInput` | verity-core/src/digest.rs:158-169 | what is hashed for a block: the salt zero-padded to one input block, nothing for an empty salt, then the zero-padded block |
| `Merkle.TrailingZerosExactly` | verity-core/src/digest.rs:383 | counting trailing zeros gives the logarithm if and only if the number is a power of two |
| `Merkle.TrailingZerosSplit` | verity-go/verity/digest.go:216-226 | dividing by that power of two leaves an odd number |
| `Merkle.BlockCount` | verity-core/src/digest.rs:358-377 | a file of n bytes has ceil(n / block size) leaves |
| `Merkle.LastBlockHash` | verity-core/src/digest.rs:256-328 | the leaves are those of the completed blocks followed by that of the last, possibly short or full, block, and the lengths add up |
| `Odometer.PushBytes` | verity-core/src/digest.rs:274-300 | what a chunk does to level 0: it joins the last block, or completes it and starts the next with the rest; a full block stays until more data comes |
| `Odometer.PushDigest` | verity-core/src/digest.rs:289-314 | what a digest does to an upper level: it waits, or fills the block, which is then hashed and carried and leaves the level empty |
| `Odometer.MidwayStep` | verity-core/src/digest.rs:280-315 | one turn of the carry loop keeps: levels below are final, levels from here on are as before, and one overflow is on its way |
| `Odometer.UpperDigit` | verity-core/src/digest.rs:264-267 | odometer invariant: the fill of upper level i is digit i (`DigitIs`), in base block size / digest size, of the number of completed blocks |
| `Odometer.SizeRecovered` | verity-core/src/digest.rs:345-377 | the scaled fill of all levels is exactly the number of bytes written |
| `Odometer.FlushIsRoot` | verity-core/src/digest.rs:366-377 | flushing the levels from the bottom yields the recursive Merkle root, and each level has room for the digest that arrives |
| `Odometer.LevelLimit` | verity-core/src/digest.rs:317-326 | at most MAX_LEVELS levels are needed if and only if n <= block size * cf^(MAX_LEVELS - 1) |
| `Odometer.CapacityIs` | verity-core/src/config.rs:9-15 | the capacity is block size * (block size / digest size)^7 |
| `Odometer.DefaultCapacity` | verity-core/src/config.rs:9-15 | with 4096-byte blocks and 32-byte digests that limit is 2^61 |
| `Odometer.LevelCount` | verity-core/src/digest.rs:317-326 | how many levels an input takes, for every configuration and every number of levels |
| `Odometer.SizesFitExactly` | verity-core/src/digest.rs:355-376 | for every configuration, no value of `scale` and `total_size` wraps around if and only if the last scale and the length fit in 64 bits |
| `Odometer.WordTurn` | verity-core/src/digest.rs:368-377 | one turn of the loop in wrapping 64-bit words keeps the right values modulo 2^64 |
| `Odometer.DefaultSizesFit` | verity-core/src/digest.rs:355-376 | with the default parameters nothing wraps within the level limit |
| `RustDigest.ZeroWrites` | verity-core/src/digest.rs:31-40 | remainder first, then whole pieces: exactly `amount` zero bytes |
| `RustDigest.VisitLevel0` | verity-core/src/digest.rs:288-314 | the loop body at level 0 does what the state after the longer input asks for |
| `RustDigest.VisitUpper` | verity-core/src/digest.rs:288-314 | the loop body above level 0 never splits a digest, always finds room for it, and does what the state after one more digest asks for |
| `RustDigest.FsVerityDigest.constructor` | verity-core/src/digest.rs:225-234 | a new hasher is in the state of the empty input |
| `RustDigest.FsVerityDigest.CarryUp` | verity-core/src/digest.rs:277-315 | the carry loop: new levels and leaves are those of the longer input, up to a new top level for what overflows |
| `RustDigest.FsVerityDigest.AbsorbChunk` | verity-core/src/digest.rs:274-327 | a chunk is absorbed, or the level assertion fails, exactly according to the capacity |
| `RustDigest.FsVerityDigest.Update` | verity-core/src/digest.rs:256-328 | any data is absorbed exactly if the total stays within the capacity, and one byte more fails; every other append, the one into a new top level included, fits |
| `RustDigest.FsVerityDigest.FinalizeIntoFsVerityStuffs` | verity-core/src/digest.rs:344-390 | the descriptor field by field: version 1, algorithm 1 or 2 by digest size, the logarithm of the block size, the length as the 64-bit word it is, the recursive root (zeros for the empty file), the salt; and the complete leaf list |
| `RustDigest.FsVerityDigest.Reset` | verity-core/src/digest.rs:425-429 | back to the state of the empty input with the same parameters |
| `GoDigest.CountTrailingZeros` | verity-go/verity/digest.go:216-226 | the loop counts how often the number can be halved |
| `GoDigest.VisitsAgree` | verity-go/verity/digest.go:131-156 | the differently branched loop body of the Go hasher does the same as the Rust one on every level the odometer can reach |
| `GoDigest.FsVerityDigest.Update` | verity-go/verity/digest.go:120-164 | the Go state is the same function of the input, for any split and without a level limit |
| `GoDigest.FsVerityDigest.FlushLevels` | verity-go/verity/digest.go:167-192 | the Go flush yields length, root (nothing for the empty file) and leaves |
| `GoDigest.FsVerityDigest.Finalize` | verity-go/verity/digest.go:167-208 | the same descriptor fields and leaves of everything written; and the spent state the call leaves behind, hash states flushed but fills unchanged |
| `Trees.MeasureRust` | verity-core/src/digest.rs:131-390 | main theorem: for all parameters, every input and every way of splitting it into updates the result is the recursively defined root and leaves with the other descriptor fields spelled out, or a panic exactly if the salt is longer than 32 bytes, the block size is no power of two or below two digests, or the input exceeds the capacity |
| `Trees.MeasureGo` | verity-go/verity/digest.go:120-208 | the same for the Go hasher, field by field, without a limit, for every block size that digests tile, power of two or not |
| `Trees.MeasureBoth` | verity-go/verity/digest.go:120-208 | cross-language agreement for any two splits of the same input; the Rust hasher gives a result exactly if the block size is a power of two and the input is within the capacity |
| `Trees.LeafOfBlock` | verity-core/src/digest.rs:304-309 | leaf i is the salted hash of the i-th zero-padded block |
| `Trees.OriginalBlocksVerify` | verity-core/src/tree.rs:49-62 | with an empty salt every original block, a short last one included, passes verification |
| `Trees.SaltedBlocksVerifyOnlyByCollision` | verity-core/src/tree.rs:57-61 | with a salt an original block passes exactly if the salted and the unsalted hash input collide |
| `Trees.PaddingFits` | verity-core/src/tree.rs:38-43 | the explicit padding completes the last block, never opens another one and never exceeds the capacity by itself |
| `Trees.RebuildRootHash` | verity-core/src/tree.rs:26-47 | rebuilding through the streaming hasher: a single leaf as it is, otherwise the root of the concatenated leaves, exactly if salt, block size and length are acceptable |
| `Trees.GoRebuildRootHash` | verity-go/verity/tree.go:29-52 | the Go rebuild, with its own empty and single-leaf cases |
| `Trees.RebuildAgreement` | verity-core/src/tree.rs:26-47 | for every file, empty, single-block or multi-level, the rebuilt root is the root in the descriptor |
| `Descriptors.BlockSizeRoundTrip` | verity-core/src/descriptor.rs:16-18 | the block size is recovered from its logarithm byte if and only if it is a power of two |
| `Descriptors.LittleEndianRoundTrip` | verity-core/src/descriptor.rs:20-38 | the little-endian length field determines the length |
| `Descriptors.DescriptorFields` | verity-core/src/descriptor.rs:20-38 | the encoding exists exactly if root hash and salt fit, and what each of its 256 bytes is |
| `Descriptors.DescriptorHashInput` | verity-core/src/digest.rs:158-169 | what is hashed: the padded salt, nothing for an empty one, then the 256 bytes |
| `Descriptors.DescriptorInjective` | verity-core/src/descriptor.rs:20-38 | the 256 bytes determine the descriptor |
| `Descriptors.HashedBytesInjective` | verity-core/src/digest.rs:158-169 | so do padded salt and descriptor together |
| `Descriptors.DescriptorBinding` | verity-core/src/descriptor.rs:20-38 | equal descriptor hashes: equal descriptors or a collision of the two hashed strings |
| `Descriptors.GoEncodesTheSame` | verity-go/verity/verity.go:86-139 | the Go encoder hashes the same bytes |
| `Binding.BlockBinding` | verity-core/src/digest.rs:358-377 | files of equal length with equal leaves are equal, or a computed pair collides |
| `Binding.MerkleBinding` | verity-core/src/digest.rs:358-377 | Merkle binding: files of equal length with equal roots are equal, or a computed pair collides, by induction over the levels |
| `Binding.LeavesBinding` | verity-core/src/tree.rs:26-47 | leaf lists of equal length that rebuild to the same root are equal, or a computed pair collides |
| `Binding.FileBinding` | verity-core/src/descriptor.rs:20-38 | files with equal descriptor hashes are equal, or a computed pair collides |
| `Metadata.SerializeMetadata` | cryptpilot-verity/src/metadata/mod.rs:46-126 | the stored record: the loops over sorted files and labels build exactly `Stored` |
| `Metadata.StoredOrder` | cryptpilot-verity/src/metadata/mod.rs:46-126 | that record has version 1, its files in the order of their paths and its labels in the order of their keys |
| `Metadata.DeserializeMetadata` | cryptpilot-verity/src/metadata/mod.rs:129-237 | reading back succeeds exactly for version 1 with no field missing, root hashes of 32 bytes, whole digests as leaves, and labels with key and value |
| `Metadata.ReadFileExactly` | cryptpilot-verity/src/metadata/mod.rs:145-216 | which stored files can be read, and every field of what is read; the leaves joined are the stored bytes |
| `Metadata.LastLabelStays` | cryptpilot-verity/src/metadata/mod.rs:217-231 | of several labels with the same key the last one stays |
| `Metadata.ChunksOfConcat` | verity-core/src/tree.rs:15-24 | flattening the leaves and cutting them into digests undo each other |
| `Metadata.ChunksExactly` | cryptpilot-verity/src/metadata/mod.rs:182-206 | cutting fails exactly on a remainder and otherwise loses nothing |
| `Metadata.MetadataRoundTrip` | cryptpilot-verity/src/metadata/mod.rs:46-237 | everything comes back: a sorted permutation of the files with intact leaves, and the labels |
| `Ordering.LeExactly` | cryptpilot-verity/src/metadata/mod.rs:245-280 | the order of the paths: a beginning comes first, otherwise the first difference decides |
| `Commands.HexInjective` | cryptpilot-verity/src/metadata/mod.rs:245-280 | hexadecimal strings determine the bytes |
| `Commands.HexDigits` | cryptpilot-verity/src/metadata/mod.rs:245-280 | two lower-case digits per byte, the higher one first |
| `Commands.CalculateFsVerityHash` | cryptpilot-verity/src/metadata/mod.rs:31-43 | the descriptor of the whole contents, spelled out for SHA-256, 4096-byte blocks and no salt, and the leaves; it fails exactly beyond 2^61 bytes |
| `Commands.CalculateMetadataHash` | cryptpilot-verity/src/metadata/mod.rs:245-280 | the hash of the (path, descriptor hash) pairs, each as often as stored and in the order of the paths, failing exactly on a missing field |
| `Commands.Collected` | cryptpilot-verity/src/cmd/format.rs:121-135 | exactly the files of the walk that are neither `cryptpilot-verity.metadata.fb` nor a path that ends in `/cryptpilot-verity.metadata.fb` |
| `Commands.SkippedExactly` | cryptpilot-verity/src/cmd/format.rs:121-135 | which paths are passed over, in terms of the whole path |
| `Commands.MeasureFiles` | cryptpilot-verity/src/cmd/format.rs:55-82 | one entry per file, in order, or a failure exactly if some file is too long or cannot be read |
| `Commands.FormatCommand` | cryptpilot-verity/src/cmd/format.rs:43-104 | `format` succeeds exactly if it would not replace a metadata file without being forced and every file but the metadata files can be read and is at most 2^61 bytes long; what it writes lists exactly those files, once each, in path order, with the labels, and it prints the hash of that |
| `Commands.InfoForFields` | cryptpilot-verity/src/cmd/format.rs:55-82 | every field of the entry of a file |
| `Commands.VerifySelf` | verity-fuse/src/file_verifier/file_verity_info.rs:15-38 | accepts exactly the entries whose descriptor hash and rebuilt root match |
| `Commands.SelfConsistentExactly` | verity-fuse/src/file_verifier/file_verity_info.rs:15-38 | exactly which entries pass: the hash of salt and descriptor bytes, and the root as the only leaf or the Merkle root of the leaves within the limits of the hasher; nothing else in the descriptor matters |
| `Commands.CheckMetadata` | cryptpilot-verity/src/cmd/open.rs:63-92 | the checks of `open` pass exactly if the hash of the pairs is the expected one, the metadata can be read and every entry passes `verify_self` |
| `Commands.VerifyFiles` | cryptpilot-verity/src/cmd/verify.rs:63-91 | every listed file exists and has the listed descriptor hash |
| `Commands.VerifyCommand` | cryptpilot-verity/src/cmd/verify.rs:31-92 | `verify` accepts exactly if, in both modes, the hash of the pairs is the expected one, the metadata can be read and every entry passes `verify_self`, and without `--metadata-only` every listed file has the listed hash |
| `Commands.SameRootHash` | cryptpilot-verity/src/metadata/mod.rs:245-280 | equal metadata hashes: the same pairs are listed, or the two documents collide |
| `Commands.AcceptedEntry` | cryptpilot-verity/src/cmd/verify.rs:63-91 | a file whose pair is in the accepted document is in the verified directory with the same contents, or a computed pair collides |
| `Commands.VerifyBinds` | cryptpilot-verity/src/cmd/verify.rs:34-88 | end-to-end binding: if `verify` of any directory with any metadata accepts the hash that `format` printed, every file but the metadata files is there with identical contents, or a computed pair collides |
| `Commands.MetadataBinds` | cryptpilot-verity/src/cmd/verify.rs:34-61 | the same for `--metadata-only`: metadata accepted against the printed hash has an entry for every formatted file and none besides, each bound to its file by `EntryBound`, or the documents collide |
| `Commands.VerifyExactly` | cryptpilot-verity/src/cmd/verify.rs:34-88 | without collisions, full verification accepts a directory if and only if the metadata alone is accepted and every formatted file is there unchanged |
| `Commands.FormatThenVerify` | cryptpilot-verity/src/cmd/format.rs:55-104 | what `format` writes is accepted by `verify` on the same directory |
| `Commands.InfoForConsistent` | verity-fuse/src/file_verifier/file_verity_info.rs:15-38 | every entry `format` makes passes `verify_self` |
| `Commands.LeavesAcceptedExactly` | verity-fuse/src/file_verifier/file_verity_info.rs:15-38 | in metadata accepted by `open` a leaf list may be replaced by exactly those that rebuild to the root hash |
| `Commands.CollapsedLeavesAccepted` | verity-fuse/src/file_verifier/file_verity_info.rs:25-38 | the root hash alone is always such a list |
| `Trees.TopBlockLeaf` | verity-core/src/digest.rs:358-366 | a root hash is also the only leaf of the top block of its tree, so it does not fix the height |
| `Commands.OpenBinds` | cryptpilot-verity/src/cmd/open.rs:63-92 | metadata accepted by `open` lists only formatted files, with their descriptors and, given as many leaves, their leaves, or a computed pair collides |
| `Commands.MetadataHashCanonical` | cryptpilot-verity/src/metadata/mod.rs:245-280 | the hash is unchanged by any permutation of the files and any change of the labels |
| `Commands.FormatOrderIndependent` | cryptpilot-verity/src/cmd/format.rs:43-104 | the printed hash does not depend on the order of the directory walk |
| `InodeTable.RegisteredBijective` | verity-fuse/src/file_verifier/verity_verifier.rs:98-111 | a registration keeps paths and inodes one to one exactly if the path is new |
| `InodeTable.WithParentsKeeps` | verity-fuse/src/file_verifier/verity_verifier.rs:135-146 | the parent walk adds exactly the missing ancestors, once each, and changes nothing else |
| `InodeTable.ComponentsExactly` | verity-fuse/src/file_verifier/verity_verifier.rs:128-146 | a path is cut at every slash and empty parts are left out |
| `InodeTable.TableCorrect` | verity-fuse/src/file_verifier/verity_verifier.rs:117-153 | the table lists the root and every non-empty beginning of a file path and nothing else, inodes are consecutive from 1, the root is 1, and paths and inodes correspond one to one if and only if no path is reused |
| `InodeTable.TableKinds` | verity-fuse/src/file_verifier/verity_verifier.rs:117-153 | file paths lead to their entries, all other paths to directories |
| `InodeTable.SeparateNoReuse` | verity-fuse/src/file_verifier/verity_verifier.rs:117-153 | distinct paths none of which is an ancestor of another never reuse a path |
| `InodeTable.VerityVerifier.constructor` | verity-fuse/src/file_verifier/verity_verifier.rs:117-153 | the two nested loops build that table |
| `InodeTable.VerityVerifier.RegisterEntry` | verity-fuse/src/file_verifier/verity_verifier.rs:98-111 | the new state of both maps and the counter |
| `InodeTable.VerityVerifier.LookupByPath` | verity-fuse/src/file_verifier/verity_verifier.rs:159-166 | finds exactly the listed paths, and both lookups agree |
| `FileHandles.BlockSizeIn32Bits` | verity-fuse/src/file_verifier/verity_verifier.rs:44-49 | through 32 bits a block size arrives intact if it fits and otherwise as the zero that is rejected |
| `FileHandles.PreadFileData` | verity-fuse/src/file_handle_cache.rs:26-74 | however results are split or interrupted, the result was put together from what `pread` delivered, and if the file is unchanged during the call it is exactly the range cut at its end |
| `FileHandles.SkipInterrupted` | verity-fuse/src/file_handle_cache.rs:56-60 | the first call that is not interrupted |
| `FileHandles.GrownServes` | verity-fuse/src/file_handle_cache.rs:157-167 | reading one inode keeps a cache right for every other file, and for that file if it is unchanged |
| `Stitching.BlockRange` | verity-fuse/src/filesystem.rs:122-131 | the blocks of the loop are exactly those that overlap the range, and together they cover it |
| `Stitching.PrefixExactly` | verity-fuse/src/filesystem.rs:189-197 | pieces that lack only zeros, put one behind the other, form a prefix of what they should form if and only if nothing but zeros follows the first gap |
| `Replies.VerifiedBlock` | verity-core/src/tree.rs:49-62 | a block that passes verification is the original one but for zeros at its end, or `BlockPair` of the two collides |
| `Replies.BackedSafe` | verity-fuse/src/filesystem.rs:133-213 | safety: each piece of a reply copied from verified blocks is what the original has there but for zeros at its end, or that block collides; and without a collision the reply is a prefix of the range if and only if no block that lacks zeros is followed by another byte, and all of it if it is as long |
| `Replies.ExactReply` | verity-fuse/src/filesystem.rs:133-213 | refinement: from blocks of an unchanged file the reply is the plain slice |
| `Replies.LongCacheReply` | verity-fuse/src/filesystem.rs:184-198 | checkable before the call, for an unchanged file and any safe cache: if no cached block of the range is shorter than that of the file, the reply is the slice of the file with as many zeros appended as the last block is longer, and the plain slice if the lengths are right, or a block collides |
| `ReadPath.EffectOfLongCache` | verity-fuse/src/filesystem.rs:96-214 | the same for what a read does |
| `ReadPath.CheckArguments` | verity-fuse/src/filesystem.rs:96-121 | a negative offset is EINVAL, size zero is an empty reply, a directory is EISDIR, a block size that does not fit in 32 bits is EINVAL, and nothing else is refused |
| `ReadPath.ProperExactly` | verity-fuse/src/filesystem.rs:96-121 | a read goes on exactly if offset >= 0, size > 0 and it is of a file whose block size is below 2^32 |
| `ReadPath.CutPiece` | verity-fuse/src/filesystem.rs:136-198 | the copied range of one block; the no-overlap branch is never taken |
| `ReadPath.VerityFS.constructor` | verity-fuse/src/filesystem.rs:29-43 | the cache starts empty and safe |
| `ReadPath.VerityFS.GetBlock` | verity-fuse/src/filesystem.rs:147-182 | cached or fresh, the block hashes to its leaf; a cached one is used as it is; if the kernel serves a file meanwhile, the block found in it is returned exactly if it verifies; entries of other blocks and inodes stay as they were |
| `ReadPath.VerityFS.CopyBlock` | verity-fuse/src/filesystem.rs:133-198 | one turn of the loop: the bytes are cut out of that block |
| `ReadPath.VerityFS.ReadBlocks` | verity-fuse/src/filesystem.rs:122-213 | the reply is copied from blocks that hash to their leaves; what it does to the cache; on an unchanged file, where the blocks come from and when it succeeds |
| `ReadPath.VerityFS.ReadFile` | verity-fuse/src/filesystem.rs:96-214 | the refusals, which are exactly those of `ProperExactly`, and otherwise that same effect: whatever the cache holds, a read of an unchanged file succeeds exactly if the range ends within the leaves |
| `ReadPath.PerformedReplies` | verity-fuse/src/filesystem.rs:96-214 | what that effect means for a reply: safe against every original, decided by the range while the originals are unchanged, and exactly the slice from a cache that serves them, which goes on serving all of them |
| `ReadPath.RepliedPlainly` | verity-fuse/src/filesystem.rs:96-214 | what that says in terms of the request alone: any range that ends within leaves * block size returns exactly that slice of the file, any other EIO |
| `ReadPath.VerityFS.Read` | verity-fuse/src/filesystem.rs:334-356 | the callback: an unknown inode is refused, otherwise the effect of the read |
| `ReadPath.VerityFS.ServeOne` | verity-fuse/src/filesystem.rs:334-356 | one request with all of these promises: the refusals by error code, the plain slice for every offset and size (`PlainRead`), and its blocks were delivered by the kernel |
| `ReadPath.VerityFS.Serve` | verity-fuse/src/filesystem.rs:334-356 | whole runs over any inodes: every reply is copied from verified blocks that the kernel delivered and safe, with files and cache changing arbitrarily in between; refusals are exactly as listed; and while the originals are unchanged, from an empty cache, every read of a file at any offset >= 0 of size > 0 returns the plain slice if it ends within leaves * block size and EIO otherwise |
| `TruncatedRead.ReadTruncatedThenWhole` | verity-fuse/src/filesystem.rs:184-198 | a run without any collision in which a truncated first read makes the second return bytes next to each other that are a block apart |
| `Mounting.MountedEntriesDescribe` | cryptpilot-verity/src/cmd/open.rs:63-92 | an entry of metadata accepted against the printed hash describes the formatted file if and only if its number of leaves is right, or a computed pair collides |
| `Mounting.CollapsedServesDigests` | verity-fuse/src/file_verifier/file_verity_info.rs:25-38 | `format`'s own record with one leaf list replaced by the root is accepted, describes the top block of the tree and, for a file of more than one block, not the file |
| `Mounting.Mount` | cryptpilot-verity/src/cmd/open.rs:63-139 | mounts exactly accepted metadata, with the table built from it and an empty cache |
| `Mounting.OwnRecordDescribes` | cryptpilot-verity/src/cmd/open.rs:63-92 | mounted with `format`'s own record, every file is described by its leaves |
| `Mounting.MountAndServe` | cryptpilot-verity/src/cmd/open.rs:63-139 | end to end: every reply of every run on a mount accepted against the printed hash is copied from delivered blocks and safe with respect to the formatted directory; and with `format`'s own record and the formatted files behind it, every read of a file at any offset >= 0 of size > 0 returns exactly those bytes of the formatted file if it ends within its last 4096-byte block, and EIO otherwise |
| `MkfsReplay.VisitedExactly` | cryptpilot-core/src/fs/mkfs.rs:112-133 | the collected pages of an event that is no discard and reads or writes, of positive length, are exactly those its bytes from sector * 512 on overlap; what an empty event collects |
| `MkfsReplay.CollectPages` | cryptpilot-core/src/fs/mkfs.rs:105-135 | exactly the pages that meet the bytes of some event that is no discard and reads or writes, each once, whatever the order and the duplicates |
| `MkfsReplay.MigratePages` | cryptpilot-core/src/fs/mkfs.rs:144-172 | copies exactly the listed pages, failing exactly if one reaches beyond the device |
| `MkfsReplay.TouchedIsReplayed` | cryptpilot-core/src/fs/mkfs.rs:109-135 | every byte from sector * 512 on that an event reads or writes is in a replayed page |
| `MkfsReplay.EventsOnDevice` | cryptpilot-core/src/fs/mkfs.rs:122-133 | only pages of the device are replayed if and only if every event ends on it, or is empty and starts on it or between two pages |
| `MkfsReplay.Replay` | cryptpilot-core/src/fs/mkfs.rs:105-172 | succeeds exactly if every event that counts stays on the device; then every byte that was read or written equals the dummy's, and so does the rest of those pages; bytes of pages that no such event meets are unchanged in any case |
| `Luks2.MarkersExactly` | cryptpilot-core/src/fs/luks2.rs:288-310 | a volume is Ready exactly with the subsystem `cryptpilot`, Initializing exactly with `cryptpilot-initializing`, and neither with any other header |
| `VolumeInit.InvStep` | cryptpilot-crypt/src/cmd/init.rs:57-124 | every step of every command, and every crash, keeps the protocol's invariant |
| `VolumeInit.ReadyMeansComplete` | cryptpilot-core/src/fs/luks2.rs:98-193 | in every reachable state a Ready marker means that key slot and requested file system were completed after the latest format, and only such a volume is mapped |
| `VolumeInit.ReadyKeptWithoutForce` | cryptpilot-crypt/src/cmd/init.rs:57-77 | over every continuation without `--force-reinit` a Ready volume stays Ready, complete and unformatted |
| `VolumeInit.InitCompletes` | cryptpilot-crypt/src/cmd/init.rs:95-126 | an undisturbed `init` that passes its checks ends in the complete, Ready, unmapped state |
| `VolumeInit.PowerLossRecovers` | cryptpilot-crypt/src/cmd/init.rs:57-77 | wherever a run is cut by a power loss, `open`, or one plain `init` and `open`, maps a complete volume |
| `VolumeInit.Volume.PersistentDiskInit` | cryptpilot-crypt/src/cmd/init.rs:52-127 | goes through exactly if the device is not in use and not Ready, or Ready and forced, and every operation but closing the temporary mapping works; its result, with the device still in use if that close failed; a failure leaves the volume as it was, or idle and not Ready |
| `VolumeInit.Volume.OpenVolume` | cryptpilot-crypt/src/cmd/open.rs:33-76 | maps exactly Ready volumes whose key and mapping work, and what the file system check does afterwards |
| `DeltaBoot.SettledStep` | cryptpilot-fde/src/cmd/boot_service/stage/before_sysroot.rs:376-394 | no step of any boot overwrites a settled persistent volume, and it stays settled |
| `DeltaBoot.InvStep` | cryptpilot-fde/src/cmd/boot_service/stage/before_sysroot.rs:142-183 | every step keeps: whatever has been stored, or can be stored now, sits on a settled volume |
| `DeltaBoot.NeverOverwrittenOnceUp` | cryptpilot-fde/src/cmd/boot_service/stage/before_sysroot.rs:376-394 | once a boot has come up, no later boot, cut anywhere, formats, wipes or remakes a persistent delta volume |
| `DeltaBoot.DataSurvives` | cryptpilot-fde/src/cmd/boot_service/stage/before_sysroot.rs:503-540 | nothing stored on a persistent delta volume is ever lost, over all runs |
| `DeltaBoot.SettledBoots` | cryptpilot-fde/src/cmd/boot_service/stage/before_sysroot.rs:142-183 | after any cut, the next undisturbed boot comes up with everything stored so far |
| `DeltaBoot.NothingOutlivesABoot` | cryptpilot-fde/src/cmd/boot_service/stage/before_sysroot.rs:376-407 | with location `disk` or a temporary key, a mapped volume was formatted in the same boot and holds nothing older |
| `DeltaBoot.ReuseCompleteExactly` | cryptpilot-fde/src/cmd/boot_service/stage/before_sysroot.rs:208-247 | reuse finds a complete volume in all runs if and only if fresh space does not start with a stale Ready header |
| `DeltaBoot.DeltaVolume.PrepareCow` | cryptpilot-fde/src/cmd/boot_service/stage/before_sysroot.rs:503-540 | wipes, keeps or protects the COW device, and when it fails |
| `DeltaBoot.DeltaVolume.SetupLuks2` | cryptpilot-fde/src/cmd/boot_service/stage/before_sysroot.rs:357-407 | the recreate decision, when it succeeds, fetching the key included, and the state after formatting and opening |
| `DeltaBoot.DeltaVolume.SetupDelta` | cryptpilot-fde/src/cmd/boot_service/stage/before_sysroot.rs:130-183 | exactly when a boot's delta set-up succeeds, with any operation failing, what it destroys and what it preserves, and that it leaves a Ready volume |

## Left out

- GoDigest.FsVerityDigest.Finalize: a second call on the same object is not specified beyond the spent state the first one leaves.
- Commands.VerifyBinds: the canonical JSON encoding of the list of pairs is a parameter taken to be injective.
- Commands.FormatCommand: progress output and the writing of the two output files are not modelled; a directory is a map from path to bytes; `walk` is the collected list after its preliminary sort, in any order, and reports every file once, whereas in the code an error during the walk silently ends it.
- Metadata.SerializeMetadata: FlatBuffers is a faithful record store; its byte layout is not part of this model, and the unstable sort by path is a stable one.
- Commands.OpenBinds: the statement about the leaf list needs as many leaves as the file has blocks, because the code does not compare the two.
- Descriptors.BlockSizeRoundTrip: the shift by the logarithm byte is taken modulo 64, as in a build without overflow checks.
- FileHandles.PreadFileData: the number of consecutive interrupted system calls is finite, by a function of the kernel record.
- ReadPath.VerityFS.GetBlock: eviction removes an arbitrary set of entries, so recency order and capacity are not modelled; neither are the pool of open handles and locking.
- ReadPath.VerityFS.ReadFile: the end of the range is computed without 64-bit overflow, which cannot occur for the offsets and sizes the callback passes.
- MkfsReplay.CollectPages: the separate sets of read and written pages only feed a log message; `sector * 512` is computed without overflow.
- MkfsReplay.Replay: the device size is a multiple of the page size; running mkfs on the dummy and tracing it are inputs.
- VolumeInit.Volume.PersistentDiskInit: a missing device is not modelled, and the confirmation and the key are one operation that may fail; volumes with a temporary key in `cryptpilot-crypt` are not modelled.
- DeltaBoot.DeltaVolume.SetupDelta: the RAM location is not modelled, and resizing the root file system is part of creating the snapshot; a persistent snapshot is taken to leave its COW signature on the device.
- SHA-256, SHA-512, encryption, LUKS2 and device-mapper internals: external code.
- The FUSE callbacks other than `read`, attributes, symbolic links and directory listing: plumbing around library calls.
- Key providers, attestation, cloud-init, NTP, NBD, block tracing and loop devices: network and external commands.
- Configuration parsing, command-line handling, GRUB and UKI extraction: string handling with no property beyond its own definition.
- verity-go/metadata: mirrors the Rust metadata module.
- Concurrent commands on one device: the code takes no lock, and the volume protocols are sequential.
